/**
 The prefixed integers of section 5.1 of RFC 7541, as http2.c writes and reads them.
 */
module Hpack {
  import opened Bits
  import opened Canonical

  const U32: nat := 0x1_0000_0000

  /** The largest value of the first byte's field, which announces more bytes. */
  function FirstMax(prefixLen: nat): nat
    requires prefixLen < 8
  {
    Pow2(8 - prefixLen) - 1
  }

  lemma FirstMaxRange(prefixLen: nat)
    requires prefixLen < 8
    ensures 1 <= FirstMax(prefixLen) <= 255 && FirstMax(prefixLen) + 1 == Pow2(8 - prefixLen)
  {
    Pow2Mono(1, 8 - prefixLen);
    Pow2Mono(8 - prefixLen, 8);
    Pow2Values();
  }

  // ----- what the RFC says -----

  /** The bytes after the first: seven bits each, least significant first, until one below 128. */
  function Tail(b: seq<byte>): Option<(nat, nat)>
    decreases |b|
  {
    if b == [] then None
    else if b[0] < 128 then Some((b[0], 1))
    else
      match Tail(b[1..])
      case None => None
      case Some((v, n)) => Some((b[0] - 128 + 128 * v, n + 1))
  }

  /** The integer at the start of a string of bytes and the number of bytes it takes. */
  function Integer(b: seq<byte>, prefixLen: nat): Option<(nat, nat)>
    requires prefixLen < 8
  {
    if b == [] then None
    else if b[0] % Pow2(8 - prefixLen) < FirstMax(prefixLen) then Some((b[0] % Pow2(8 - prefixLen), 1))
    else
      match Tail(b[1..])
      case None => None
      case Some((v, n)) => Some((v + FirstMax(prefixLen), n + 1))
  }

  // ----- add_length2 -----

  /** The low seven bits of a value, marked as not the last ones, and the bits above them. */
  function More(v: nat): byte
  {
    128 + v % 128
  }

  function Above(v: nat): (r: nat)
    ensures v > 0x7f ==> r < v
  {
    v / 128
  }

  function EncodeTail(v: nat): (b: seq<byte>)
    ensures |b| >= 1
  {
    if v > 0x7f then [More(v)] + EncodeTail(Above(v)) else [v]
  }

  lemma EncodeMore(front: seq<byte>, v: nat)
    requires v > 0x7f
    ensures front + EncodeTail(v) == front + [More(v)] + EncodeTail(Above(v))
  {
    hide More, Above;
  }

  function Encode(prefixLen: nat, prefixValue: byte, v: nat): (b: seq<byte>)
    requires prefixLen < 8
    ensures |b| >= 1
  {
    FirstMaxRange(prefixLen);
    OrByte(prefixValue, FirstMax(prefixLen));
    if v < FirstMax(prefixLen) then
      OrByte(prefixValue, v);
      [Or(prefixValue, v)]
    else [Or(prefixValue, FirstMax(prefixLen))] + EncodeTail(v - FirstMax(prefixLen))
  }

  lemma {:induction false} OrBelow(a: nat, b: nat, n: nat)
    requires a < Pow2(n) && b < Pow2(n)
    ensures Or(a, b) < Pow2(n)
  {
    if n > 0 {
      OrBelow(a / 2, b / 2, n - 1);
    }
  }

  lemma OrByte(a: nat, b: nat)
    requires a < 256 && b < 256
    ensures Or(a, b) < 256
  {
    hide Or, Pow2;
    Pow2Values();
    OrBelow(a, b, 8);
  }

  lemma EncodeLast(v: nat)
    requires v <= 0x7f
    ensures EncodeTail(v) == [v]
  {}

  /** The header block being built. */
  class HeaderBlock {
    var bytes: seq<byte>

    constructor ()
      ensures bytes == []
    {
      bytes := [];
    }

    method AddByte(b: byte)
      modifies this
      ensures bytes == old(bytes) + [b]
    {
      bytes := bytes + [b];
    }

    method AddLength(prefixLen: nat, prefixValue: byte, value0: nat)
      requires prefixLen < 8 && value0 < U32
      modifies this
      ensures bytes == old(bytes) + Encode(prefixLen, prefixValue, value0)
    {
      hide Or, Pow2, FirstMax, More, Above, EncodeTail;
      FirstMaxRange(prefixLen);
      var firstMax, value := FirstMax(prefixLen), value0;
      if value < firstMax {
        OrByte(prefixValue, value);
        AddByte(Or(prefixValue, value));
        return;
      }
      OrByte(prefixValue, firstMax);
      AddByte(Or(prefixValue, firstMax));
      value := value - firstMax;
      ghost var front, rest := bytes, EncodeTail(value);
      while value > 0x7f
        invariant bytes + EncodeTail(value) == front + rest
      {
        EncodeMore(bytes, value);
        AddByte(More(value));
        value := Above(value);
      }
      EncodeLast(value);
      AddByte(value);
    }
  }

  // ----- Xdecode_int2 -----

  datatype Decoded = Value(v: nat, n: nat) | Overflow | Short | Undefined

  /** The value bits of a byte. */
  function Seven(b: byte): (r: nat)
    ensures r < 128 && (b < 128 ==> r == b) && (b >= 128 ==> r == b - 128)
  {
    b % 128
  }

  function Mod32(v: nat): nat
  {
    v % U32
  }

  /** The loop of the decoder from byte o on: v holds the bits so far. */
  function DecodeFrom(b: seq<byte>, o: nat, v: nat, max: nat): Decoded
    requires 1 <= o
    decreases |b| - o
  {
    if o >= |b| then Short
    else
      var bits, shift := Seven(b[o]), (o - 1) * 7;
      if shift >= 32 then Undefined
      else
        var shifted := Mod32(Shl(bits, shift));
        if Shr(shifted, shift) != bits then Overflow
        else
          var v' := Or(v, shifted);
          if b[o] >= 128 then DecodeFrom(b, o + 1, v', max)
          else if Mod32(v' + max) < max then Overflow
          else Value(Mod32(v' + max), o + 1)
  }

  function Decode(b: seq<byte>, prefixLen: nat): Decoded
    requires prefixLen < 8 && |b| >= 1
  {
    var first := b[0] % Pow2(8 - prefixLen);
    if first < FirstMax(prefixLen) then Value(first, 1) else DecodeFrom(b, 1, 0, FirstMax(prefixLen))
  }

  /** Xdecode_int2 */
  method XdecodeInt(buf: array<byte>, len: nat, prefixLen: nat) returns (r: Decoded)
    requires prefixLen < 8 && 1 <= len <= buf.Length
    ensures r == Decode(buf[..len], prefixLen)
  {
    hide Or, Pow2, Shl, Shr, FirstMax, Seven, Mod32;
    ghost var b := buf[..len];
    var maxValue := FirstMax(prefixLen);
    var first := buf[0] % Pow2(8 - prefixLen);
    if first < maxValue {
      return Value(first, 1);
    }
    var v: nat, o: nat := 0, 1;
    while o < len
      invariant 1 <= o <= len && Decode(b, prefixLen) == DecodeFrom(b, o, v, maxValue)
    {
      var bits, shift := Seven(buf[o]), (o - 1) * 7;
      if shift >= 32 {
        return Undefined;
      }
      var newValue := Mod32(Shl(bits, shift));
      if Shr(newValue, shift) != bits {
        return Overflow;
      }
      v := Or(v, newValue);
      if buf[o] < 128 {
        v := Mod32(v + maxValue);
        if v < maxValue {
          return Overflow;
        }
        return Value(v, o + 1);
      }
      o := o + 1;
    }
    return Short;
  }

  // ----- the decoder against the RFC -----

  /** What is known of the rest of the integer, given what the decoder made of it. */
  ghost predicate Means(r: Decoded, tail: Option<(nat, nat)>, o: nat, v: nat, p: nat, max: nat)
  {
    match r
    case Value(x, n) => tail.Some? && n == o + tail.value.1 && x == v + tail.value.0 * p + max && x < U32
    case Overflow => tail.Some? ==> v + tail.value.0 * p + max >= U32
    case Short => tail.None?
    case Undefined => tail.Some? ==> o + tail.value.1 > 6
  }

  /** A field either fits above the bits below it or the check detects that it does not. */
  lemma ShiftCheck(bits: nat, shift: nat)
    requires bits < 128 && shift < 32
    ensures Shr(Mod32(Shl(bits, shift)), shift) == bits <==> bits * Pow2(shift) < U32
    ensures bits * Pow2(shift) < U32 ==>
              Mod32(Shl(bits, shift)) == Shl(bits, shift) && bits * Pow2(shift) + Pow2(shift) <= U32
  {
    hide Pow2;
    var p, q := Pow2(shift), Pow2(32 - shift);
    Pow2Add(shift, 32 - shift);
    Word();
    Fits(bits, p, q);
    Recovered(bits, p);
  }

  lemma Recovered(bits: nat, p: nat)
    requires p > 0
    ensures bits * p % U32 / p == bits <==> bits * p < U32
  {
    if bits * p < U32 {
      DivUnique(bits * p, p, bits, 0);
    } else {
      Smaller(bits * p % U32, bits, p);
    }
  }

  lemma Word()
    ensures Pow2(32) == U32
  {
    Pow2Add(16, 16);
    Pow2Values();
  }

  lemma Fits(bits: nat, p: nat, q: nat)
    requires p > 0 && p * q == U32
    ensures bits * p < U32 ==> bits * p + p <= U32
  {
    if bits >= q {
      assert bits * p >= q * p;
    } else {
      assert (bits + 1) * p <= q * p;
    }
  }

  lemma Smaller(v: nat, bits: nat, p: nat)
    requires p > 0 && v < bits * p
    ensures v / p < bits
  {
    ModLess(v, p);
    if v / p >= bits {
      MulLe(bits, v / p, p);
    }
  }

  lemma MulLe(a: nat, b: nat, c: nat)
    requires a <= b
    ensures a * c <= b * c
  {}

  lemma TailStep(b: seq<byte>, o: nat)
    requires o < |b|
    ensures b[o] < 128 ==> Tail(b[o..]) == Some((b[o], 1))
    ensures b[o] >= 128 && Tail(b[o + 1..]).None? ==> Tail(b[o..]).None?
    ensures b[o] >= 128 && Tail(b[o + 1..]).Some? ==>
              Tail(b[o..]) == Some((b[o] - 128 + 128 * Tail(b[o + 1..]).value.0, Tail(b[o + 1..]).value.1 + 1))
  {
    assert b[o..][0] == b[o] && b[o..][1..] == b[o + 1..];
  }

  lemma Regroup(v: nat, bits: nat, y: nat, p: nat)
    ensures v + (bits + 128 * y) * p == (v + bits * p) + y * (128 * p)
  {}

  lemma LowPart(bits: nat, y: nat, p: nat)
    ensures bits * p <= (bits + y) * p
  {}

  lemma {:induction false} FromMeans(b: seq<byte>, o: nat, v: nat, max: nat)
    requires 1 <= o <= |b| && v < Pow2((o - 1) * 7) && v < U32 && 1 <= max < 256
    ensures Means(DecodeFrom(b, o, v, max), Tail(b[o..]), o, v, Pow2((o - 1) * 7), max)
    decreases |b| - o
  {
    hide Or, Pow2, Shl, Shr, Tail, Means, Seven, Mod32;
    var tail, p := Tail(b[o..]), Pow2((o - 1) * 7);
    if o == |b| {
      NoTail(b[o..]);
      MeansShort(tail, o, v, p, max);
    } else {
      var bits, shift := Seven(b[o]), (o - 1) * 7;
      TailStep(b, o);
      if shift >= 32 {
        TailLong(b, o);
        MeansUndefined(tail, o, v, p, max);
      } else {
        ShiftCheck(bits, shift);
        if bits * p >= U32 {
          MeansOverflow(tail, o, v, p, max, bits);
        } else {
          FieldAdded(v, bits, shift);
          var v' := v + bits * p;
          assert shift + 7 == o * 7;
          if b[o] >= 128 {
            FromMeans(b, o + 1, v', max);
            MeansStep(DecodeFrom(b, o + 1, v', max), tail, Tail(b[o + 1..]), o, v, p, max, bits);
          } else {
            MeansLast(tail, o, v, p, max, bits);
          }
        }
      }
    }
  }

  lemma FieldAdded(v: nat, bits: nat, shift: nat)
    requires v < Pow2(shift) && bits < 128 && bits * Pow2(shift) + Pow2(shift) <= U32
    ensures Or(v, Shl(bits, shift)) == v + bits * Pow2(shift)
    ensures Pow2(shift + 7) == 128 * Pow2(shift) && v + bits * Pow2(shift) < Pow2(shift + 7)
            && v + bits * Pow2(shift) < U32
  {
    hide Or, Pow2, Shl;
    OrDisjoint(v, bits, shift);
    Pow2Add(shift, 7);
    Pow2Values();
    Within(bits, Pow2(shift));
  }

  lemma Within(bits: nat, p: nat)
    requires bits < 128
    ensures bits * p + p <= 128 * p
  {}

  lemma MeansShort(tail: Option<(nat, nat)>, o: nat, v: nat, p: nat, max: nat)
    requires tail.None?
    ensures Means(Short, tail, o, v, p, max)
  {}

  lemma MeansUndefined(tail: Option<(nat, nat)>, o: nat, v: nat, p: nat, max: nat)
    requires o >= 6 && (tail.Some? ==> tail.value.1 >= 1)
    ensures Means(Undefined, tail, o, v, p, max)
  {}

  lemma MeansOverflow(tail: Option<(nat, nat)>, o: nat, v: nat, p: nat, max: nat, bits: nat)
    requires bits * p >= U32 && (tail.Some? ==> tail.value.0 >= bits)
    ensures Means(Overflow, tail, o, v, p, max)
  {
    if tail.Some? {
      LowPart(bits, tail.value.0 - bits, p);
    }
  }

  lemma MeansStep(r: Decoded, tail: Option<(nat, nat)>, next: Option<(nat, nat)>, o: nat, v: nat, p: nat, max: nat,
                  bits: nat)
    requires Means(r, next, o + 1, v + bits * p, 128 * p, max)
    requires next.None? ==> tail.None?
    requires next.Some? ==> tail == Some((bits + 128 * next.value.0, next.value.1 + 1))
    ensures Means(r, tail, o, v, p, max)
  {
    if next.Some? {
      Regroup(v, bits, next.value.0, p);
    }
  }

  lemma MeansLast(tail: Option<(nat, nat)>, o: nat, v: nat, p: nat, max: nat, bits: nat)
    requires tail == Some((bits, 1)) && v + bits * p < U32 && 1 <= max < 256
    ensures var x := Mod32(v + bits * p + max);
            Means(if x < max then Overflow else Value(x, o + 1), tail, o, v, p, max)
  {}

  lemma NoTail(b: seq<byte>)
    requires b == []
    ensures Tail(b).None?
  {}

  lemma TailLong(b: seq<byte>, o: nat)
    requires o < |b|
    ensures Tail(b[o..]).Some? ==> Tail(b[o..]).value.1 >= 1
  {}

  /** What the decoder returns is right: the value, or a true reason for refusing. */
  lemma DecodeMeaning(b: seq<byte>, prefixLen: nat)
    requires prefixLen < 8 && |b| >= 1
    ensures match Decode(b, prefixLen)
            case Value(v, n) => Integer(b, prefixLen) == Some((v, n)) && v < U32 && n <= |b|
            case Overflow => Integer(b, prefixLen).Some? ==> Integer(b, prefixLen).value.0 >= U32
            case Short => Integer(b, prefixLen).None?
            case Undefined => Integer(b, prefixLen).Some? ==> Integer(b, prefixLen).value.1 > 6
  {
    hide Pow2, FirstMax, Tail, DecodeFrom;
    FirstMaxRange(prefixLen);
    TailFits(b[1..]);
    NoShift();
    FromMeans(b, 1, 0, FirstMax(prefixLen));
  }

  lemma NoShift()
    ensures Pow2(0) == 1
  {}

  lemma {:induction false} TailFits(b: seq<byte>)
    ensures Tail(b).Some? ==> 1 <= Tail(b).value.1 <= |b|
    decreases |b|
  {
    if b != [] {
      TailFits(b[1..]);
    }
  }

  // ----- round trip -----

  lemma {:induction false} TailEncoded(v: nat, rest: seq<byte>)
    ensures Tail(EncodeTail(v) + rest) == Some((v, |EncodeTail(v)|))
  {
    var all := EncodeTail(v) + rest;
    if v > 0x7f {
      TailEncoded(v / 128, rest);
      assert all[1..] == EncodeTail(v / 128) + rest;
    }
  }

  lemma OneMore(v: nat, n: nat)
    requires |EncodeTail(Above(v))| <= n
    ensures |EncodeTail(v)| <= n + 1
  {}

  lemma TailLength(v: nat)
    requires v < U32
    ensures |EncodeTail(v)| <= 5
  {
    hide EncodeTail;
    var a, b, c, d := Above(v), Above(Above(v)), Above(Above(Above(v))), Above(Above(Above(Above(v))));
    EncodeLast(d);
    OneMore(c, 1);
    OneMore(b, 2);
    OneMore(a, 3);
    OneMore(v, 4);
  }

  /** The first byte: the prefix bits are kept apart from the value, or they are not. */
  lemma {:induction false} OrMod(a: nat, b: nat, n: nat)
    requires b < Pow2(n)
    ensures Or(a, b) % Pow2(n) == Or(a % Pow2(n), b)
  {
    hide Pow2;
    NoShift();
    if n > 0 {
      Pow2Double(n);
      OrMod(a / 2, b / 2, n - 1);
      ModHalf(a, n);
      ModHalf(Or(a, b), n);
    }
  }

  lemma Pow2Double(n: nat)
    requires n > 0
    ensures Pow2(n) == 2 * Pow2(n - 1)
  {}

  lemma {:induction false} OrOnes(a: nat, n: nat)
    requires a < Pow2(n)
    ensures Or(a, Pow2(n) - 1) == Pow2(n) - 1
  {
    hide Or, Pow2;
    NoShift();
    OrStep(a, Pow2(n) - 1);
    if n > 0 {
      Pow2Double(n);
      OrOnes(a / 2, n - 1);
    }
  }

  lemma OrStep(a: nat, b: nat)
    ensures a == 0 && b == 0 ==> Or(a, b) == 0
    ensures Or(a, b) == (if a % 2 == 1 || b % 2 == 1 then 1 else 0) + 2 * Or(a / 2, b / 2)
  {}

  /** A number of n bits does not reach the bits above. */
  lemma {:induction false} OrAbove(a: nat, b: nat, n: nat)
    requires b < Pow2(n)
    ensures Shr(Or(a, b), n) == Shr(a, n)
  {
    hide Or;
    OrStep(a, b);
    if n == 0 {
      OrZeroRight(a);
    } else {
      hide Shr;
      OrAbove(a / 2, b / 2, n - 1);
      DivDiv(Or(a, b), n);
      DivDiv(a, n);
      assert Or(a, b) / 2 == Or(a / 2, b / 2);
    }
  }

  lemma {:induction false} OrZeroRight(a: nat)
    ensures Or(a, 0) == a
  {
    OrStep(a, 0);
    if a > 0 {
      OrZeroRight(a / 2);
    }
  }

  /** The bits of the prefix stand in the first byte, above the field of the value. */
  lemma PrefixKept(prefixLen: nat, prefixValue: byte, v: nat)
    requires prefixLen < 8
    ensures Encode(prefixLen, prefixValue, v)[0] / Pow2(8 - prefixLen) == prefixValue / Pow2(8 - prefixLen)
  {
    hide Or, Pow2, EncodeTail;
    FirstMaxRange(prefixLen);
    OrAbove(prefixValue, if v < FirstMax(prefixLen) then v else FirstMax(prefixLen), 8 - prefixLen);
  }

  /**
   Reading back what was written gives the value and consumes exactly the bytes
   written, if and only if the bits of the prefix do not disturb the value.
   */
  lemma RoundTrip(prefixLen: nat, prefixValue: byte, v: nat, rest: seq<byte>)
    requires prefixLen < 8 && v < U32
    ensures |Encode(prefixLen, prefixValue, v)| <= 6
    ensures Decode(Encode(prefixLen, prefixValue, v) + rest, prefixLen) == Value(v, |Encode(prefixLen, prefixValue, v)|)
            <==> (v < FirstMax(prefixLen) ==> Or(prefixValue % Pow2(8 - prefixLen), v) == v)
  {
    hide Or, Pow2, Tail, DecodeFrom, EncodeTail;
    FirstMaxRange(prefixLen);
    var max, n := FirstMax(prefixLen), 8 - prefixLen;
    var all := Encode(prefixLen, prefixValue, v) + rest;
    DecodeMeaning(all, prefixLen);
    ModLess(prefixValue, Pow2(n));
    if v < max {
      OrMod(prefixValue, v, n);
      assert all[1..] == rest;
    } else {
      OrMod(prefixValue, max, n);
      OrOnes(prefixValue % Pow2(n), n);
      assert all[1..] == EncodeTail(v - max) + rest;
      TailEncoded(v - max, rest);
      TailLength(v - max);
    }
  }

  /** The prefix bits are merged into the value: with prefix value 1, two is sent as three. */
  lemma PrefixDisturbs()
    ensures Decode(Encode(1, 1, 2), 1) == Value(3, 1)
  {
    hide Or;
    OrStep(1, 2);
    OrStep(0, 1);
    OrStep(0, 0);
    FirstMaxRange(1);
    assert Pow2(7) == 128;
  }

  /** With nothing below the prefix, as in every call, each integer is read back. */
  lemma CleanPrefix(prefixLen: nat, prefixValue: byte, v: nat, rest: seq<byte>)
    requires prefixLen < 8 && v < U32 && prefixValue % Pow2(8 - prefixLen) == 0
    ensures Decode(Encode(prefixLen, prefixValue, v) + rest, prefixLen) == Value(v, |Encode(prefixLen, prefixValue, v)|)
  {
    RoundTrip(prefixLen, prefixValue, v, rest);
    OrNothing(v);
  }

  lemma {:induction false} OrNothing(v: nat)
    ensures Or(0, v) == v
  {
    OrStep(0, v);
    if v > 0 {
      OrNothing(v / 2);
    }
  }

  // ----- the shift that C leaves undefined -----

  /**
   The loop gets to the seventh byte: all bytes before it say that more follow,
   and the sixth one still fits 32 bits.
   */
  predicate SeventhByte(b: seq<byte>, from: nat)
  {
    |b| > 6 && (forall i | from <= i < 6 :: b[i] >= 128) && (from <= 5 ==> b[5] < 144)
  }

  lemma FieldFits(bits: nat, o: nat)
    requires bits < 128 && 1 <= o <= 5
    ensures bits * Pow2((o - 1) * 7) < U32 <==> o <= 4 || bits < 16
  {
    hide Pow2;
    Word();
    Pow2Values();
    Pow2Add(28, 4);
    var shift := (o - 1) * 7;
    if o <= 4 {
      Pow2Add(shift, 7);
      MulLe(bits, 128, Pow2(shift));
      GrowsTo(shift + 7, 28);
    } else if bits < 16 {
      MulLe(bits, 15, Pow2(28));
    } else {
      MulLe(16, bits, Pow2(28));
    }
  }

  lemma {:induction false} GrowsTo(a: nat, b: nat)
    requires a <= b
    ensures 0 < Pow2(a) <= Pow2(b)
    decreases b - a
  {
    if a < b {
      GrowsTo(a + 1, b);
    }
  }

  lemma {:induction false} UndefinedFrom(b: seq<byte>, o: nat, v: nat, max: nat)
    requires 1 <= o <= 6
    ensures DecodeFrom(b, o, v, max).Undefined? <==> SeventhByte(b, o)
    decreases 6 - o
  {
    hide Or, Pow2, Shl, Shr, Mod32;
    if o < |b| && o <= 5 {
      var bits, shift := Seven(b[o]), (o - 1) * 7;
      ShiftCheck(bits, shift);
      FieldFits(bits, o);
      var more := Or(v, Mod32(Shl(bits, shift)));
      UndefinedFrom(b, o + 1, more, max);
    }
  }

  /** Exactly these byte strings make the decoder shift by more bits than a word has. */
  lemma UndefinedIff(b: seq<byte>, prefixLen: nat)
    requires prefixLen < 8 && |b| >= 1
    ensures Decode(b, prefixLen).Undefined? <==> b[0] % Pow2(8 - prefixLen) == FirstMax(prefixLen) && SeventhByte(b, 1)
  {
    hide DecodeFrom, SeventhByte, Pow2;
    FirstMaxRange(prefixLen);
    ModLess(b[0], Pow2(8 - prefixLen));
    UndefinedFrom(b, 1, 0, FirstMax(prefixLen));
  }
}
