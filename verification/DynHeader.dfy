/**
 The header of a block with dynamic trees: what is written and what a decoder
 reads back from it, section 3.2.7 of RFC 1951.
 */
module DynHeader {
  import opened Bits
  import opened Canonical
  import opened RunLength
  import opened SendTree
  import opened Inflate
  import opened Tables
  import opened BlockCode
  import StaticTrees

  // ----- lengths padded with zeros -----

  lemma PadCount(lens: seq<nat>, k: nat, l: nat)
    requires l > 0
    ensures Count(lens + Repeat(0, k), l) == Count(lens, l)
  {
    StaticTrees.CountConcat(lens, Repeat(0, k), l);
    StaticTrees.CountRepeat(0, k, l);
  }

  lemma {:induction false} PadFirst(lens: seq<nat>, k: nat, l: nat)
    ensures FirstCode(lens + Repeat(0, k), l) == FirstCode(lens, l)
  {
    if l > 0 {
      PadFirst(lens, k, l - 1);
      if l > 1 {
        PadCount(lens, k, l - 1);
      }
    }
  }

  lemma {:induction false} PadKraft(lens: seq<nat>, k: nat, l: nat, top: nat)
    requires l <= top
    ensures KraftTo(lens + Repeat(0, k), l, top) == KraftTo(lens, l, top)
  {
    hide Count, Pow2;
    if l > 0 {
      PadKraft(lens, k, l - 1, top);
      PadCount(lens, k, l);
    }
  }

  /** Symbols without a code at the end of a table change no code. */
  lemma PadCodes(lens: seq<nat>, k: nat, s: nat)
    requires s < |lens|
    ensures CodeBits(lens + Repeat(0, k), s) == CodeBits(lens, s)
  {
    hide Count, MsbBits, FirstCode, Repeat;
    assert (lens + Repeat<nat>(0, k))[..s] == lens[..s];
    PadFirst(lens, k, lens[s]);
  }

  // ----- what is written -----

  ghost function BlBits(bl: seq<nat>, n: nat): (s: seq<bool>)
    requires n <= BL_CODES == |bl|
    ensures |s| == 3 * n
  {
    if n == 0 then [] else BlBits(bl, n - 1) + BitsOf(bl[BL_ORDER[n - 1]], 3)
  }

  /** The tables of a block and the number of entries sent of the last one. */
  ghost predicate Coherent(ll: seq<nat>, dd: seq<nat>, bl: seq<nat>, n: nat)
  {
    && 257 <= |ll| <= L_CODES && 1 <= |dd| <= D_CODES && |bl| == BL_CODES && 4 <= n <= BL_CODES
    && (forall i | 0 <= i < |ll| :: ll[i] <= MAX_BITS) && (forall i | 0 <= i < |dd| :: dd[i] <= MAX_BITS)
    && (forall s | 0 <= s < BL_CODES :: bl[s] < 8) && (forall r | n <= r < BL_CODES :: bl[BL_ORDER[r]] == 0)
    && Decodable(bl) && Sendable(bl, AllOps(ll)) && Sendable(bl, AllOps(dd))
  }

  ghost function Counts(ll: seq<nat>, dd: seq<nat>, n: nat): (s: seq<bool>)
    requires 257 <= |ll| && 1 <= |dd| && 4 <= n
    ensures |s| == 14
  {
    BitsOf(|ll| - 257, 5) + BitsOf(|dd| - 1, 5) + BitsOf(n - 4, 4)
  }

  lemma SendableSymbols(bl: seq<nat>, ops: seq<LenOp>)
    requires Sendable(bl, ops)
    ensures forall i | 0 <= i < |ops| :: ops[i].sym < |bl|
  {}

  ghost function LensBits(ll: seq<nat>, dd: seq<nat>, bl: seq<nat>): seq<bool>
    requires Sendable(bl, AllOps(ll)) && Sendable(bl, AllOps(dd))
  {
    EncodeOps(bl, AllOps(ll)) + EncodeOps(bl, AllOps(dd))
  }

  ghost function Header(ll: seq<nat>, dd: seq<nat>, bl: seq<nat>, n: nat): seq<bool>
    requires Coherent(ll, dd, bl, n)
  {
    Counts(ll, dd, n) + (BlBits(bl, n) + LensBits(ll, dd, bl))
  }

  // ----- reading the counts and the bit length code -----

  lemma ReadNumber(bits: seq<bool>, pos: nat, v: nat, n: nat)
    requires FieldAt(bits, pos, BitsOf(v, n)) && v < Pow2(n)
    ensures pos + n <= |bits| && ValueOf(bits[pos..pos + n]) == v
  {
    hide ValueOf, Pow2;
    ValueOfBitsOf(v, n);
  }

  lemma ReadCounts(ll: seq<nat>, dd: seq<nat>, n: nat, bits: seq<bool>, pos: nat)
    requires 257 <= |ll| <= L_CODES && 1 <= |dd| <= D_CODES && 4 <= n <= BL_CODES
    requires FieldAt(bits, pos, Counts(ll, dd, n))
    ensures pos + 14 <= |bits|
    ensures ValueOf(bits[pos..pos + 5]) == |ll| - 257 && ValueOf(bits[pos + 5..pos + 10]) == |dd| - 1
    ensures ValueOf(bits[pos + 10..pos + 14]) == n - 4
  {
    hide ValueOf, Pow2, BitsOf, FieldAt;
    Pow2Values();
    var a, b, c := BitsOf(|ll| - 257, 5), BitsOf(|dd| - 1, 5), BitsOf(n - 4, 4);
    FieldSplit(bits, pos, a + b, c);
    FieldSplit(bits, pos, a, b);
    ReadNumber(bits, pos, |ll| - 257, 5);
    ReadNumber(bits, pos + 5, |dd| - 1, 5);
    ReadNumber(bits, pos + 10, n - 4, 4);
  }

  /** The lengths known after the first r entries. */
  ghost predicate KnownTo(bl: seq<nat>, lens: seq<nat>, r: nat)
    requires r <= |BL_ORDER|
  {
    && |bl| == |lens| == BL_CODES
    && forall s | 0 <= s < BL_CODES :: lens[s] == if s in BL_ORDER[..r] then bl[s] else 0
  }

  lemma OrderNext(r: nat)
    requires r < |BL_ORDER|
    ensures BL_ORDER[..r + 1] == BL_ORDER[..r] + [BL_ORDER[r]]
  {
    hide BL_ORDER;
  }

  lemma KnownNext(bl: seq<nat>, lens: seq<nat>, r: nat)
    requires r < |BL_ORDER| && KnownTo(bl, lens, r) && BL_ORDER[r] < BL_CODES
    ensures KnownTo(bl, lens[BL_ORDER[r] := bl[BL_ORDER[r]]], r + 1)
  {
    hide BL_ORDER;
    OrderNext(r);
  }

  lemma BlSplit(bl: seq<nat>, n: nat, r: nat)
    requires r < n <= BL_CODES == |bl|
    ensures BlBits(bl, n)[3 * r..3 * r + 3] == BitsOf(bl[BL_ORDER[r]], 3)
  {
    hide BitsOf, BL_ORDER;
    OrderSize();
    var front, last := BlBits(bl, n - 1), BitsOf(bl[BL_ORDER[n - 1]], 3);
    if r == n - 1 {
      assert (front + last)[3 * r..3 * r + 3] == last;
    } else {
      BlSplit(bl, n - 1, r);
      assert (front + last)[3 * r..3 * r + 3] == front[3 * r..3 * r + 3];
    }
  }

  lemma FieldPart(bits: seq<bool>, pos: nat, f: seq<bool>, from: nat, n: nat)
    requires FieldAt(bits, pos, f) && from + n <= |f|
    ensures pos + from + n <= |bits| && f[from..from + n] == bits[pos + from..pos + from + n]
  {
    var a, b := f[from..from + n], bits[pos + from..pos + from + n];
    forall i | 0 <= i < n
      ensures a[i] == b[i]
    {
      assert f[from + i] == bits[pos..pos + |f|][from + i];
    }
  }

  lemma BlEntry(bl: seq<nat>, n: nat, r: nat, bits: seq<bool>, pos: nat)
    requires r < n <= BL_CODES == |bl| && FieldAt(bits, pos, BlBits(bl, n)) && BL_ORDER[r] < BL_CODES
             && bl[BL_ORDER[r]] < 8
    ensures ValueOf(bits[pos + 3 * r..pos + 3 * r + 3]) == bl[BL_ORDER[r]]
  {
    hide BitsOf, BL_ORDER, ValueOf, BlBits;
    OrderSize();
    BlSplit(bl, n, r);
    FieldPart(bits, pos, BlBits(bl, n), 3 * r, 3);
    Pow2Values();
    ValueOfBitsOf(bl[BL_ORDER[r]], 3);
  }

  lemma {:induction false} ReadBlFrom(bl: seq<nat>, n: nat, lens: seq<nat>, r: nat, bits: seq<bool>, pos: nat)
    requires r <= n <= BL_CODES == |bl| && (forall s | 0 <= s < BL_CODES :: bl[s] < 8)
    requires FieldAt(bits, pos, BlBits(bl, n)) && KnownTo(bl, lens, r)
    ensures KnownTo(bl, ReadBlLens(bits, pos + 3 * r, n, lens, r), n)
    decreases n - r
  {
    hide BlBits, KnownTo, ValueOf, BL_ORDER;
    OrderSize();
    KnownSize(bl, lens, r);
    if r < n {
      BlEntry(bl, n, r, bits, pos);
      KnownNext(bl, lens, r);
      ReadBlFrom(bl, n, lens[BL_ORDER[r] := bl[BL_ORDER[r]]], r + 1, bits, pos);
    }
  }

  lemma OrderSize()
    ensures |BL_ORDER| == BL_CODES && forall r | 0 <= r < BL_CODES :: BL_ORDER[r] < BL_CODES
  {}

  lemma KnownSize(bl: seq<nat>, lens: seq<nat>, r: nat)
    requires r <= |BL_ORDER| && KnownTo(bl, lens, r)
    ensures |lens| == BL_CODES
  {}

  function Place(s: nat): nat
  {
    if s == 0 then 3 else if s == 16 then 0 else if s == 17 then 1 else if s == 18 then 2
    else if s < 8 then 19 - 2 * s else 2 * s - 12
  }

  lemma OrderCovers(s: nat)
    requires s < BL_CODES
    ensures Place(s) < |BL_ORDER| && BL_ORDER[Place(s)] == s
  {}

  /** The entries that are not sent are zero, so the decoder has the whole table. */
  lemma KnownAll(bl: seq<nat>, lens: seq<nat>, n: nat)
    requires n <= BL_CODES && KnownTo(bl, lens, n) && forall r | n <= r < BL_CODES :: bl[BL_ORDER[r]] == 0
    ensures lens == bl
  {
    hide BL_ORDER;
    OrderSize();
    forall s | 0 <= s < BL_CODES
      ensures lens[s] == bl[s]
    {
      OrderCovers(s);
      if Place(s) < n {
        assert BL_ORDER[..n][Place(s)] == s;
      }
    }
  }

  lemma ReadBl(bl: seq<nat>, n: nat, bits: seq<bool>, pos: nat)
    requires n <= BL_CODES == |bl| && (forall s | 0 <= s < BL_CODES :: bl[s] < 8)
    requires (forall r | n <= r < BL_CODES :: bl[BL_ORDER[r]] == 0) && FieldAt(bits, pos, BlBits(bl, n))
    ensures pos + 3 * n <= |bits| && ReadBlLens(bits, pos, n, Repeat(0, BL_CODES), 0) == bl
  {
    hide BlBits, ReadBlLens, BL_ORDER;
    OrderSize();
    assert KnownTo(bl, Repeat(0, BL_CODES), 0);
    ReadBlFrom(bl, n, Repeat(0, BL_CODES), 0, bits, pos);
    KnownAll(bl, ReadBlLens(bits, pos, n, Repeat(0, BL_CODES), 0), n);
  }

  // ----- reading the two tables of lengths -----

  lemma BothSendable(ll: seq<nat>, dd: seq<nat>, bl: seq<nat>)
    requires Sendable(bl, AllOps(ll)) && Sendable(bl, AllOps(dd))
    ensures Sendable(bl, AllOps(ll) + AllOps(dd)) && EncodeOps(bl, AllOps(ll) + AllOps(dd)) == LensBits(ll, dd, bl)
  {
    hide Sendable, EncodeOps, AllOps;
    EncodeConcat(bl, AllOps(ll), AllOps(dd));
  }

  /** The two tables are sent as one list but no repetition crosses from the first to the second. */
  lemma ReadBoth(ll: seq<nat>, dd: seq<nat>, bl: seq<nat>, bits: seq<bool>, pos: nat)
    requires Decodable(bl) && Sendable(bl, AllOps(ll)) && Sendable(bl, AllOps(dd)) && pos <= |bits|
    requires (forall i | 0 <= i < |ll| :: ll[i] <= MAX_BITS) && (forall i | 0 <= i < |dd| :: dd[i] <= MAX_BITS)
    requires FieldAt(bits, pos, LensBits(ll, dd, bl))
    ensures DecodeLens(bl, bits, pos, |ll| + |dd|, []) == Some((ll + dd, pos + |LensBits(ll, dd, bl)|))
  {
    hide Decodable, Sendable, AllOps, FieldAt, LensBits, EncodeOps, Expand;
    BothSendable(ll, dd, bl);
    ExpandAll(ll, []);
    assert [] + ll == ll;
    ExpandAll(dd, ll);
    ExpandConcat([], AllOps(ll), AllOps(dd), ll);
    DecodeOps(bl, AllOps(ll) + AllOps(dd), bits, pos, [], ll + dd);
  }

  /** Reading back a block with dynamic trees. */
  lemma DecodeDynamicSent(tb: CodeTables, ll: seq<nat>, dd: seq<nat>, bl: seq<nat>, n: nat, ts: seq<Token>,
                          bits: seq<bool>, pos: nat,
                          out: seq<byte>, res: seq<byte>)
    requires Coherent(ll, dd, bl, n) && Decodable(ll) && Decodable(dd) && CanEncode(tb, ll, dd, ts)
    requires FieldAt(bits, pos, Header(ll, dd, bl, n) + EncodeBody(tb, ll, dd, ts))
    requires ExpandTokens(out, ts) == Some(res)
    ensures DecodeDynamic(bits, pos, out) == Some((res, pos + |Header(ll, dd, bl, n) + EncodeBody(tb, ll, dd, ts)|))
  {
    hide Decodable, Sendable, CanEncode, FieldAt, EncodeBody, LensBits, BlBits, Counts, ValueOf, ReadBlLens, BL_ORDER,
         DecodeLens, DecodeBody, ExpandTokens;
    OrderSize();
    var body := EncodeBody(tb, ll, dd, ts);
    FieldSplit(bits, pos, Header(ll, dd, bl, n), body);
    FieldSplit(bits, pos, Counts(ll, dd, n), BlBits(bl, n) + LensBits(ll, dd, bl));
    ReadCounts(ll, dd, n, bits, pos);
    var p := pos + 14;
    FieldSplit(bits, p, BlBits(bl, n), LensBits(ll, dd, bl));
    ReadBl(bl, n, bits, p);
    var q := p + 3 * n;
    ReadBoth(ll, dd, bl, bits, q);
    assert (ll + dd)[..|ll|] == ll && (ll + dd)[|ll|..] == dd;
    var r := q + |LensBits(ll, dd, bl)|;
    Bound(bits, r, body);
    DecodeBodySent(tb, ll, dd, ts, bits, r, out, res);
  }
}
