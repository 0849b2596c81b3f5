/**
 Canonical prefix codes, section 3.2.2 of RFC 1951: the code of every symbol
 follows from the code lengths alone.
 */
module Canonical {
  import opened Bits

  const MAX_BITS: nat := 15

  /** How many of the lengths equal l. */
  function Count(lens: seq<nat>, l: nat): (c: nat)
    ensures c <= |lens|
  {
    if lens == [] then 0
    else Count(lens[..|lens| - 1], l) + (if lens[|lens| - 1] == l then 1 else 0)
  }

  /** The smallest code of length l: step 2 of the algorithm in the RFC. */
  function FirstCode(lens: seq<nat>, l: nat): nat
  {
    if l == 0 then 0
    else 2 * (FirstCode(lens, l - 1) + (if l == 1 then 0 else Count(lens, l - 1)))
  }

  /** Consecutive values, in symbol order, for the codes of one length: step 3. */
  function CodeOf(lens: seq<nat>, s: nat): nat
    requires s < |lens|
  {
    FirstCode(lens, lens[s]) + Count(lens[..s], lens[s])
  }

  /** The share of the code space 2^top taken by codes of length 1 to l. */
  function KraftTo(lens: seq<nat>, l: nat, top: nat): nat
    requires l <= top
  {
    if l == 0 then 0 else KraftTo(lens, l - 1, top) + Count(lens, l) * Pow2(top - l)
  }

  /** The lengths leave no code space over-subscribed. */
  ghost predicate Decodable(lens: seq<nat>)
  {
    && (forall i | 0 <= i < |lens| :: lens[i] <= MAX_BITS)
    && KraftTo(lens, MAX_BITS, MAX_BITS) <= Pow2(MAX_BITS)
  }

  /** The low n bits of c, most significant first. */
  function MsbBits(c: nat, n: nat): (s: seq<bool>)
    ensures |s| == n
  {
    if n == 0 then [] else MsbBits(c / 2, n - 1) + [c % 2 == 1]
  }

  /** The bits sent for symbol s: its code, most significant bit first. */
  function CodeBits(lens: seq<nat>, s: nat): (b: seq<bool>)
    requires s < |lens|
    ensures |b| == lens[s]
  {
    MsbBits(CodeOf(lens, s), lens[s])
  }

  // ----- arithmetic of the code space -----

  lemma KraftMono(lens: seq<nat>, l: nat, m: nat, top: nat)
    requires l <= m <= top
    ensures KraftTo(lens, l, top) <= KraftTo(lens, m, top)
  {
    hide Pow2, Count;
    if l < m {
      KraftMono(lens, l, m - 1, top);
    }
  }

  /** Lengths that do not occur take no share of the code space. */
  lemma {:induction false} KraftFlat(lens: seq<nat>, l: nat, m: nat, top: nat)
    requires l <= m <= top && forall k | l < k <= m :: Count(lens, k) == 0
    ensures KraftTo(lens, m, top) == KraftTo(lens, l, top)
    decreases m
  {
    hide Count, Pow2;
    if l < m {
      KraftFlat(lens, l, m - 1, top);
    }
  }

  lemma {:induction false} FirstCodeKraft(lens: seq<nat>, l: nat, top: nat)
    requires 1 <= l <= top
    ensures FirstCode(lens, l) * Pow2(top - l) == KraftTo(lens, l - 1, top)
  {
    if l > 1 {
      FirstCodeKraft(lens, l - 1, top);
      assert Pow2(top - (l - 1)) == 2 * Pow2(top - l);
      DoubleShare(FirstCode(lens, l - 1), Count(lens, l - 1), Pow2(top - l));
    }
  }

  lemma DoubleShare(f: nat, c: nat, p: nat)
    ensures 2 * (f + c) * p == f * (2 * p) + c * (2 * p)
  {}

  lemma {:induction false} CountSplit(lens: seq<nat>, l: nat, k: nat)
    requires k <= |lens|
    ensures Count(lens[..k], l) <= Count(lens, l)
    ensures k < |lens| && lens[k] == l ==> Count(lens[..k], l) + 1 <= Count(lens, l)
    decreases |lens| - k
  {
    if k < |lens| {
      CountSplit(lens, l, k + 1);
      assert lens[..k + 1][..k] == lens[..k];
    } else {
      assert lens[..k] == lens;
    }
  }

  lemma CountOrder(lens: seq<nat>, l: nat, j: nat, k: nat)
    requires j < k < |lens| && lens[j] == l
    ensures Count(lens[..j], l) < Count(lens[..k], l)
  {
    CountSplit(lens[..k], l, j);
    assert lens[..k][..j] == lens[..j];
  }

  /** The codes of length l fill exactly their share of the code space. */
  lemma CodeInterval(lens: seq<nat>, s: nat, top: nat)
    requires s < |lens| && 1 <= lens[s] <= top
    ensures CodeOf(lens, s) * Pow2(top - lens[s]) >= KraftTo(lens, lens[s] - 1, top)
    ensures (CodeOf(lens, s) + 1) * Pow2(top - lens[s]) <= KraftTo(lens, lens[s], top)
  {
    var l := lens[s];
    FirstCodeKraft(lens, l, top);
    CountSplit(lens, l, s);
    Slots(FirstCode(lens, l), Count(lens[..s], l), Count(lens, l), Pow2(top - l));
  }

  lemma Slots(f: nat, r: nat, c: nat, p: nat)
    requires r + 1 <= c
    ensures (f + r) * p >= f * p
    ensures (f + r + 1) * p <= f * p + c * p
  {
    MulMono(f, f + r, p);
    MulMono(f + r + 1, f + c, p);
  }

  lemma MulMono(a: nat, b: nat, p: nat)
    requires a <= b
    ensures a * p <= b * p
  {}

  lemma MulCancel(a: nat, b: nat, p: nat)
    requires p > 0 && a * p <= b * p
    ensures a <= b
  {
    assert (b + 1) * p == b * p + p;
    if b < a {
      MulMono(b + 1, a, p);
    }
  }

  /** Every code fits its length. */
  lemma CodeFits(lens: seq<nat>, s: nat)
    requires Decodable(lens) && s < |lens| && lens[s] > 0
    ensures CodeOf(lens, s) + 1 <= Pow2(lens[s])
  {
    var l := lens[s];
    CodeInterval(lens, s, MAX_BITS);
    KraftMono(lens, l, MAX_BITS, MAX_BITS);
    Pow2Add(l, MAX_BITS - l);
    MulCancel(CodeOf(lens, s) + 1, Pow2(l), Pow2(MAX_BITS - l));
  }

  /** Shorter codes come before longer ones, and never as a prefix of them. */
  lemma CodesDisjoint(lens: seq<nat>, s: nat, t: nat)
    requires Decodable(lens) && s < |lens| && t < |lens| && s != t
    requires 0 < lens[s] <= lens[t]
    ensures Shr(CodeOf(lens, t), lens[t] - lens[s]) != CodeOf(lens, s)
  {
    hide Pow2, Count, KraftTo, FirstCode, Shr, Quotient;
    var n, m := lens[s], lens[t];
    if n == m {
      ShrNone(CodeOf(lens, t));
      if s < t {
        CountOrder(lens, n, s, t);
      } else {
        CountOrder(lens, n, t, s);
      }
    } else {
      CodeInterval(lens, s, MAX_BITS);
      CodeInterval(lens, t, MAX_BITS);
      KraftMono(lens, n, m - 1, MAX_BITS);
      Pow2Add(m - n, MAX_BITS - m);
      Scale(CodeOf(lens, s), CodeOf(lens, t), m - n, Pow2(MAX_BITS - m));
    }
  }

  lemma Scale(c: nat, v: nat, k: nat, q: nat)
    requires q > 0 && (c + 1) * (Pow2(k) * q) <= v * q
    ensures Shr(v, k) != c
  {
    hide Pow2;
    var p := Pow2(k);
    assert (c + 1) * (p * q) == (c + 1) * p * q;
    MulCancel((c + 1) * p, v, q);
    QuotientAbove(v, c, p);
  }

  lemma ShrNone(v: nat)
    ensures Shr(v, 0) == v
  {}

  lemma QuotientAbove(v: nat, c: nat, p: nat)
    requires p > 0 && (c + 1) * p <= v
    ensures v / p != c
  {
    ModLess(v, p);
    assert (c + 1) * p == c * p + p;
  }

  // ----- bit strings of codes -----

  lemma {:induction false} MsbPrefix(c: nat, m: nat, n: nat)
    requires n <= m
    ensures MsbBits(c, m)[..n] == MsbBits(Shr(c, m - n), n)
  {
    if n < m {
      MsbPrefix(c / 2, m - 1, n);
      DivDiv(c, m - n);
      assert MsbBits(c, m)[..n] == MsbBits(c / 2, m - 1)[..n];
    } else {
      assert Pow2(m - n) == 1 && c / 1 == c;
    }
  }

  lemma {:induction false} MsbInjective(c: nat, d: nat, n: nat)
    requires c < Pow2(n) && d < Pow2(n) && MsbBits(c, n) == MsbBits(d, n)
    ensures c == d
  {
    if n > 0 {
      assert MsbBits(c, n)[..n - 1] == MsbBits(c / 2, n - 1);
      assert MsbBits(d, n)[..n - 1] == MsbBits(d / 2, n - 1);
      assert MsbBits(c, n)[n - 1] == (c % 2 == 1);
      assert MsbBits(d, n)[n - 1] == (d % 2 == 1);
      MsbInjective(c / 2, d / 2, n - 1);
    }
  }

  lemma {:induction false} MsbTop(c: nat, n: nat)
    ensures MsbBits(c, n + 1) == [Shr(c, n) % 2 == 1] + MsbBits(c, n)
  {
    if n > 0 {
      MsbTop(c / 2, n - 1);
      DivDiv(c, n);
    }
  }

  /** No code is a prefix of another symbol's code. */
  lemma PrefixFree(lens: seq<nat>, s: nat, t: nat)
    requires Decodable(lens) && s < |lens| && t < |lens| && 0 < lens[s] <= lens[t]
    ensures CodeBits(lens, t)[..lens[s]] == CodeBits(lens, s) ==> s == t
  {
    if CodeBits(lens, t)[..lens[s]] == CodeBits(lens, s) {
      CodeFits(lens, s);
      CodeFits(lens, t);
      SamePrefix(CodeOf(lens, s), lens[s], CodeOf(lens, t), lens[t]);
      if s != t {
        CodesDisjoint(lens, s, t);
      }
    }
  }

  lemma SamePrefix(c: nat, n: nat, d: nat, m: nat)
    requires n <= m && c < Pow2(n) && d < Pow2(m) && MsbBits(d, m)[..n] == MsbBits(c, n)
    ensures Shr(d, m - n) == c
  {
    MsbPrefix(d, m, n);
    TopBits(d, m, n);
    MsbInjective(Shr(d, m - n), c, n);
  }

  lemma TopBits(d: nat, m: nat, n: nat)
    requires n <= m && d < Pow2(m)
    ensures Shr(d, m - n) < Pow2(n)
  {
    Pow2Add(n, m - n);
    QuotientBelow(d, Pow2(n), Pow2(m - n));
  }

  lemma QuotientBelow(v: nat, a: nat, p: nat)
    requires p > 0 && v < a * p
    ensures v / p < a
  {
    ModLess(v, p);
    if v / p >= a {
      MulMono(a, v / p, p);
    }
  }

  // ----- decoding -----

  /** The field f stands at position pos of the bit string. */
  ghost predicate FieldAt(bits: seq<bool>, pos: nat, f: seq<bool>)
  {
    pos + |f| <= |bits| && bits[pos..pos + |f|] == f
  }

  lemma FieldSplit(bits: seq<bool>, pos: nat, a: seq<bool>, b: seq<bool>)
    requires FieldAt(bits, pos, a + b)
    ensures FieldAt(bits, pos, a) && FieldAt(bits, pos + |a|, b)
  {
    var both := bits[pos..pos + |a + b|];
    assert bits[pos..pos + |a|] == both[..|a|];
    assert bits[pos + |a|..pos + |a| + |b|] == both[|a|..];
  }

  datatype Option<+T> = None | Some(value: T)

  /** The code of symbol s is what stands at position pos of the bit string. */
  ghost predicate StandsAt(lens: seq<nat>, s: nat, bits: seq<bool>, pos: nat)
  {
    && s < |lens| && lens[s] > 0
    && FieldAt(bits, pos, CodeBits(lens, s))
  }

  /** The symbol whose code stands at position pos, and the position after it. */
  ghost function DecodeSymbol(lens: seq<nat>, bits: seq<bool>, pos: nat): (r: Option<(nat, nat)>)
    ensures r.Some? ==> pos < r.value.1 <= |bits| && r.value.0 < |lens|
  {
    if exists s: nat :: StandsAt(lens, s, bits, pos) then
      var s: nat :| StandsAt(lens, s, bits, pos);
      Some((s, pos + lens[s]))
    else None
  }

  /** Decoding is unambiguous: the symbol that was sent is the one that is read. */
  lemma DecodeSent(lens: seq<nat>, s: nat, bits: seq<bool>, pos: nat)
    requires Decodable(lens) && StandsAt(lens, s, bits, pos)
    ensures DecodeSymbol(lens, bits, pos) == Some((s, pos + lens[s]))
  {
    hide Decodable, CodeBits;
    forall t: nat | StandsAt(lens, t, bits, pos)
      ensures t == s
    {
      if lens[s] <= lens[t] {
        assert bits[pos..pos + lens[t]][..lens[s]] == bits[pos..pos + lens[s]];
        PrefixFree(lens, s, t);
      } else {
        assert bits[pos..pos + lens[s]][..lens[t]] == bits[pos..pos + lens[t]];
        PrefixFree(lens, t, s);
      }
    }
  }

  /** The bits of a sequence of symbols. */
  function EncodeAll(lens: seq<nat>, syms: seq<nat>): seq<bool>
    requires forall i | 0 <= i < |syms| :: syms[i] < |lens|
  {
    if syms == [] then [] else CodeBits(lens, syms[0]) + EncodeAll(lens, syms[1..])
  }

  ghost function DecodeAll(lens: seq<nat>, bits: seq<bool>, pos: nat, n: nat): Option<(seq<nat>, nat)>
    decreases n
  {
    if n == 0 then Some(([], pos))
    else
      match DecodeSymbol(lens, bits, pos)
      case None => None
      case Some((s, p)) =>
        match DecodeAll(lens, bits, p, n - 1)
        case None => None
        case Some((rest, q)) => Some(([s] + rest, q))
  }

  /** Any sequence of used symbols is recovered, wherever its bits stand. */
  lemma {:induction false} RoundTrip(lens: seq<nat>, syms: seq<nat>, bits: seq<bool>, pos: nat)
    requires Decodable(lens)
    requires forall i | 0 <= i < |syms| :: syms[i] < |lens| && lens[syms[i]] > 0
    requires FieldAt(bits, pos, EncodeAll(lens, syms))
    ensures DecodeAll(lens, bits, pos, |syms|) == Some((syms, pos + |EncodeAll(lens, syms)|))
  {
    hide Decodable, CodeBits, DecodeSymbol, FieldAt;
    if syms != [] {
      var tail := EncodeAll(lens, syms[1..]);
      var next := pos + lens[syms[0]];
      FieldSplit(bits, pos, CodeBits(lens, syms[0]), tail);
      DecodeSent(lens, syms[0], bits, pos);
      RoundTrip(lens, syms[1..], bits, next);
      assert DecodeAll(lens, bits, next, |syms| - 1) == Some((syms[1..], next + |tail|));
      assert [syms[0]] + syms[1..] == syms;
    }
  }

  // ----- generating the codes -----

  /** The low bits of the code, most significant first when read from bit 0 up. */
  method BiReverse(code0: nat, len0: nat) returns (res: nat)
    requires 1 <= len0
    ensures BitsOf(res, len0) == MsbBits(code0, len0) && res < Pow2(len0)
  {
    hide Or, BitsOf, MsbBits, Pow2, Shr, Quotient;
    var code, len := code0, len0;
    res := 0;
    ghost var done := 0;
    ghost var half := 0;
    NoBits(code0);
    while true
      invariant len == len0 - done && 1 <= len
      invariant res == 2 * half && half < Pow2(done)
      invariant BitsOf(half, done) == MsbBits(code0, done)
      invariant code == Shr(code0, done)
      decreases len
    {
      OrLowBit(half, code % 2, done);
      res := Or(res, code % 2);
      MsbTop(code0, done);
      half, done := res, done + 1;
      len := len - 1;
      if len <= 0 {
        return;
      }
      NextBit(code0, done);
      code := code / 2;
      res := 2 * res;
    }
  }

  lemma NoBits(c: nat)
    ensures BitsOf(0, 0) == MsbBits(c, 0) && Shr(c, 0) == c && Pow2(0) == 1
  {}

  lemma OrLowBit(h: nat, b: nat, n: nat)
    requires b < 2 && h < Pow2(n)
    ensures Or(2 * h, b) == 2 * h + b < Pow2(n + 1)
    ensures BitsOf(2 * h + b, n + 1) == [b == 1] + BitsOf(h, n)
  {
    assert 2 * h / 2 == h && 2 * h % 2 == 0 && (2 * h + b) / 2 == h && (2 * h + b) % 2 == b;
    OrComm(h, 0);
    OrZero(h);
  }

  lemma {:induction false} OrComm(a: nat, b: nat)
    ensures Or(a, b) == Or(b, a)
    decreases a + b
  {
    if a + b > 0 {
      OrComm(a / 2, b / 2);
    }
  }

  lemma NextBit(c: nat, n: nat)
    requires n > 0
    ensures Shr(c, n - 1) / 2 == Shr(c, n)
  {
    HalveQuotient(c, Pow2(n - 1));
  }

  lemma HalveQuotient(c: nat, p: nat)
    requires p > 0
    ensures c / p / 2 == c / (2 * p)
  {
    var q, r := c / p, c % p;
    ModLess(c, p);
    var h, b := q / 2, q % 2;
    assert q == 2 * h + b;
    EvenOdd(q, h, b, p);
    DivUnique(c, 2 * p, h, b * p + r);
  }

  lemma EvenOdd(q: nat, h: nat, b: nat, p: nat)
    requires q == 2 * h + b && b < 2
    ensures q * p == h * (2 * p) + b * p && b * p <= p
  {
    assert q * p == (2 * h + b) * p;
  }


  lemma FirstCodeBound(lens: seq<nat>, l: nat)
    requires Decodable(lens) && 1 <= l <= MAX_BITS
    ensures FirstCode(lens, l) + Count(lens, l) <= Pow2(l) <= 0x8000
  {
    hide Pow2, Count, FirstCode;
    FirstCodeKraft(lens, l, MAX_BITS);
    KraftMono(lens, l, MAX_BITS, MAX_BITS);
    Pow2Add(l, MAX_BITS - l);
    Fit(FirstCode(lens, l), Count(lens, l), Pow2(l), Pow2(MAX_BITS - l));
    Pow2Mono(l, MAX_BITS);
    Pow2Values();
  }

  lemma Fit(f: nat, c: nat, q: nat, p: nat)
    requires p > 0 && f * p + c * p <= q * p
    ensures f + c <= q
  {
    MulCancel(f + c, q, p);
  }

  /** What gen_codes leaves in the code field of symbol n. */
  ghost predicate HasCode(lens: seq<nat>, n: nat, code: nat)
    requires n < |lens|
  {
    lens[n] != 0 ==> code < Pow2(lens[n]) && BitsOf(code, lens[n]) == CodeBits(lens, n)
  }

  /** The values of next_code after the first n symbols have their codes. */
  ghost predicate NextCodes(lens: seq<nat>, n: nat, next: seq<nat>)
    requires n <= |lens|
  {
    |next| == MAX_BITS + 1
    && forall l | 1 <= l <= MAX_BITS :: next[l] == FirstCode(lens, l) + Count(lens[..n], l)
  }

  /**
   Every symbol with a length in dl gets its canonical code, in fc, where its
   frequency was.
   */
  method GenCodes(fc: array<nat>, dl: array<nat>, blCount: array<nat>, maxCode: nat)
    requires fc != dl && fc != blCount && maxCode < fc.Length && maxCode < dl.Length
    requires blCount.Length == MAX_BITS + 1 && blCount[0] == 0
    requires Decodable(dl[..maxCode + 1])
    requires forall l | 1 <= l <= MAX_BITS :: blCount[l] == Count(dl[..maxCode + 1], l)
    modifies fc
    ensures forall n | 0 <= n <= maxCode :: HasCode(dl[..maxCode + 1], n, fc[n])
    ensures forall n | 0 <= n < fc.Length && (n > maxCode || dl[n] == 0) :: fc[n] == old(fc[n])
  {
    hide NextCodes, HasCode, Decodable, Count, CodeBits, CodeOf, Pow2, BitsOf, MsbBits, FirstCode;
    ghost var lens := dl[..maxCode + 1];
    var nextCode := FirstCodes(blCount, lens);
    var n := 0;
    while n <= maxCode
      invariant 0 <= n <= maxCode + 1
      invariant dl[..maxCode + 1] == lens
      invariant NextCodes(lens, n, nextCode[..])
      invariant forall m | 0 <= m < n :: HasCode(lens, m, fc[m])
      invariant forall m | 0 <= m < fc.Length && (m >= n || dl[m] == 0) :: fc[m] == old(fc[m])
    {
      var len := dl[n];
      assert lens[n] == len;
      NextCodesStep(lens, n, nextCode[..]);
      assert nextCode[..][len] == nextCode[len];
      NoCode(lens, n, fc[n]);
      if len != 0 {
        var c := BiReverse(nextCode[len], len);
        fc[n] := c;
        CodeStored(lens, n, c);
        nextCode[len] := U16(nextCode[len] + 1);
      }
      n := n + 1;
    }
  }

  lemma CodeStored(lens: seq<nat>, n: nat, c: nat)
    requires n < |lens| && c < Pow2(lens[n]) && BitsOf(c, lens[n]) == MsbBits(CodeOf(lens, n), lens[n])
    ensures HasCode(lens, n, c)
  {}

  lemma NoCode(lens: seq<nat>, n: nat, c: nat)
    requires n < |lens|
    ensures lens[n] == 0 ==> HasCode(lens, n, c)
  {}

  /** The distribution counts give the first code of each length. */
  method FirstCodes(blCount: array<nat>, ghost lens: seq<nat>) returns (nextCode: array<nat>)
    requires blCount.Length == MAX_BITS + 1 && blCount[0] == 0
    requires Decodable(lens)
    requires forall l | 1 <= l <= MAX_BITS :: blCount[l] == Count(lens, l)
    ensures fresh(nextCode) && nextCode.Length == MAX_BITS + 1
    ensures NextCodes(lens, 0, nextCode[..])
  {
    hide Decodable, Count, Pow2;
    nextCode := new nat[MAX_BITS + 1](_ => 0);
    var code := 0;
    var bits := 1;
    while bits <= MAX_BITS
      invariant 1 <= bits <= MAX_BITS + 1
      invariant code == FirstCode(lens, bits - 1)
      invariant forall l | 1 <= l < bits :: nextCode[l] == FirstCode(lens, l)
    {
      FirstCodeBound(lens, bits);
      FirstCodeNext(lens, bits);
      code := U16(2 * (code + blCount[bits - 1]));
      nextCode[bits] := code;
      bits := bits + 1;
    }
  }

  lemma FirstCodeNext(lens: seq<nat>, l: nat)
    requires l >= 1
    ensures FirstCode(lens, l) == 2 * (FirstCode(lens, l - 1) + (if l == 1 then 0 else Count(lens, l - 1)))
  {}

  lemma NextCodesStep(lens: seq<nat>, n: nat, next: seq<nat>)
    requires Decodable(lens) && n < |lens| && NextCodes(lens, n, next)
    ensures |next| == MAX_BITS + 1 && lens[n] <= MAX_BITS
    ensures lens[n] == 0 ==> NextCodes(lens, n + 1, next)
    ensures lens[n] != 0 ==>
              && lens[n] <= MAX_BITS && next[lens[n]] == CodeOf(lens, n) && next[lens[n]] + 1 < 0x10000
              && CodeOf(lens, n) < Pow2(lens[n])
              && NextCodes(lens, n + 1, next[lens[n] := next[lens[n]] + 1])
  {
    CountStep(lens, n);
    if lens[n] != 0 {
      CodeFits(lens, n);
      FirstCodeBound(lens, lens[n]);
    }
  }

  lemma CountStep(lens: seq<nat>, n: nat)
    requires n < |lens|
    ensures forall l: nat :: Count(lens[..n + 1], l) == Count(lens[..n], l) + (if lens[n] == l then 1 else 0)
  {
    assert lens[..n + 1][..n] == lens[..n];
  }
}
