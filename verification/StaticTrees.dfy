/**
 The static trees set up by ct_init are the fixed codes of section 3.2.6 of RFC 1951.
 */
module StaticTrees {
  import opened Bits
  import opened Canonical
  import opened RunLength
  import opened Inflate
  import opened Tables

  // ----- counting lengths -----

  lemma {:induction false} CountConcat(a: seq<nat>, b: seq<nat>, l: nat)
    ensures Count(a + b, l) == Count(a, l) + Count(b, l)
    decreases |b|
  {
    if b == [] {
      assert a + b == a;
    } else {
      assert (a + b)[..|a + b| - 1] == a + b[..|b| - 1];
      CountConcat(a, b[..|b| - 1], l);
    }
  }

  lemma {:induction false} CountRepeat(x: nat, n: nat, l: nat)
    ensures Count(Repeat(x, n), l) == if l == x then n else 0
  {
    if n > 0 {
      assert Repeat(x, n)[..n - 1] == Repeat(x, n - 1);
      CountRepeat(x, n - 1, l);
    }
  }

  lemma {:induction false} FirstZero(lens: seq<nat>, l: nat)
    requires forall k | 1 <= k < l :: Count(lens, k) == 0
    ensures FirstCode(lens, l) == 0
  {
    hide Count;
    if l > 0 {
      FirstZero(lens, l - 1);
    }
  }

  lemma FixedCounts(l: nat)
    ensures Count(FixedLitLens(), l) == if l == 7 then 24 else if l == 8 then 152 else if l == 9 then 112 else 0
  {
    hide Count, Repeat;
    var a, b, c, d := Repeat(8, 144), Repeat(9, 112), Repeat(7, 24), Repeat(8, 8);
    CountConcat(a + b + c, d, l);
    CountConcat(a + b, c, l);
    CountConcat(a, b, l);
    CountRepeat(8, 144, l);
    CountRepeat(9, 112, l);
    CountRepeat(7, 24, l);
    CountRepeat(8, 8, l);
  }

  lemma FixedLens()
    ensures |FixedLitLens()| == 288
    ensures forall i | 0 <= i < 288 ::
              FixedLitLens()[i] == if i <= 143 then 8 else if i <= 255 then 9 else if i <= 279 then 7 else 8
  {
  }

  lemma KraftStep(lens: seq<nat>, l: nat)
    requires 1 <= l <= MAX_BITS
    ensures KraftTo(lens, l, MAX_BITS) == KraftTo(lens, l - 1, MAX_BITS) + Count(lens, l) * Pow2(MAX_BITS - l)
  {}

  lemma KraftNone(lens: seq<nat>)
    ensures KraftTo(lens, 0, MAX_BITS) == 0
  {}

  /** The fixed literal and length code is complete. */
  lemma FixedLitKraft()
    ensures KraftTo(FixedLitLens(), MAX_BITS, MAX_BITS) == Pow2(MAX_BITS)
  {
    hide Count, FixedLitLens, Pow2, KraftTo;
    var lens := FixedLitLens();
    forall l: nat
      ensures Count(lens, l) == if l == 7 then 24 else if l == 8 then 152 else if l == 9 then 112 else 0
    {
      FixedCounts(l);
    }
    KraftNone(lens);
    KraftFlat(lens, 0, 6, MAX_BITS);
    KraftStep(lens, 7);
    KraftStep(lens, 8);
    KraftStep(lens, 9);
    KraftFlat(lens, 9, MAX_BITS, MAX_BITS);
    Pow2Values();
  }

  lemma FixedDistKraft()
    ensures KraftTo(FixedDistLens(), MAX_BITS, MAX_BITS) == Pow2(MAX_BITS)
  {
    hide Count, Pow2, KraftTo, Repeat;
    var lens := FixedDistLens();
    forall l: nat
      ensures Count(lens, l) == if l == 5 then 32 else 0
    {
      CountRepeat(5, 32, l);
    }
    KraftNone(lens);
    KraftFlat(lens, 0, 4, MAX_BITS);
    KraftStep(lens, 5);
    KraftFlat(lens, 5, MAX_BITS, MAX_BITS);
    Pow2Add(5, 10);
    Pow2Values();
  }

  /** Both fixed codes can be decoded. */
  lemma FixedDecodable()
    ensures Decodable(FixedLitLens()) && Decodable(FixedDistLens())
  {
    hide Pow2, KraftTo;
    FixedLitKraft();
    FixedDistKraft();
    FixedLens();
  }

  /** The fixed distance code of a symbol is the symbol. */
  lemma FixedDistCode(s: nat)
    requires s < 32
    ensures CodeOf(FixedDistLens(), s) == s
  {
    hide Count, Repeat, FirstCode;
    var lens := FixedDistLens();
    forall k | 1 <= k < 5
      ensures Count(lens, k) == 0
    {
      CountRepeat(5, 32, k);
    }
    FirstZero(lens, 5);
    assert lens[..s] == Repeat<nat>(5, s);
    CountRepeat(5, s, 5);
    assert lens[s] == 5;
  }

  // ----- ct_init -----

  /** The static trees: codes and lengths. */
  datatype StaticTrees = StaticTrees(lFc: seq<nat>, lDl: seq<nat>, dFc: seq<nat>, dDl: seq<nat>) {
    ghost predicate Valid()
    {
      && |lFc| == |lDl| == 288 && lDl == FixedLitLens()
      && (forall n | 0 <= n < 288 :: HasCode(FixedLitLens(), n, lFc[n]))
      && |dFc| == |dDl| == D_CODES && dDl == FixedDistLens()[..D_CODES]
      && (forall n | 0 <= n < D_CODES :: HasCode(FixedDistLens(), n, dFc[n]))
    }
  }

  /** One of the loops that set a range of lengths and count them. */
  method SetLens(dl: array<nat>, blCount: array<nat>, from: nat, last: nat, len: nat)
    requires from <= last < dl.Length && len < blCount.Length && dl != blCount
    modifies dl, blCount
    ensures dl[..from] == old(dl[..from]) && dl[from..last + 1] == Repeat(len, last + 1 - from)
    ensures blCount[..] == old(blCount[..])[len := old(blCount[len]) + (last + 1 - from)]
  {
    var n := from;
    while n <= last
      invariant from <= n <= last + 1
      invariant dl[..from] == old(dl[..from]) && forall i | from <= i < n :: dl[i] == len
      invariant blCount[..] == old(blCount[..])[len := old(blCount[len]) + (n - from)]
    {
      dl[n] := len;
      blCount[len] := blCount[len] + 1;
      n := n + 1;
    }
  }

  /** The lengths of the static literal tree, and how many there are of each. */
  method SetLitLens(dl: array<nat>, blCount: array<nat>)
    requires dl.Length == 288 && blCount.Length == MAX_BITS + 1 && dl != blCount
             && blCount[..] == Repeat(0, MAX_BITS + 1)
    modifies dl, blCount
    ensures dl[..] == FixedLitLens()
    ensures blCount[0] == 0 && forall l | 1 <= l <= MAX_BITS :: blCount[l] == Count(FixedLitLens(), l)
  {
    hide Count, FixedLitLens;
    SetLens(dl, blCount, 0, 143, 8);
    SetLens(dl, blCount, 144, 255, 9);
    assert dl[..256] == dl[..144] + dl[144..256];
    SetLens(dl, blCount, 256, 279, 7);
    assert dl[..280] == dl[..256] + dl[256..280];
    SetLens(dl, blCount, 280, 287, 8);
    assert dl[..] == dl[..280] + dl[280..288];
    FourRuns(dl[..]);
    forall l | 1 <= l <= MAX_BITS
      ensures blCount[l] == Count(FixedLitLens(), l)
    {
      FixedCounts(l);
    }
  }

  lemma FourRuns(s: seq<nat>)
    requires s == Repeat(8, 144) + Repeat(9, 112) + Repeat(7, 24) + Repeat(8, 8)
    ensures s == FixedLitLens()
  {}

  method InitLitTree() returns (fc: array<nat>, dl: array<nat>)
    ensures fc.Length == dl.Length == 288 && dl[..] == FixedLitLens()
    ensures forall n | 0 <= n < 288 :: HasCode(FixedLitLens(), n, fc[n])
  {
    hide HasCode, FixedLitLens, Decodable, Count;
    fc := new nat[L_NODES](_ => 0);
    dl := new nat[L_NODES](_ => 0);
    var blCount := new nat[MAX_BITS + 1](_ => 0);
    assert blCount[..] == Repeat(0, MAX_BITS + 1);
    SetLitLens(dl, blCount);
    FixedDecodable();
    assert dl[..287 + 1] == dl[..];
    GenCodes(fc, dl, blCount, 287);
  }

  const L_NODES: nat := 288

  method InitDistTree() returns (fc: array<nat>, dl: array<nat>)
    ensures fc.Length == dl.Length == D_CODES && dl[..] == FixedDistLens()[..D_CODES]
    ensures forall n | 0 <= n < D_CODES :: HasCode(FixedDistLens(), n, fc[n])
  {
    hide HasCode, CodeOf, Pow2, BitsOf, MsbBits;
    fc := new nat[D_CODES](_ => 0);
    dl := new nat[D_CODES](_ => 0);
    var n := 0;
    while n < D_CODES
      invariant 0 <= n <= D_CODES
      invariant forall i | 0 <= i < n :: dl[i] == 5 && HasCode(FixedDistLens(), i, fc[i])
    {
      dl[n] := 5;
      var c := BiReverse(n, 5);
      fc[n] := c;
      FixedDistCode(n);
      CodeStored(FixedDistLens(), n, c);
      n := n + 1;
    }
  }

  /** The static trees are the fixed codes. */
  method InitStatic() returns (t: StaticTrees)
    ensures t.Valid()
  {
    hide HasCode, FixedLitLens, FixedDistLens;
    var lFc, lDl := InitLitTree();
    var dFc, dDl := InitDistTree();
    t := StaticTrees(lFc[..], lDl[..], dFc[..], dDl[..]);
  }
}
