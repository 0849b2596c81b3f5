/**
 Lower bounds for what a block with its own codes needs: for the lengths of the
 codes in its header, and for the symbols in its body.
 */
module SizeBounds {
  import opened Bits
  import opened Canonical
  import opened RunLength
  import opened SendTree

  // ----- the header -----

  function ZerosAtEnd(s: seq<nat>): nat
  {
    if s == [] || s[|s| - 1] != 0 then 0 else ZerosAtEnd(s[..|s| - 1]) + 1
  }

  /** The first four zeros of each run of zeros, and the first of each run of another length. */
  function Parts(s: seq<nat>): nat
  {
    if s == [] then 0
    else
      var front, x := s[..|s| - 1], s[|s| - 1];
      Parts(front) + (if x == 0 then (if ZerosAtEnd(front) < 4 then 1 else 0)
                      else if front == [] || front[|front| - 1] != x then 1 else 0)
  }

  function Min(a: int, b: int): int
  {
    if a < b then a else b
  }

  lemma PartsMore(s: seq<nat>, x: nat)
    ensures Parts(s + [x]) == Parts(s) + (if x == 0 then (if ZerosAtEnd(s) < 4 then 1 else 0)
                                          else if s == [] || s[|s| - 1] != x then 1 else 0)
    ensures ZerosAtEnd(s + [x]) == if x == 0 then ZerosAtEnd(s) + 1 else 0
  {
    assert (s + [x])[..|s|] == s;
  }

  lemma {:induction false} PartsZeros(s: seq<nat>, k: nat)
    ensures ZerosAtEnd(s + Repeat(0, k)) == ZerosAtEnd(s) + k
    ensures Parts(s + Repeat(0, k)) == Parts(s) + (if ZerosAtEnd(s) >= 4 then 0 else Min(k, 4 - ZerosAtEnd(s)))
  {
    hide Parts, ZerosAtEnd;
    if k == 0 {
      assert s + Repeat(0, 0) == s;
    } else {
      PartsZeros(s, k - 1);
      PartsMore(s + Repeat(0, k - 1), 0);
      assert s + Repeat(0, k - 1) + [0] == s + Repeat(0, k);
    }
  }

  lemma {:induction false} PartsRepeated(s: seq<nat>, k: nat)
    requires s != [] && s[|s| - 1] != 0
    ensures Parts(s + Repeat(s[|s| - 1], k)) == Parts(s)
  {
    hide Parts;
    var x := s[|s| - 1];
    if k == 0 {
      assert s + Repeat(x, 0) == s;
    } else {
      PartsRepeated(s, k - 1);
      PartsMore(s + Repeat(x, k - 1), x);
      assert s + Repeat(x, k - 1) + [x] == s + Repeat(x, k);
    }
  }

  lemma SomeZeros(s: seq<nat>, k: nat)
    ensures Parts(s + Repeat(0, k)) <= Parts(s) + 4
    ensures s != [] && s[|s| - 1] == 0 ==> Parts(s + Repeat(s[|s| - 1], k)) <= Parts(s) + 3
  {
    hide Parts;
    PartsZeros(s, k);
  }

  /** An operation adds no more than the bits it needs, if its code has one bit at least. */
  lemma PartsOne(out: seq<nat>, op: LenOp, res: seq<nat>)
    requires ExpandOne(out, op) == Some(res)
    ensures Parts(res) <= Parts(out) + 1 + ExtraBlBits(op.sym)
  {
    hide Parts, Repeat;
    if op.sym < REP_3_6 {
      PartsMore(out, op.sym);
    } else if op.sym == REP_3_6 {
      SomeZeros(out, 3 + op.extra);
      if out[|out| - 1] != 0 {
        PartsRepeated(out, 3 + op.extra);
      }
    } else {
      SomeZeros(out, (if op.sym == REPZ_3_10 then 3 else 11) + op.extra);
    }
  }

  lemma {:induction false} OpsParts(bl: seq<nat>, ops: seq<LenOp>, out: seq<nat>, res: seq<nat>)
    requires Sendable(bl, ops) && Expand(out, ops) == Some(res)
    ensures forall i | 0 <= i < |ops| :: ops[i].sym < |bl|
    ensures Parts(res) <= Parts(out) + |EncodeOps(bl, ops)|
    decreases |ops|
  {
    hide Parts, ExpandOne;
    if ops != [] {
      var mid := ExpandOne(out, ops[0]).value;
      PartsOne(out, ops[0], mid);
      OpsParts(bl, ops[1..], mid, res);
    }
  }

  /** The lengths of a code need at least this many bits, in whatever bit length code. */
  lemma LensCost(bl: seq<nat>, lens: seq<nat>)
    requires Sendable(bl, AllOps(lens)) && forall i | 0 <= i < |lens| :: lens[i] <= MAX_BITS
    ensures forall i | 0 <= i < |AllOps(lens)| :: AllOps(lens)[i].sym < |bl|
    ensures Parts(lens) <= |EncodeOps(bl, AllOps(lens))|
  {
    hide Parts, AllOps, Sendable;
    ExpandAll(lens, []);
    assert [] + lens == lens;
    OpsParts(bl, AllOps(lens), [], lens);
    assert Parts([]) == 0 by { NoParts(); }
  }

  lemma NoParts()
    ensures Parts([]) == 0
  {}

  lemma {:induction false} PartsPrefix(s: seq<nat>, k: nat)
    requires k <= |s|
    ensures Parts(s[..k]) <= Parts(s)
    decreases |s|
  {
    if k == |s| {
      assert s[..k] == s;
    } else {
      var front := s[..|s| - 1];
      PartsPrefix(front, k);
      assert front[..k] == s[..k];
    }
  }

  /** A length, four zeros or more, and another length: four parts and one. */
  lemma PartsGap(s: seq<nat>, i: nat, j: nat)
    requires i + 5 <= j < |s| && s[i] != 0 && s[j] != 0 && forall k | i < k < j :: s[k] == 0
    ensures Parts(s[..j + 1]) == Parts(s[..i + 1]) + 5
  {
    hide Parts;
    assert s[..j] == s[..i + 1] + Repeat(0, j - i - 1);
    PartsZeros(s[..i + 1], j - i - 1);
    PartsMore(s[..j], s[j]);
    assert s[..j + 1] == s[..j] + [s[j]];
  }

  /** The same at the start. */
  lemma PartsStart(s: seq<nat>, j: nat)
    requires 4 <= j < |s| && s[j] != 0 && forall k | 0 <= k < j :: s[k] == 0
    ensures Parts(s[..j + 1]) == 5
  {
    hide Parts;
    var none: seq<nat> := [];
    assert s[..j] == none + Repeat(0, j);
    PartsZeros(none, j);
    assert ZerosAtEnd(none) == 0;
    NoParts();
    PartsMore(s[..j], s[j]);
    assert s[..j + 1] == s[..j] + [s[j]];
  }

  // ----- the body -----

  /** The share of the code space that a length takes. */
  function Share(l: nat): nat
  {
    if l == 0 || l > MAX_BITS then 0 else Pow2(MAX_BITS - l)
  }

  function Shares(lens: seq<nat>): nat
  {
    if lens == [] then 0 else Shares(lens[..|lens| - 1]) + Share(lens[|lens| - 1])
  }

  lemma {:induction false} KraftStep(lens: seq<nat>, x: nat, l: nat)
    requires l <= MAX_BITS
    ensures KraftTo(lens + [x], l, MAX_BITS) == KraftTo(lens, l, MAX_BITS) + (if x <= l then Share(x) else 0)
  {
    hide Pow2, Count;
    if l > 0 {
      KraftStep(lens, x, l - 1);
      CountMore(lens, x, l);
      var c, p := Count(lens, l), Pow2(MAX_BITS - l);
      assert (c + 1) * p == c * p + p;
    }
  }

  lemma CountMore(lens: seq<nat>, x: nat, l: nat)
    ensures Count(lens + [x], l) == Count(lens, l) + (if x == l then 1 else 0)
  {
    assert (lens + [x])[..|lens|] == lens;
  }

  lemma {:induction false} KraftNone(l: nat)
    requires l <= MAX_BITS
    ensures KraftTo([], l, MAX_BITS) == 0
  {
    if l > 0 {
      KraftNone(l - 1);
    }
  }

  lemma {:induction false} KraftIsShares(lens: seq<nat>)
    requires forall i | 0 <= i < |lens| :: lens[i] <= MAX_BITS
    ensures KraftTo(lens, MAX_BITS, MAX_BITS) == Shares(lens)
    decreases |lens|
  {
    hide KraftTo, Share;
    if lens == [] {
      KraftNone(MAX_BITS);
    } else {
      var front, x := lens[..|lens| - 1], lens[|lens| - 1];
      KraftIsShares(front);
      KraftStep(front, x, MAX_BITS);
      assert front + [x] == lens;
    }
  }

  lemma {:induction false} SharesPrefix(lens: seq<nat>, k: nat)
    requires k <= |lens|
    ensures Shares(lens[..k]) <= Shares(lens)
    decreases |lens|
  {
    if k == |lens| {
      assert lens[..k] == lens;
    } else {
      var front := lens[..|lens| - 1];
      SharesPrefix(front, k);
      assert front[..k] == lens[..k];
    }
  }

  /** A code shorter than four bits takes so much of the code space that others must be longer. */
  lemma ShareOrLength(l: nat)
    requires 1 <= l <= MAX_BITS
    ensures Share(l) + 2048 * l >= 5 * 2048
  {
    hide Pow2;
    if l <= 4 {
      Pow2Add(11, 4 - l);
      Pow2Add(8, 3);
      Pow2Values();
    }
  }

  /** One more symbol behind the ones that were counted. */
  lemma SharesNext(lens: seq<nat>, i: nat, j: nat)
    requires i <= j < |lens|
    ensures Shares(lens[..i]) + Share(lens[j]) <= Shares(lens[..j + 1])
  {
    SharesPrefix(lens[..j], i);
    assert lens[..j][..i] == lens[..i];
    assert lens[..j + 1][..j] == lens[..j];
  }
}
