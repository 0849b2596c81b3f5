/**
 Code lengths from the tree: the first pass of gen_bitlen, which clamps the
 lengths at a maximum, counts them and adds up the size of the block.
 */
module BitLengths {
  import opened Bits
  import opened Sums
  import opened TreeShape
  import opened Canonical

  /** Extra bits of each symbol: symbols from base on have bits[n - base] of them. */
  datatype Extra = Extra(bits: seq<nat>, base: nat) {
    function At(n: nat): nat
    {
      if base <= n < base + |bits| then bits[n - base] else 0
    }
  }

  ghost predicate Within(s: seq<nat>, bound: nat)
  {
    forall i | 0 <= i < |s| :: s[i] < bound
  }

  /** How many leaves in the list have length b. */
  ghost function LeafCount(s: seq<nat>, len: seq<nat>, elems: nat, b: nat): (c: nat)
    requires Within(s, |len|)
    ensures c <= |s|
  {
    if s == [] then 0
    else
      var x := s[|s| - 1];
      LeafCount(s[..|s| - 1], len, elems, b) + (if x < elems && len[x] == b then 1 else 0)
  }

  /** The bits needed for the leaves in the list, each freq times. */
  ghost function LeafCost(s: seq<nat>, freq: seq<nat>, len: seq<nat>, extra: Extra, elems: nat): nat
    requires Within(s, |freq|) && elems <= |len|
  {
    if s == [] then 0
    else
      var x := s[|s| - 1];
      LeafCost(s[..|s| - 1], freq, len, extra, elems) + (if x < elems then freq[x] * (len[x] + extra.At(x)) else 0)
  }

  lemma {:induction false} LeafCountSame(s: seq<nat>, len: seq<nat>, len': seq<nat>, elems: nat, b: nat)
    requires Within(s, |len|) && |len| == |len'| && forall i | 0 <= i < |s| :: len[s[i]] == len'[s[i]]
    ensures LeafCount(s, len, elems, b) == LeafCount(s, len', elems, b)
  {
    if s != [] {
      LeafCountSame(s[..|s| - 1], len, len', elems, b);
    }
  }

  lemma {:induction false} LeafCostSame(s: seq<nat>, freq: seq<nat>, len: seq<nat>, len': seq<nat>, extra: Extra,
                                        elems: nat)
    requires Within(s, |freq|) && elems <= |len| == |len'|
    requires forall i | 0 <= i < |s| && s[i] < elems :: len[s[i]] == len'[s[i]]
    ensures LeafCost(s, freq, len, extra, elems) == LeafCost(s, freq, len', extra, elems)
  {
    if s != [] {
      LeafCostSame(s[..|s| - 1], freq, len, len', extra, elems);
    }
  }

  lemma {:induction false} FatherSumSame(g: seq<int>, g': seq<int>, elems: nat, k: nat, i: nat)
    requires k >= 1 && i <= 2 * k - 1 && elems + k - 1 <= |g| == |g'|
    requires forall t | 1 <= t < i :: g[Father(elems, k, t)] == g'[Father(elems, k, t)]
    ensures FatherSum(g, elems, k, i) == FatherSum(g', elems, k, i)
  {
    if i > 1 {
      FatherSumSame(g, g', elems, k, i - 1);
    }
  }

  // ----- the first pass -----

  /** What the passes over the list need of its shape: nodes once each, fathers first. */
  ghost predicate TopDown(order: seq<nat>, elems: nat, k: nat, bound: nat)
  {
    && k >= 2 && |order| == 2 * k - 1 && elems + k - 1 <= bound
    && Within(order, bound) && Distinct(order)
    && forall t, i | 1 <= t <= i < |order| :: order[i] != Father(elems, k, t)
  }

  lemma ShapeTopDown(order: seq<nat>, elems: nat, leaves: set<nat>, bound: nat)
    requires Shape(order, elems, leaves) && elems + |leaves| - 1 <= bound
    ensures TopDown(order, elems, |leaves|, bound)
  {
    ShapeFacts(order, elems, leaves);
    forall t, i | 1 <= t <= i < |order|
      ensures order[i] != Father(elems, |leaves|, t)
    {
      var p := FatherBefore(order, elems, leaves, t);
    }
  }

  function Clamp(bits: nat, top: nat): nat
  {
    if bits > top then top else bits
  }

  /** The lengths of the nodes at positions below i. */
  ghost predicate LevelsTo(order: seq<nat>, elems: nat, k: nat, len: seq<nat>, top: nat, i: nat)
    requires TopDown(order, elems, k, |len|) && i <= |order|
  {
    && (i >= 1 ==> len[order[0]] == 0)
    && forall t | 1 <= t < i :: len[order[t]] == Clamp(len[Father(elems, k, t)] + 1, top)
  }

  /** The nodes from position i on still have their fathers. */
  ghost predicate DadsFrom(order: seq<nat>, elems: nat, k: nat, len: seq<nat>, i: nat)
    requires TopDown(order, elems, k, |len|)
  {
    forall t | 1 <= t < |order| && i <= t :: len[order[t]] == Father(elems, k, t)
  }

  ghost predicate CountsTo(s: seq<nat>, len: seq<nat>, elems: nat, count: seq<nat>)
    requires Within(s, |len|)
  {
    |count| == MAX_BITS + 1 && forall b | 0 <= b <= MAX_BITS :: count[b] == LeafCount(s, len, elems, b)
  }

  lemma StepLevels(order: seq<nat>, elems: nat, k: nat, len: seq<nat>, top: nat, i: nat, bits: nat)
    requires TopDown(order, elems, k, |len|) && 1 <= i < |order|
    requires LevelsTo(order, elems, k, len, top, i) && DadsFrom(order, elems, k, len, i)
    requires bits == Clamp(len[Father(elems, k, i)] + 1, top)
    ensures LevelsTo(order, elems, k, len[order[i] := bits], top, i + 1)
    ensures DadsFrom(order, elems, k, len[order[i] := bits], i + 1)
  {
    var len' := len[order[i] := bits];
    forall t | 1 <= t < i + 1
      ensures len'[order[t]] == Clamp(len'[Father(elems, k, t)] + 1, top)
    {
      assert Father(elems, k, t) != order[i];
      if t < i {
        assert len[order[t]] == Clamp(len[Father(elems, k, t)] + 1, top);
      }
    }
  }

  lemma StepCounts(order: seq<nat>, elems: nat, len: seq<nat>, i: nat, bits: nat, count: seq<nat>)
    requires Distinct(order) && Within(order, |len|) && i < |order| && bits <= MAX_BITS
    requires CountsTo(order[..i], len, elems, count)
    ensures var n := order[i];
            CountsTo(order[..i + 1], len[n := bits], elems, if n < elems then count[bits := count[bits] + 1] else count)
  {
    var n := order[i];
    var len' := len[n := bits];
    assert order[..i + 1][..i] == order[..i];
    forall b | 0 <= b <= MAX_BITS
      ensures LeafCount(order[..i + 1], len', elems, b) == count[b] + (if n < elems && bits == b then 1 else 0)
    {
      LeafCountSame(order[..i], len, len', elems, b);
    }
  }

  lemma StepOverflow(order: seq<nat>, elems: nat, k: nat, len: seq<nat>, top: nat, i: nat, bits: nat)
    requires TopDown(order, elems, k, |len|) && 1 <= i < |order|
    requires len[Father(elems, k, i)] <= top
    ensures Overflow(elems, k, len[order[i] := bits], top, i + 1)
            == Overflow(elems, k, len, top, i) + (if len[Father(elems, k, i)] + 1 > top then 1 else 0)
  {
    var len' := len[order[i] := bits];
    forall t | 1 <= t <= i
      ensures AtTop(len, top)[Father(elems, k, t)] == AtTop(len', top)[Father(elems, k, t)]
    {
      assert Father(elems, k, t) != order[i];
    }
    FatherSumSame(AtTop(len, top), AtTop(len', top), elems, k, i);
    FatherSumStep(AtTop(len', top), elems, k, i + 1);
  }

  lemma StepCost(order: seq<nat>, freq: seq<nat>, len: seq<nat>, extra: Extra, elems: nat, i: nat, bits: nat)
    requires Distinct(order) && Within(order, |len|) && |freq| == |len| && i < |order| && elems <= |len|
    ensures var n := order[i];
            LeafCost(order[..i + 1], freq, len[n := bits], extra, elems)
            == LeafCost(order[..i], freq, len, extra, elems) + (if n < elems then freq[n] * (bits + extra.At(n)) else 0)
  {
    var n := order[i];
    assert order[..i + 1][..i] == order[..i];
    LeafCostSame(order[..i], freq, len, len[n := bits], extra, elems);
  }

  /** Lengths below i are at most top. */
  lemma LevelBound(order: seq<nat>, elems: nat, leaves: set<nat>, len: seq<nat>, top: nat, i: nat)
    requires Shape(order, elems, leaves) && TopDown(order, elems, |leaves|, |len|) && 1 <= i < |order|
    requires LevelsTo(order, elems, |leaves|, len, top, i)
    ensures len[Father(elems, |leaves|, i)] <= top
  {
    var p := FatherBefore(order, elems, leaves, i);
  }

  lemma LeafOrInternal(order: seq<nat>, elems: nat, leaves: set<nat>, i: nat, maxCode: nat)
    requires Shape(order, elems, leaves) && i < |order| && maxCode < elems
    requires forall x | x in leaves :: x <= maxCode
    ensures order[i] <= maxCode <==> order[i] < elems
    ensures order[i] < elems <==> order[i] in leaves
  {
    ShapeFacts(order, elems, leaves);
    assert order[i] in Elements(order);
  }

  /** The fields that the first pass updates. */
  datatype PassState = PassState(len: seq<nat>, count: seq<nat>, overflow: nat, opt: nat, stat: nat)

  function Mul(a: nat, b: nat): nat { a * b }

  /** The body of the loop of the first pass, for node n. */
  ghost function VisitNode(s: PassState, n: nat, freq: seq<nat>, slen: seq<nat>, extra: Extra, maxCode: nat,
                           top: nat): PassState
    requires n < |s.len| && s.len[n] < |s.len| && |s.count| == MAX_BITS + 1 && top <= MAX_BITS
    requires n <= maxCode ==> n < |freq| && (slen != [] ==> n < |slen|)
  {
    var bits := Clamp(s.len[s.len[n]] + 1, top);
    PassState(s.len[n := bits],
              if n <= maxCode then s.count[bits := s.count[bits] + 1] else s.count,
              s.overflow + (if s.len[s.len[n]] + 1 > top then 1 else 0),
              s.opt + (if n <= maxCode then Mul(freq[n], bits + extra.At(n)) else 0),
              s.stat + (if n <= maxCode && slen != [] then Mul(freq[n], slen[n] + extra.At(n)) else 0))
  }

  /** The state of the first pass after i nodes. */
  ghost predicate Pass(order: seq<nat>, elems: nat, k: nat, freq: seq<nat>, extra: Extra, top: nat, i: nat,
                       s: PassState)
  {
    && TopDown(order, elems, k, |s.len|) && |freq| == |s.len| && 1 <= i <= |order|
    && LevelsTo(order, elems, k, s.len, top, i) && DadsFrom(order, elems, k, s.len, i)
    && Numbers(order, elems, k, freq, extra, top, i, s)
  }

  ghost predicate Numbers(order: seq<nat>, elems: nat, k: nat, freq: seq<nat>, extra: Extra, top: nat, i: nat,
                          s: PassState)
    requires TopDown(order, elems, k, |s.len|) && |freq| == |s.len| && i <= |order|
  {
    && CountsTo(order[..i], s.len, elems, s.count)
    && s.overflow == Overflow(elems, k, s.len, top, i)
    && s.opt == LeafCost(order[..i], freq, s.len, extra, elems)
  }

  lemma NumbersStep(order: seq<nat>, elems: nat, k: nat, freq: seq<nat>, slen: seq<nat>, extra: Extra, maxCode: nat,
                    top: nat, i: nat,
                    s: PassState)
    requires TopDown(order, elems, k, |s.len|) && |freq| == |s.len| && 1 <= i < |order| && top <= MAX_BITS
    requires Numbers(order, elems, k, freq, extra, top, i, s)
    requires s.len[order[i]] == Father(elems, k, i)
    requires s.len[Father(elems, k, i)] <= top && (order[i] <= maxCode <==> order[i] < elems)
    requires slen != [] ==> elems <= |slen|
    ensures Numbers(order, elems, k, freq, extra, top, i + 1, VisitNode(s, order[i], freq, slen, extra, maxCode, top))
  {
    var bits := Clamp(s.len[Father(elems, k, i)] + 1, top);
    StepCounts(order, elems, s.len, i, bits, s.count);
    StepOverflow(order, elems, k, s.len, top, i, bits);
    StepCost(order, freq, s.len, extra, elems, i, bits);
  }

  lemma PassStep(order: seq<nat>, elems: nat, k: nat, freq: seq<nat>, slen: seq<nat>, extra: Extra, maxCode: nat,
                 top: nat, i: nat,
                 s: PassState)
    requires Pass(order, elems, k, freq, extra, top, i, s) && i < |order| && top <= MAX_BITS
    requires s.len[Father(elems, k, i)] <= top && (order[i] <= maxCode <==> order[i] < elems)
    requires slen != [] ==> elems <= |slen|
    ensures s.len[order[i]] < |s.len|
    ensures Pass(order, elems, k, freq, extra, top, i + 1, VisitNode(s, order[i], freq, slen, extra, maxCode, top))
  {
    hide Numbers, LevelsTo;
    var bits := Clamp(s.len[Father(elems, k, i)] + 1, top);
    assert s.len[order[i]] == Father(elems, k, i);
    StepLevels(order, elems, k, s.len, top, i, bits);
    NumbersStep(order, elems, k, freq, slen, extra, maxCode, top, i, s);
  }

  lemma PassStart(order: seq<nat>, elems: nat, k: nat, freq: seq<nat>, len: seq<nat>, extra: Extra, top: nat)
    requires TopDown(order, elems, k, |len|) && |freq| == |len| && DadsFrom(order, elems, k, len, 0)
    requires order[0] >= elems
    ensures Pass(order, elems, k, freq, extra, top, 1, FirstState(order[0], len))
  {
    assert order[..1] == [order[0]] && [order[0]][..0] == [];
  }

  ghost function FirstState(root: nat, len: seq<nat>): PassState
    requires root < |len|
  {
    PassState(len[root := 0], seq(MAX_BITS + 1, _ => 0), 0, 0, 0)
  }

  /** The input of gen_bitlen: the node list, the frequencies, the fathers and the description of the tree. */
  datatype Job = Job(order: seq<nat>, elems: nat, leaves: set<nat>, freq: seq<nat>, slen: seq<nat>, dad: seq<nat>,
                     extra: Extra, maxCode: nat, top: nat)
  {
    ghost predicate Valid()
    {
      && Shape(order, elems, leaves) && TopDown(order, elems, |leaves|, |dad|)
          && DadsFrom(order, elems, |leaves|, dad, 0)
      && |freq| == |dad| && elems <= |dad| && (slen != [] ==> elems <= |slen|)
      && maxCode < elems && (forall x | x in leaves :: x <= maxCode) && 1 <= top <= MAX_BITS
    }

    ghost predicate Within()
    {
      && |order| > 0 && order[0] < |dad| && top <= MAX_BITS
      && forall t | 0 <= t < |order| && order[t] <= maxCode :: order[t] < |freq| && (slen != [] ==> order[t] < |slen|)
    }

    /** The state of the first pass after i nodes, computed. */
    ghost function Visited(i: nat): (s: PassState)
      requires Within() && i <= |order|
      ensures |s.len| == |dad| && |s.count| == MAX_BITS + 1
    {
      if i <= 1 then FirstState(order[0], dad)
      else
        var s := Visited(i - 1);
        var n := order[i - 1];
        if n < |s.len| && s.len[n] < |s.len| then VisitNode(s, n, freq, slen, extra, maxCode, top) else s
    }

    lemma {:induction false} VisitedPass(i: nat)
      requires Valid() && 1 <= i <= |order|
      ensures Within() && Pass(order, elems, |leaves|, freq, extra, top, i, Visited(i))
      ensures i < |order| ==> order[i] < |dad| && Visited(i).len[order[i]] < |dad|
    {
      hide Shape, TopDown, DadsFrom, Pass, VisitNode;
      ValidWithin();
      if i == 1 {
        PassStart(order, elems, |leaves|, freq, dad, extra, top);
        assert Visited(1) == FirstState(order[0], dad);
      } else {
        VisitedPass(i - 1);
        VisitStep(this, i - 1, Visited(i - 1));
        assert Visited(i) == VisitNode(Visited(i - 1), order[i - 1], freq, slen, extra, maxCode, top);
      }
      if i < |order| {
        VisitStep(this, i, Visited(i));
      }
    }

    lemma VisitedNext(i: nat)
      requires Valid() && 1 <= i < |order|
      ensures Within() && order[i] < |dad| && Visited(i).len[order[i]] < |dad|
      ensures Visited(i + 1) == VisitNode(Visited(i), order[i], freq, slen, extra, maxCode, top)
    {
      VisitedPass(i);
    }

    lemma ValidWithin()
      requires Valid()
      ensures Within() && order[0] >= elems
    {
      forall t | 0 <= t < |order| && order[t] <= maxCode
        ensures order[t] < |freq| && (slen != [] ==> order[t] < |slen|)
      {
        LeafOrInternal(order, elems, leaves, t, maxCode);
      }
    }
  }

  lemma VisitStep(j: Job, i: nat, s: PassState)
    requires j.Valid() && i < |j.order|
    requires Pass(j.order, j.elems, |j.leaves|, j.freq, j.extra, j.top, i, s)
    ensures j.order[i] < |s.len| && s.len[j.order[i]] < |s.len|
    ensures Pass(j.order, j.elems, |j.leaves|, j.freq, j.extra, j.top, i + 1,
                 VisitNode(s, j.order[i], j.freq, j.slen, j.extra, j.maxCode, j.top))
  {
    LevelBound(j.order, j.elems, j.leaves, s.len, j.top, i);
    LeafOrInternal(j.order, j.elems, j.leaves, i, j.maxCode);
    PassStep(j.order, j.elems, |j.leaves|, j.freq, j.slen, j.extra, j.maxCode, j.top, i, s);
  }

  /** The state of the pass as the arrays and counters hold it. */
  ghost predicate Holds(s: PassState, len: seq<nat>, count: seq<nat>, overflow: nat, opt: nat, stat: nat)
  {
    s.len == len && s.count == count && s.overflow == overflow && s.opt == opt && s.stat == stat
  }

  /** What is added up with the lengths of the static tree, when there is one. */
  ghost predicate StaticTo(s: seq<nat>, freq: seq<nat>, slen: seq<nat>, extra: Extra, elems: nat, stat: nat)
    requires Within(s, |freq|)
  {
    if slen == [] then stat == 0
    else elems <= |slen| && stat == LeafCost(s, freq, slen, extra, elems)
  }

  lemma StaticStep(order: seq<nat>, freq: seq<nat>, slen: seq<nat>, extra: Extra, elems: nat, i: nat, stat: nat)
    requires Within(order, |freq|) && i < |order| && StaticTo(order[..i], freq, slen, extra, elems, stat)
    ensures var n := order[i];
            StaticTo(order[..i + 1], freq, slen, extra, elems,
                     stat + (if n < elems && slen != [] then Mul(freq[n], slen[n] + extra.At(n)) else 0))
  {
    assert order[..i + 1][..i] == order[..i];
  }

  method VisitInPlace(n: nat, fc: array<nat>, dl: array<nat>, slen: seq<nat>, blCount: array<nat>, extra: Extra,
                      maxCode: nat, top: nat, overflow0: nat, opt0: nat, stat0: nat)
    returns (overflow: nat, opt: nat, stat: nat)
    requires fc != dl && blCount != dl && blCount != fc
    requires slen != [] && n <= maxCode ==> n < |slen|
    requires n < dl.Length && dl[n] < dl.Length == fc.Length && blCount.Length == MAX_BITS + 1 && top <= MAX_BITS
    modifies dl, blCount
    ensures Holds(VisitNode(PassState(old(dl[..]), old(blCount[..]), overflow0, opt0, stat0), n, fc[..],
                            slen, extra, maxCode, top),
                  dl[..], blCount[..], overflow, opt, stat)
  {
    overflow, opt, stat := overflow0, opt0, stat0;
    var bits := dl[dl[n]] + 1;
    if bits > top {
      bits := top;
      overflow := overflow + 1;
    }
    dl[n] := bits;
    if n > maxCode {
      return;
    }
    blCount[bits] := blCount[bits] + 1;
    var xbits := extra.At(n);
    var f := fc[n];
    opt := opt + Mul(f, bits + xbits);
    if slen != [] {
      stat := stat + Mul(f, slen[n] + xbits);
    }
  }

  /**
   The first pass of gen_bitlen, from the root down: dl holds the father of each
   node before and its length afterwards.  The results opt and stat are what
   gen_bitlen adds to opt_len and static_len.
   */
  method AssignLevels(heap: array<nat>, heapMax: nat, fc: array<nat>, dl: array<nat>, slen: seq<nat>,
                      blCount: array<nat>, extra: Extra, elems: nat, maxCode: nat, maxLength: nat, ghost j: Job)
    returns (overflow: nat, opt: nat, stat: nat)
    requires heap != dl && fc != dl && blCount != dl && blCount != heap && blCount != fc
    requires slen != [] ==> 0 < elems <= |slen|
    requires heapMax <= heap.Length && blCount.Length == MAX_BITS + 1
    requires j == Job(heap[heapMax..], elems, j.leaves, fc[..], slen, dl[..], extra, maxCode, maxLength)
    requires j.Valid()
    modifies dl, blCount
    ensures j.Within() && Holds(j.Visited(|j.order|), dl[..], blCount[..], overflow, opt, stat)
  {
    hide Shape, TopDown, DadsFrom, VisitNode;
    j.ValidWithin();
    ClearCounts(blCount);
    overflow, opt, stat := 0, 0, 0;
    assert j.order[0] == heap[heapMax];
    dl[heap[heapMax]] := 0;
    var h := heapMax + 1;
    while h < heap.Length
      invariant heapMax < h <= heap.Length
      invariant heap[heapMax..] == j.order && fc[..] == j.freq && j.slen == slen
      invariant Holds(j.Visited(h - heapMax), dl[..], blCount[..], overflow, opt, stat)
    {
      ghost var i := h - heapMax;
      assert heap[h] == j.order[i];
      j.VisitedNext(i);
      assert j.Visited(i) == PassState(dl[..], blCount[..], overflow, opt, stat);
      overflow, opt, stat := VisitInPlace(heap[h], fc, dl, slen, blCount, extra, maxCode, maxLength, overflow, opt,
          stat);
      h := h + 1;
    }
  }

  method ClearCounts(blCount: array<nat>)
    requires blCount.Length == MAX_BITS + 1
    modifies blCount
    ensures blCount[..] == seq(MAX_BITS + 1, _ => 0)
  {
    var b := 0;
    while b <= MAX_BITS
      invariant b <= MAX_BITS + 1
      invariant forall c | 0 <= c < b :: blCount[c] == 0
    {
      blCount[b] := 0;
      b := b + 1;
    }
  }
}
