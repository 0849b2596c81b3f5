/**
 gen_bitlen as a whole: the lengths it leaves behind fill the code space
 exactly, respect the maximum, and their cost is what it reports.
 */
module Lengths {
  import opened Bits
  import opened Sums
  import opened TreeShape
  import opened Canonical
  import opened BitLengths
  import opened LengthRepair
  import opened LengthReassign
  import opened Rearrange

  // ----- lists of leaves and sets of leaves -----

  /** The sum of g over the leaves in the list. */
  ghost function LeafSum(s: seq<nat>, elems: nat, g: seq<int>): int
    requires Within(s, |g|)
  {
    if s == [] then 0 else LeafSum(s[..|s| - 1], elems, g) + (if s[|s| - 1] < elems then g[s[|s| - 1]] else 0)
  }

  ghost function LeavesIn(s: seq<nat>, elems: nat): set<nat>
  {
    set x | x in s && x < elems
  }

  lemma {:induction false} LeafSumIsSum(s: seq<nat>, elems: nat, g: seq<int>)
    requires Within(s, |g|) && Distinct(s)
    ensures LeafSum(s, elems, g) == Sum(LeavesIn(s, elems), g, |g|)
  {
    if s == [] {
      assert LeavesIn(s, elems) == {};
      SumEmpty(g, |g|);
    } else {
      var front, x := s[..|s| - 1], s[|s| - 1];
      LeafSumIsSum(front, elems, g);
      assert s == front + [x];
      if x < elems {
        assert LeavesIn(s, elems) == LeavesIn(front, elems) + {x};
        SumAdd(LeavesIn(front, elems), x, g, |g|);
      } else {
        assert LeavesIn(s, elems) == LeavesIn(front, elems);
      }
    }
  }

  ghost function Equals(len: seq<nat>, b: nat): (g: seq<int>)
    ensures |g| == |len|
    ensures forall x | 0 <= x < |len| :: g[x] == if len[x] == b then 1 else 0
  {
    seq(|len|, x requires 0 <= x < |len| => if len[x] == b then 1 else 0)
  }

  lemma {:induction false} LeafCountIsSum(s: seq<nat>, len: seq<nat>, elems: nat, b: nat)
    requires Within(s, |len|)
    ensures LeafCount(s, len, elems, b) == LeafSum(s, elems, Equals(len, b))
  {
    if s != [] {
      LeafCountIsSum(s[..|s| - 1], len, elems, b);
    }
  }

  ghost function Costs(freq: seq<nat>, len: seq<nat>, extra: Extra, elems: nat): (g: seq<int>)
    requires elems <= |len|
    ensures |g| == |freq|
    ensures forall x | 0 <= x < |freq| && x < elems :: g[x] == freq[x] * (len[x] + extra.At(x))
  {
    seq(|freq|, x requires 0 <= x < |freq| => if x < elems then freq[x] * (len[x] + extra.At(x)) else 0)
  }

  lemma {:induction false} LeafCostIsSum(s: seq<nat>, freq: seq<nat>, len: seq<nat>, extra: Extra, elems: nat)
    requires Within(s, |freq|) && elems <= |len|
    ensures LeafCost(s, freq, len, extra, elems) == LeafSum(s, elems, Costs(freq, len, extra, elems))
  {
    if s != [] {
      LeafCostIsSum(s[..|s| - 1], freq, len, extra, elems);
    }
  }

  // ----- sums by symbol -----

  /** The size in bits of the symbols 0 to n-1, symbol i sent freq[i] times. */
  function Cost(freq: seq<nat>, len: seq<nat>, extra: Extra, n: nat): nat
    requires n <= |freq| && n <= |len|
  {
    if n == 0 then 0 else Cost(freq, len, extra, n - 1) + freq[n - 1] * (len[n - 1] + extra.At(n - 1))
  }

  lemma {:induction false} CostIsSum(leaves: set<nat>, freq: seq<nat>, len: seq<nat>, extra: Extra, elems: nat, n: nat)
    requires n <= elems <= |len| && elems <= |freq|
    requires forall x: nat | x < n && x !in leaves :: freq[x] == 0
    ensures Cost(freq, len, extra, n) == Sum(leaves, Costs(freq, len, extra, elems), n)
  {
    if n > 0 {
      CostIsSum(leaves, freq, len, extra, elems, n - 1);
    }
  }

  lemma {:induction false} CountIsSum(leaves: set<nat>, len: seq<nat>, b: nat, n: nat)
    requires n <= |len| && b > 0
    requires forall x: nat | x < n && x !in leaves :: len[x] == 0
    ensures Count(len[..n], b) == Sum(leaves, Equals(len, b), n)
  {
    if n > 0 {
      CountIsSum(leaves, len, b, n - 1);
      assert len[..n][..n - 1] == len[..n - 1];
    } else {
      assert len[..0] == [];
    }
  }

  // ----- lists of counts -----

  ghost function CountsOf(s: seq<nat>, len: seq<nat>, elems: nat): (c: seq<nat>)
    requires Within(s, |len|)
    ensures |c| == MAX_BITS + 1 && CountsTo(s, len, elems, c)
  {
    seq(MAX_BITS + 1, b requires 0 <= b <= MAX_BITS => LeafCount(s, len, elems, b))
  }

  /** How many leaves have a length from 1 to top. */
  ghost function InRange(s: seq<nat>, len: seq<nat>, elems: nat, top: nat): (c: nat)
    requires Within(s, |len|)
  {
    if s == [] then 0
    else
      var x := s[|s| - 1];
      InRange(s[..|s| - 1], len, elems, top) + (if x < elems && 1 <= len[x] <= top then 1 else 0)
  }

  lemma {:induction false} ItemsOfList(s: seq<nat>, len: seq<nat>, elems: nat, top: nat)
    requires Within(s, |len|) && top <= MAX_BITS
    ensures Items(CountsOf(s, len, elems), top) == InRange(s, len, elems, top) <= LeafTotal(s, elems)
    ensures (forall i | 0 <= i < |s| && s[i] < elems :: 1 <= len[s[i]] <= top)
            <==> InRange(s, len, elems, top) == LeafTotal(s, elems)
  {
    hide CountsTo;
    if s == [] {
      ZeroItems(CountsOf(s, len, elems), top);
    } else {
      var x := s[|s| - 1];
      var c := CountsOf(s[..|s| - 1], len, elems);
      ItemsOfList(s[..|s| - 1], len, elems, top);
      Bump(s, len, elems);
      if x < elems && 1 <= len[x] <= MAX_BITS {
        ItemsUpdate(c, len[x], c[len[x]] + 1, top);
      } else if x < elems && len[x] == 0 {
        ItemsIgnoreZero(c, c[0] + 1, top);
      }
    }
  }

  lemma {:induction false} ZeroItems(count: seq<nat>, l: nat)
    requires l < |count| && forall b | 0 <= b < |count| :: count[b] == 0
    ensures Items(count, l) == 0
  {
    if l > 0 {
      ZeroItems(count, l - 1);
    }
  }

  lemma {:induction false} ItemsIgnoreZero(count: seq<nat>, v: nat, l: nat)
    requires l < |count|
    ensures Items(count[0 := v], l) == Items(count, l)
  {
    if l > 0 {
      ItemsIgnoreZero(count, v, l - 1);
    }
  }

  /** One more leaf in the list is one more in the count of its length. */
  lemma Bump(s: seq<nat>, len: seq<nat>, elems: nat)
    requires s != [] && Within(s, |len|)
    ensures var x := s[|s| - 1];
            var c := CountsOf(s[..|s| - 1], len, elems);
            CountsOf(s, len, elems) == if x < elems && len[x] <= MAX_BITS then c[len[x] := c[len[x]] + 1] else c
  {}

  /** The weight of the counts is the sum of the shares of the leaves. */
  lemma {:induction false} WeightOfList(s: seq<nat>, len: seq<nat>, elems: nat, top: nat)
    requires Within(s, |len|) && top <= MAX_BITS
    requires forall i | 0 <= i < |s| && s[i] < elems :: 1 <= len[s[i]] <= top
    ensures 2 * Weight(CountsOf(s, len, elems), top, top) == LeafSum(s, elems, Credit(len, top))
  {
    hide CountsTo, Pow2;
    if s == [] {
      assert forall b | 1 <= b <= top :: CountsOf(s, len, elems)[b] == 0;
      OnlyLong(CountsOf(s, len, elems), top, top);
    } else {
      var x := s[|s| - 1];
      var front := s[..|s| - 1];
      WeightOfList(front, len, elems, top);
      Bump(s, len, elems);
      if x < elems {
        var c := CountsOf(front, len, elems);
        WeightUpdate(c, len[x], c[len[x]] + 1, top, top);
        TwoHalves(top, len[x]);
        NodeWeights(len, top, x);
        assert (c[len[x]] + 1 - c[len[x]]) * Pow2(top - len[x]) == Pow2(top - len[x]);
      }
    }
  }

  lemma TwoHalves(top: nat, l: nat)
    requires l <= top
    ensures Pow2(top + 1 - l) == 2 * Pow2(top - l)
  {}

  // ----- from the first pass to the repair -----

  lemma {:induction false} LeafTotalIsCard(s: seq<nat>, elems: nat)
    requires Distinct(s)
    ensures LeafTotal(s, elems) == |LeavesIn(s, elems)|
  {
    if s == [] {
      assert LeavesIn(s, elems) == {};
    } else {
      var front, x := s[..|s| - 1], s[|s| - 1];
      LeafTotalIsCard(front, elems);
      assert s == front + [x] && x !in front;
      if x < elems {
        assert LeavesIn(s, elems) == LeavesIn(front, elems) + {x};
      } else {
        assert LeavesIn(s, elems) == LeavesIn(front, elems);
      }
    }
  }

  lemma LeavesOfShape(order: seq<nat>, elems: nat, leaves: set<nat>)
    requires Shape(order, elems, leaves)
    ensures Distinct(order) && LeavesIn(order, elems) == leaves && LeafTotal(order, elems) == |leaves|
  {
    ShapeFacts(order, elems, leaves);
    forall x
      ensures x in LeavesIn(order, elems) <==> x in leaves
    {
      assert x in Elements(order) <==> x in leaves + Internals(elems, |leaves|);
    }
    LeafTotalIsCard(order, elems);
  }

  lemma LevelsAll(order: seq<nat>, elems: nat, leaves: set<nat>, len: seq<nat>, top: nat)
    requires Shape(order, elems, leaves) && TopDown(order, elems, |leaves|, |len|)
    requires LevelsTo(order, elems, |leaves|, len, top, |order|)
    ensures Levels(order, elems, leaves, len, top)
  {
    ShapeFacts(order, elems, leaves);
    forall t | 1 <= t < |order|
      ensures len[order[t]] == (if len[Father(elems, |leaves|, t)] + 1 > top then top
                else len[Father(elems, |leaves|, t)] + 1)
    {
      assert len[order[t]] == Clamp(len[Father(elems, |leaves|, t)] + 1, top);
    }
  }

  lemma LeafLevels(order: seq<nat>, elems: nat, leaves: set<nat>, len: seq<nat>, top: nat)
    requires Shape(order, elems, leaves) && TopDown(order, elems, |leaves|, |len|) && 1 <= top
    requires LevelsTo(order, elems, |leaves|, len, top, |order|)
    ensures forall i | 0 <= i < |order| && order[i] < elems :: 1 <= len[order[i]] <= top
  {}

  /** The counts of a list determine the list of counts. */
  lemma CountsUnique(s: seq<nat>, len: seq<nat>, elems: nat, count: seq<nat>)
    requires Within(s, |len|) && CountsTo(s, len, elems, count)
    ensures count == CountsOf(s, len, elems)
  {}

  /** After the first pass, the counts are ready for the repair loop. */
  lemma PassMeetsRepair(order: seq<nat>, elems: nat, leaves: set<nat>, freq: seq<nat>, extra: Extra, top: nat,
                        s: PassState)
    requires Shape(order, elems, leaves) && 1 <= top <= MAX_BITS && elems <= Pow2(top) && |leaves| <= elems
    requires Pass(order, elems, |leaves|, freq, extra, top, |order|, s)
    ensures Repairing(s.count, top, s.overflow, |leaves|)
    ensures forall b | top < b <= MAX_BITS :: s.count[b] == 0
    ensures Items(s.count, top) == LeafTotal(order, elems)
  {
    hide Pow2, Weight, Items;
    assert order[..|order|] == order;
    LevelsAll(order, elems, leaves, s.len, top);
    LeafLevels(order, elems, leaves, s.len, top);
    PassCounts(order, elems, leaves, s.len, s.count, top);
    KraftExcess(order, elems, leaves, s.len, top);
    ClampedLeaves(order, elems, leaves, s.len, top);
    Doubled(top);
  }

  lemma Doubled(top: nat)
    ensures Pow2(top + 1) == 2 * Pow2(top)
  {}

  lemma PassCounts(order: seq<nat>, elems: nat, leaves: set<nat>, len: seq<nat>, count: seq<nat>, top: nat)
    requires Shape(order, elems, leaves) && 1 <= top <= MAX_BITS && Within(order, |len|)
    requires CountsTo(order, len, elems, count)
    requires forall i | 0 <= i < |order| && order[i] < elems :: 1 <= len[order[i]] <= top
    ensures 2 * Weight(count, top, top) == Sum(leaves, Credit(len, top), |len|)
    ensures count[top] == Sum(leaves, AtTop(len, top), |len|)
    ensures Items(count, top) == LeafTotal(order, elems) == |leaves|
    ensures count[0] == 0 && forall b | top < b <= MAX_BITS :: count[b] == 0
  {
    hide Shape, Weight, Items, LeafCount, LeafSum, LeafTotal;
    LeavesOfShape(order, elems, leaves);
    CountsUnique(order, len, elems, count);
    WeightOfList(order, len, elems, top);
    LeafSumIsSum(order, elems, Credit(len, top));
    LeafCountIsSum(order, len, elems, top);
    LeafSumIsSum(order, elems, Equals(len, top));
    assert Equals(len, top) == AtTop(len, top);
    ItemsOfList(order, len, elems, top);
    forall b | 0 <= b <= MAX_BITS && (b == 0 || b > top)
      ensures count[b] == 0
    {
      Absent(order, len, elems, b);
    }
  }

  lemma {:induction false} Absent(s: seq<nat>, len: seq<nat>, elems: nat, b: nat)
    requires Within(s, |len|) && forall i | 0 <= i < |s| && s[i] < elems :: len[s[i]] != b
    ensures LeafCount(s, len, elems, b) == 0
  {
    if s != [] {
      Absent(s[..|s| - 1], len, elems, b);
    }
  }

  // ----- what the lengths amount to -----

  /** The result of gen_bitlen: every leaf has a length up to top, and the code space is full. */
  ghost predicate Complete(leaves: set<nat>, len: seq<nat>, count: seq<nat>, maxCode: nat, top: nat)
  {
    && maxCode < |len| && |count| == MAX_BITS + 1 && count[0] == 0
    && (forall x | x in leaves :: x <= maxCode && 1 <= len[x] <= top)
    && (forall i | 0 <= i <= maxCode :: len[i] <= MAX_BITS)
    && (forall l | 1 <= l <= MAX_BITS :: count[l] == Count(len[..maxCode + 1], l))
    && KraftTo(len[..maxCode + 1], MAX_BITS, MAX_BITS) == Pow2(MAX_BITS)
  }

  lemma {:induction false} KraftOfCounts(lens: seq<nat>, count: seq<nat>, l: nat, top: nat)
    requires l <= top <= MAX_BITS && |count| == MAX_BITS + 1
    requires forall b | 1 <= b <= MAX_BITS :: count[b] == Count(lens, b)
    ensures KraftTo(lens, l, MAX_BITS) == Weight(count, l, top) * Pow2(MAX_BITS - top)
  {
    hide Pow2, Count;
    if l > 0 {
      KraftOfCounts(lens, count, l - 1, top);
      Pow2Add(top - l, MAX_BITS - top);
      Distribute(Weight(count, l - 1, top), count[l], Pow2(top - l), Pow2(MAX_BITS - top));
    }
  }

  lemma Distribute(w: nat, c: nat, p: nat, q: nat)
    ensures (w + c * p) * q == w * q + c * (p * q)
  {}

  lemma Conclude(order: seq<nat>, elems: nat, leaves: set<nat>, len: seq<nat>, count: seq<nat>, maxCode: nat, top: nat)
    requires Shape(order, elems, leaves) && Within(order, |len|) && maxCode < elems <= |len| && top <= MAX_BITS
    requires forall x | x in leaves :: x <= maxCode
    requires forall x: nat | x < elems && x !in leaves :: len[x] == 0
    requires CountsTo(order, len, elems, count) && Repairing(count, top, 0, |leaves|)
    requires forall b | top < b <= MAX_BITS :: count[b] == 0
    ensures Complete(leaves, len, count, maxCode, top)
  {
    hide Shape, Weight, Items, LeafCount, LeafSum, LeafTotal, Pow2, Count, KraftTo;
    LeavesOfShape(order, elems, leaves);
    CountsUnique(order, len, elems, count);
    ItemsOfList(order, len, elems, top);
    forall x | x in leaves
      ensures 1 <= len[x] <= top
    {
      assert x in LeavesIn(order, elems);
    }
    forall b | 1 <= b <= MAX_BITS
      ensures count[b] == Count(len[..maxCode + 1], b)
    {
      CountIsSum(leaves, len, b, maxCode + 1);
      SumTrim(leaves, Equals(len, b), maxCode + 1, |len|);
      LeafCountIsSum(order, len, elems, b);
      LeafSumIsSum(order, elems, Equals(len, b));
    }
    KraftOfCounts(len[..maxCode + 1], count, top, top);
    KraftFlat(len[..maxCode + 1], top, MAX_BITS, MAX_BITS);
    Pow2Add(top, MAX_BITS - top);
  }

  lemma CostOfList(order: seq<nat>, elems: nat, leaves: set<nat>, freq: seq<nat>, len: seq<nat>, extra: Extra)
    requires Shape(order, elems, leaves) && Within(order, |freq|) && elems <= |len| && elems <= |freq|
    requires forall x: nat | x < elems && x !in leaves :: freq[x] == 0
    ensures LeafCost(order, freq, len, extra, elems) == Cost(freq, len, extra, elems)
  {
    hide Shape, Cost, LeafCost;
    LeavesOfShape(order, elems, leaves);
    LeafCostIsSum(order, freq, len, extra, elems);
    LeafSumIsSum(order, elems, Costs(freq, len, extra, elems));
    CostIsSum(leaves, freq, len, extra, elems, elems);
    BelowElems(order, elems, leaves);
    SumTrim(leaves, Costs(freq, len, extra, elems), elems, |freq|);
  }

  lemma BelowElems(order: seq<nat>, elems: nat, leaves: set<nat>)
    requires Shape(order, elems, leaves)
    ensures forall x | x in leaves :: x < elems
  {}

  /** The list, the frequencies and the fathers that build_tree hands to gen_bitlen. */
  ghost predicate Ready(j: Job)
  {
    && j.Valid() && |j.leaves| <= j.elems <= Pow2(j.top)
    && forall x: nat | x < j.elems && x !in j.leaves :: j.freq[x] == 0 && j.dad[x] == 0
  }

  /** The outcome of the first pass, in the terms of the later steps. */
  lemma FirstPassDone(j: Job, s: PassState)
    requires Ready(j) && j.Within() && s == j.Visited(|j.order|)
    ensures |s.len| == |j.dad| && |s.count| == MAX_BITS + 1
    ensures Within(j.order, |j.dad|) && Distinct(j.order) && j.elems <= |j.dad|
    ensures CountsTo(j.order, s.len, j.elems, s.count)
    ensures Repairing(s.count, j.top, s.overflow, |j.leaves|)
    ensures forall b | j.top < b <= MAX_BITS :: s.count[b] == 0
    ensures Items(s.count, j.top) == LeafTotal(j.order, j.elems) == |j.leaves|
    ensures s.opt == LeafCost(j.order, j.freq, s.len, j.extra, j.elems)
    ensures Levels(j.order, j.elems, j.leaves, s.len, j.top) || s.overflow > 0
  {
    hide Weight, Items, Repairing, LeafCount, LeafCost, LeafTotal, Shape, Pow2;
    assert j.order[..|j.order|] == j.order;
    j.VisitedPass(|j.order|);
    PassMeetsRepair(j.order, j.elems, j.leaves, j.freq, j.extra, j.top, s);
    LevelsAll(j.order, j.elems, j.leaves, s.len, j.top);
    LeavesOfShape(j.order, j.elems, j.leaves);
  }

  lemma LeafTests(j: Job)
    requires Ready(j)
    ensures forall t | 0 <= t < |j.order| :: j.order[t] <= j.maxCode <==> j.order[t] < j.elems
    ensures forall x: nat | x < j.elems :: x in j.order <==> x in j.leaves
  {
    LeavesOfShape(j.order, j.elems, j.leaves);
    hide Shape;
    forall t | 0 <= t < |j.order|
      ensures j.order[t] <= j.maxCode <==> j.order[t] < j.elems
    {
      LeafOrInternal(j.order, j.elems, j.leaves, t, j.maxCode);
    }
    forall x: nat | x < j.elems
      ensures x in j.order <==> x in j.leaves
    {
      assert x in LeavesIn(j.order, j.elems) <==> x in j.leaves;
    }
  }

  /** The static length is the cost under the lengths of the static tree. */
  lemma {:induction false} VisitedStatic(j: Job, i: nat)
    requires j.Valid() && j.Within() && 1 <= i <= |j.order| && Within(j.order, |j.freq|)
    ensures StaticTo(j.order[..i], j.freq, j.slen, j.extra, j.elems, j.Visited(i).stat)
  {
    hide Shape, TopDown, DadsFrom, LeafCost, StaticTo, Mul, VisitNode, BitLengths.Within;
    if i == 1 {
      FirstStatic(j);
    } else {
      VisitedStatic(j, i - 1);
      j.VisitedNext(i - 1);
      LeafOrInternal(j.order, j.elems, j.leaves, i - 1, j.maxCode);
      StaticStep(j.order, j.freq, j.slen, j.extra, j.elems, i - 1, j.Visited(i - 1).stat);
      VisitStat(j.Visited(i - 1), j.order[i - 1], j.freq, j.slen, j.extra, j.maxCode, j.top);
    }
  }

  lemma FirstStatic(j: Job)
    requires j.Valid() && j.Within() && Within(j.order, |j.freq|)
    ensures StaticTo(j.order[..1], j.freq, j.slen, j.extra, j.elems, j.Visited(1).stat)
  {
    hide Shape, TopDown, DadsFrom, LeafCost;
    j.ValidWithin();
    RootCost(j.order[..1], j.freq, j.slen, j.extra, j.elems);
  }

  lemma VisitStat(s: PassState, n: nat, freq: seq<nat>, slen: seq<nat>, extra: Extra, maxCode: nat, top: nat)
    requires n < |s.len| && s.len[n] < |s.len| && |s.count| == MAX_BITS + 1 && top <= MAX_BITS
    requires n <= maxCode ==> n < |freq| && (slen != [] ==> n < |slen|)
    ensures VisitNode(s, n, freq, slen, extra, maxCode, top).stat
            == s.stat + (if n <= maxCode && slen != [] then Mul(freq[n], slen[n] + extra.At(n)) else 0)
  {}

  lemma RootCost(s: seq<nat>, freq: seq<nat>, len: seq<nat>, extra: Extra, elems: nat)
    requires |s| == 1 && s[0] >= elems && Within(s, |freq|)
    ensures elems <= |len| ==> LeafCost(s, freq, len, extra, elems) == 0
  {
    assert s[..0] == [];
  }

  lemma {:induction false} VisitedOthers(j: Job, i: nat, x: nat)
    requires j.Within() && i <= |j.order| && x < |j.dad| && x !in j.order
    ensures j.Visited(i).len[x] == j.dad[x]
  {
    if i > 1 {
      VisitedOthers(j, i - 1, x);
    }
  }

  /** Lengths that come straight from the tree, none clamped. */
  ghost predicate Unclamped(j: Job, len: seq<nat>)
  {
    Ready(j) && |len| == |j.dad| && Levels(j.order, j.elems, j.leaves, len, j.top)
    && Overflow(j.elems, |j.leaves|, len, j.top, 2 * |j.leaves| - 1) == 0
  }

  /** The number of leaves of each length, when the depths of the tree are cut at the limit and repaired. */
  ghost function RepairedCounts(j: Job): (r: seq<nat>)
    requires Ready(j)
    ensures |r| == MAX_BITS + 1
  {
    j.ValidWithin();
    var s := j.Visited(|j.order|);
    Moved(s.count, j.top, s.overflow / 2)
  }

  /** The tree of the job is deeper than the lengths may be. */
  ghost predicate Deep(j: Job)
    requires Ready(j)
  {
    TooDeep(j.order, j.elems, j.leaves, j.top)
  }

  /** The same lengths for the same symbols, given out in another way. */
  ghost predicate SameLengths(len: seq<nat>, other: seq<nat>, elems: nat)
  {
    && elems <= |len| == |other| && (forall x: nat | x < elems :: len[x] == 0 <==> other[x] == 0)
    && forall b: nat | b > 0 :: Count(other[..elems], b) == Count(len[..elems], b)
  }

  /** A symbol that is rarer has no shorter code, and so no other way to give out these lengths is cheaper. */
  ghost predicate BestOrder(freq: seq<nat>, len: seq<nat>, extra: Extra, elems: nat)
    requires elems <= |freq| && elems <= |len|
  {
    && (forall x, y | 0 <= x < elems && 0 <= y < elems && len[x] != 0 && len[y] != 0 && freq[x] < freq[y] ::
          len[x] >= len[y])
    && (forall other: seq<nat> | SameLengths(len, other, elems) ::
          Cost(freq, len, extra, elems) <= Cost(freq, other, extra, elems))
  }

  /** The lengths of the leaves counted in the list of nodes and in the list of symbols. */
  lemma LeafCountIsCount(j: Job, len: seq<nat>, b: nat)
    requires Ready(j) && |len| == |j.dad| && b > 0
    requires forall x: nat | x < j.elems && x !in j.leaves :: len[x] == 0
    ensures Within(j.order, |len|) && LeafCount(j.order, len, j.elems, b) == Count(len[..j.elems], b)
  {
    hide Shape, Pow2, Count, LeafCount, TopDown, DadsFrom;
    ReadyFacts(j);
    ReadyWithin(j);
    LeavesOfShape(j.order, j.elems, j.leaves);
    CountIsSum(j.leaves, len, b, j.elems);
    SumTrim(j.leaves, Equals(len, b), j.elems, |len|);
    LeafCountIsSum(j.order, len, j.elems, b);
    LeafSumIsSum(j.order, j.elems, Equals(len, b));
  }

  lemma ReadyWithin(j: Job)
    requires Ready(j)
    ensures Within(j.order, |j.dad|) && Distinct(j.order)
  {}

  lemma OrderCost(j: Job, len: seq<nat>, other: seq<nat>)
    requires Ready(j) && OthersZero(j, len) && (forall x | x in j.leaves :: len[x] != 0)
    requires Descending(j.order, j.freq) && Rising(j.order, j.elems, len) && SameLengths(len, other, j.elems)
    ensures j.elems <= |j.freq| && Cost(j.freq, len, j.extra, j.elems) <= Cost(j.freq, other, j.extra, j.elems)
  {
    hide Shape, Pow2, Count, LeafCount, TopDown, DadsFrom, Cost, LeafCost, Descending, Rising, Ready;
    ReadyFacts(j);
    ReadyWithin(j);
    LeafTests(j);
    forall b: nat
      ensures LeafCount(j.order, other, j.elems, b) == LeafCount(j.order, len, j.elems, b)
    {
      if b == 0 {
        NoneZero(j.order, len, j.elems);
        NoneZero(j.order, other, j.elems);
      } else {
        LeafCountIsCount(j, len, b);
        LeafCountIsCount(j, other, b);
      }
    }
    NoneCheaper(j.order, j.elems, j.freq, len, other, j.extra);
    assert forall x: nat | x < j.elems && x !in j.leaves :: j.freq[x] == 0 by { ReadyZero(j); }
    assert Shape(j.order, j.elems, j.leaves) by { ReadyZero(j); }
    CostOfList(j.order, j.elems, j.leaves, j.freq, len, j.extra);
    CostOfList(j.order, j.elems, j.leaves, j.freq, other, j.extra);
  }

  lemma ReadyZero(j: Job)
    requires Ready(j)
    ensures Shape(j.order, j.elems, j.leaves) && forall x: nat | x < j.elems && x !in j.leaves :: j.freq[x] == 0
  {}

  lemma {:induction false} NoneZero(s: seq<nat>, len: seq<nat>, elems: nat)
    requires Within(s, |len|) && forall x | x in s && x < elems :: len[x] != 0
    ensures LeafCount(s, len, elems, 0) == 0
  {
    if s != [] {
      NoneZero(s[..|s| - 1], len, elems);
    }
  }

  /** Lengths that rise along the sorted list are given out in the best way. */
  lemma RisingIsBest(j: Job, len: seq<nat>)
    requires Ready(j) && OthersZero(j, len) && (forall x | x in j.leaves :: x < |len| && len[x] != 0)
    requires Descending(j.order, j.freq) && Rising(j.order, j.elems, len)
    ensures j.elems <= |j.freq| && j.elems <= |len| && BestOrder(j.freq, len, j.extra, j.elems)
  {
    hide Cost, Ready, Shape, TopDown, DadsFrom, Pow2, Count;
    ReadyFacts(j);
    LeafTests(j);
    forall x, y | 0 <= x < j.elems && 0 <= y < j.elems && len[x] != 0 && len[y] != 0 && j.freq[x] < j.freq[y]
      ensures len[x] >= len[y]
    {
      assert x in j.order && y in j.order;
      var s :| 0 <= s < |j.order| && j.order[s] == x;
      var t :| 0 <= t < |j.order| && j.order[t] == y;
    }
    forall other: seq<nat> | SameLengths(len, other, j.elems)
      ensures Cost(j.freq, len, j.extra, j.elems) <= Cost(j.freq, other, j.extra, j.elems)
    {
      OrderCost(j, len, other);
    }
  }

  /** The symbols that are not leaves keep length zero. */
  ghost predicate OthersZero(j: Job, len: seq<nat>)
  {
    |len| == |j.dad| && forall x: nat | x < j.elems && x < |len| && x !in j.leaves :: len[x] == 0
  }

  lemma OthersStayZero(j: Job)
    requires Ready(j) && j.Within()
    ensures OthersZero(j, j.Visited(|j.order|).len)
  {
    LeafTests(j);
    forall x: nat | x < j.elems && x !in j.leaves
      ensures j.Visited(|j.order|).len[x] == 0
    {
      VisitedOthers(j, |j.order|, x);
    }
  }

  lemma StaticCost(j: Job)
    requires Ready(j) && j.Within()
    ensures j.slen == [] ==> j.Visited(|j.order|).stat == 0
    ensures j.slen != [] ==> j.elems <= |j.slen| && j.elems <= |j.freq|
                             && j.Visited(|j.order|).stat == Cost(j.freq, j.slen, j.extra, j.elems)
  {
    assert j.order[..|j.order|] == j.order;
    VisitedStatic(j, |j.order|);
    if j.slen != [] {
      CostOfList(j.order, j.elems, j.leaves, j.freq, j.slen, j.extra);
    }
  }

  lemma Finished(j: Job, len: seq<nat>, count: seq<nat>, opt: int)
    requires Ready(j) && OthersZero(j, len)
    requires Within(j.order, |len|) && CountsTo(j.order, len, j.elems, count) && Repairing(count, j.top, 0, |j.leaves|)
    requires forall b | j.top < b <= MAX_BITS :: count[b] == 0
    requires j.elems <= |j.freq| && opt == LeafCost(j.order, j.freq, len, j.extra, j.elems)
    ensures Complete(j.leaves, len, count, j.maxCode, j.top)
    ensures opt == Cost(j.freq, len, j.extra, j.elems)
  {
    hide Complete, Repairing, CountsTo, LeafCost, Cost;
    Conclude(j.order, j.elems, j.leaves, len, count, j.maxCode, j.top);
    CostOfList(j.order, j.elems, j.leaves, j.freq, len, j.extra);
  }

  /**
   gen_bitlen: the leaves get lengths that fill the code space; the results are
   what is added to opt_len and static_len.
   */
  method GenBitlen(heap: array<nat>, heapMax: nat, fc: array<nat>, dl: array<nat>, slen: seq<nat>, blCount: array<nat>,
                   extra: Extra, elems: nat, maxCode: nat, maxLength: nat, ghost j: Job)
    returns (opt: int, stat: nat, ghost clamped: bool)
    requires heap != dl && fc != dl && blCount != dl && blCount != heap && blCount != fc
    requires slen != [] ==> 0 < elems <= |slen|
    requires heapMax <= heap.Length && blCount.Length == MAX_BITS + 1
    requires j == Job(heap[heapMax..], elems, j.leaves, fc[..], slen, dl[..], extra, maxCode, maxLength)
    requires Ready(j)
    modifies dl, blCount
    ensures Complete(j.leaves, dl[..], blCount[..], maxCode, maxLength) && OthersZero(j, dl[..])
    ensures elems <= fc.Length == dl.Length
    ensures opt == Cost(fc[..], dl[..], extra, elems)
    ensures stat == if slen == [] then 0 else Cost(fc[..], slen, extra, elems)
    ensures (clamped <==> Deep(j)) && (!clamped ==> Unclamped(j, dl[..]))
    ensures clamped ==> blCount[..] == RepairedCounts(j)
    ensures clamped && Descending(j.order, j.freq) ==> BestOrder(fc[..], dl[..], extra, elems)
    ensures |j.leaves| == 2 ==> !clamped
  {
    hide Ready, Deep, Complete, Repairing, CountsTo, LeafCost, Cost, OthersZero, Unclamped, LeafTotal, Items, TopDown,
         Shape, DadsFrom, Levels, Distinct, BestOrder, Rising, Descending, Moved;
    assert j.Valid() && j.elems <= |j.dad| == |j.freq| && 1 <= j.top <= MAX_BITS
        && j.maxCode < j.elems by { ReadyFacts(j); }
    var overflow;
    overflow, opt, stat := AssignLevels(heap, heapMax, fc, dl, slen, blCount, extra, elems, maxCode, maxLength, j);
    ghost var s := j.Visited(|j.order|);
    assert s.len == dl[..] && s.count == blCount[..];
    StaticCost(j);
    OthersStayZero(j);
    FirstPassDone(j, s);
    clamped := overflow != 0;
    assert clamped <==> Deep(j) by { ClampedIsDeep(j, s); }
    assert |j.leaves| == 2 ==> overflow == 0 by { if |j.leaves| == 2 { TwoLeaves(j, s); } }
    if overflow == 0 {
      Finished(j, dl[..], blCount[..], opt);
      assert Unclamped(j, dl[..]) by { NotClamped(j, s); }
      return;
    }
    RepairCounts(blCount, maxLength, overflow, |j.leaves|);
    LeafTests(j);
    assert Items(blCount[..], maxLength) == |j.leaves|
        && blCount[..][0] == 0 by { Repaired(blCount[..], maxLength, |j.leaves|); }
    var delta := Reassign(heap, heapMax, fc, dl, blCount, extra, elems, maxCode, maxLength);
    opt := opt + delta;
    KeepZero(j, s.len, dl[..]);
    Finished(j, dl[..], blCount[..], opt);
    if Descending(j.order, j.freq) {
      LeavesCoded(j.leaves, dl[..], blCount[..], maxCode, maxLength);
      RisingIsBest(j, dl[..]);
    }
  }

  lemma LeavesCoded(leaves: set<nat>, len: seq<nat>, count: seq<nat>, maxCode: nat, top: nat)
    requires Complete(leaves, len, count, maxCode, top)
    ensures forall x | x in leaves :: x < |len| && len[x] != 0
  {}

  lemma ReadyFacts(j: Job)
    requires Ready(j)
    ensures j.Valid() && j.elems <= |j.dad| == |j.freq| && 1 <= j.top <= MAX_BITS && j.maxCode < j.elems
  {}

  lemma Repaired(count: seq<nat>, top: nat, leaves: nat)
    requires Repairing(count, top, 0, leaves)
    ensures top < |count| && Items(count, top) == leaves && count[0] == 0
  {}

  lemma KeepZero(j: Job, len: seq<nat>, len': seq<nat>)
    requires OthersZero(j, len) && |len'| == |len|
    requires forall x: nat | x < j.elems :: x in j.order <==> x in j.leaves
    requires forall x | 0 <= x < |len| && (x >= j.elems || x !in j.order) :: len'[x] == len[x]
    ensures OthersZero(j, len')
  {}

  lemma ClampedIsDeep(j: Job, s: PassState)
    requires Ready(j) && j.Within() && s == j.Visited(|j.order|)
    ensures s.overflow != 0 <==> Deep(j)
  {
    j.VisitedPass(|j.order|);
    LevelsAll(j.order, j.elems, j.leaves, s.len, j.top);
    OverflowIsDepth(j.order, j.elems, j.leaves, s.len, j.top);
  }

  lemma NotClamped(j: Job, s: PassState)
    requires Ready(j) && j.Within() && s == j.Visited(|j.order|) && s.overflow == 0
    ensures Unclamped(j, s.len)
  {
    j.VisitedPass(|j.order|);
    LevelsAll(j.order, j.elems, j.leaves, s.len, j.top);
  }

  /** A tree with two leaves is never too deep. */
  lemma TwoLeaves(j: Job, s: PassState)
    requires Ready(j) && j.Within() && s == j.Visited(|j.order|) && |j.leaves| == 2
    ensures s.overflow == 0
  {
    j.VisitedPass(|j.order|);
    assert Father(j.elems, 2, 1) == j.elems == Father(j.elems, 2, 2);
    var g := AtTop(s.len, j.top);
    assert j.order[0] == j.elems && g[j.elems] == 0;
    assert FatherSum(g, j.elems, 2, 3) == FatherSum(g, j.elems, 2, 2) + g[j.elems];
    assert FatherSum(g, j.elems, 2, 2) == FatherSum(g, j.elems, 2, 1) + g[j.elems];
  }

  lemma TwoNotDeep(j: Job)
    requires Ready(j) && |j.leaves| == 2
    ensures !Deep(j)
  {
    hide TopDown, DadsFrom, Pow2, Depth;
    ReadyFacts(j);
    RootDepth(j.order, j.elems, j.leaves);
    forall t: nat | 1 <= t < |j.order|
      ensures Depth(j.order, j.elems, j.leaves, t) == 1
    {
      var p := DepthStep(j.order, j.elems, j.leaves, t);
      assert Father(j.elems, 2, t) == j.elems;
    }
  }

  /** And both of them have length one. */
  lemma TwoLengths(j: Job, len: seq<nat>, x: nat)
    requires Unclamped(j, len) && |j.leaves| == 2 && x in j.leaves
    ensures len[x] == 1
  {
    hide TopDown, DadsFrom, Pow2, Overflow;
    ShapeFacts(j.order, j.elems, j.leaves);
    assert x in Elements(j.order);
    var t :| 0 <= t < |j.order| && j.order[t] == x;
    assert t != 0;
    assert Father(j.elems, 2, t) == j.elems == j.order[0];
  }
}
