/**
 The shape of the list that build_tree leaves in heap[heap_max..]: every node
 of a full binary tree once, the root first, and the sons of the j-th internal
 node in the j-th pair from the end.
 */
module TreeShape {
  import opened Bits
  import opened Sums

  /** The father of the node at position t, for k leaves. */
  function Father(elems: nat, k: nat, t: nat): nat
    requires t <= 2 * k - 2
  {
    elems + (2 * k - 2 - t) / 2
  }

  ghost function Internals(elems: nat, k: nat): set<nat>
    requires k >= 1
  {
    Interval(elems, elems + k - 1)
  }

  ghost predicate Shape(order: seq<nat>, elems: nat, leaves: set<nat>)
  {
    var k := |leaves|;
    && k >= 2
    && (forall x | x in leaves :: x < elems)
    && |order| == 2 * k - 1
    && multiset(order) == multiset(leaves + Internals(elems, k))
    && order[0] == elems + k - 2
    && forall t | 1 <= t < |order| :: order[t] < Father(elems, k, t)
  }

  lemma ShapeFacts(order: seq<nat>, elems: nat, leaves: set<nat>)
    requires Shape(order, elems, leaves)
    ensures Distinct(order) && Elements(order) == leaves + Internals(elems, |leaves|)
    ensures |leaves| >= 2 && |order| == 2 * |leaves| - 1
    ensures forall t | 0 <= t < |order| :: order[t] < elems + |leaves| - 1
    ensures leaves !! Internals(elems, |leaves|)
  {
    DistinctFromMultiset(order, leaves + Internals(elems, |leaves|));
    forall t | 0 <= t < |order|
      ensures order[t] < elems + |leaves| - 1
    {
      assert order[t] in Elements(order);
    }
  }

  /** Every father precedes its sons. */
  lemma FatherBefore(order: seq<nat>, elems: nat, leaves: set<nat>, t: nat) returns (p: nat)
    requires Shape(order, elems, leaves) && 1 <= t < |order|
    ensures p < t && order[p] == Father(elems, |leaves|, t)
  {
    var f := Father(elems, |leaves|, t);
    ShapeFacts(order, elems, leaves);
    assert f in Elements(order);
    p :| 0 <= p < |order| && order[p] == f;
    assert p >= 1 ==> order[p] < Father(elems, |leaves|, p);
  }

  // ----- sums over fathers -----

  /** The sum of g over the fathers of the nodes at positions 1 to i-1. */
  ghost function FatherSum(g: seq<int>, elems: nat, k: nat, i: nat): int
    requires k >= 1 && i <= 2 * k - 1 && elems + k - 1 <= |g|
  {
    if i <= 1 then 0 else FatherSum(g, elems, k, i - 1) + g[Father(elems, k, i - 1)]
  }

  lemma FatherSumStep(g: seq<int>, elems: nat, k: nat, i: nat)
    requires k >= 1 && 1 < i <= 2 * k - 1 && elems + k - 1 <= |g|
    ensures FatherSum(g, elems, k, i) == FatherSum(g, elems, k, i - 1) + g[Father(elems, k, i - 1)]
  {}

  lemma FatherSumNone(g: seq<int>, elems: nat, k: nat)
    requires k >= 1 && elems + k - 1 <= |g|
    ensures FatherSum(g, elems, k, 1) == 0
  {}

  /** Every internal node is the father of exactly two positions. */
  lemma {:induction false} FatherSumPairs(g: seq<int>, elems: nat, k: nat, j: nat)
    requires 1 <= k && j < k && elems + k - 1 <= |g|
    ensures FatherSum(g, elems, k, 2 * (k - 1 - j) + 1)
            == 2 * (RangeSum(g, elems, elems + k - 1) - RangeSum(g, elems, elems + j))
    decreases k - j
  {
    if j < k - 1 {
      FatherSumPairs(g, elems, k, j + 1);
      var t := 2 * (k - 1 - j) - 1;
      assert Father(elems, k, t) == elems + j && Father(elems, k, t + 1) == elems + j;
      assert FatherSum(g, elems, k, t + 2) == FatherSum(g, elems, k, t + 1) + g[elems + j];
      assert FatherSum(g, elems, k, t + 1) == FatherSum(g, elems, k, t) + g[elems + j];
      assert RangeSum(g, elems, elems + j + 1) == RangeSum(g, elems, elems + j) + g[elems + j];
    }
  }

  lemma FatherSumTotal(g: seq<int>, elems: nat, k: nat)
    requires 1 <= k && elems + k - 1 <= |g|
    ensures FatherSum(g, elems, k, 2 * k - 1) == 2 * Sum(Internals(elems, k), g, |g|)
  {
    FatherSumPairs(g, elems, k, 0);
    SumInterval(g, elems, elems + k - 1, |g|);
  }

  /** A sum over all nodes is a sum over leaves plus a sum over internal nodes. */
  lemma SplitSum(order: seq<nat>, elems: nat, leaves: set<nat>, g: seq<int>)
    requires Shape(order, elems, leaves) && elems + |leaves| - 1 <= |g|
    ensures forall t | 0 <= t < |order| :: order[t] < |g|
    ensures ListSum(order, g) == Sum(leaves, g, |g|) + Sum(Internals(elems, |leaves|), g, |g|)
  {
    ShapeFacts(order, elems, leaves);
    ListSumIsSum(order, g);
    SumUnion(leaves, Internals(elems, |leaves|), g, |g|);
  }

  // ----- lengths clamped at a maximum -----

  /** What the first pass of gen_bitlen leaves in the length fields. */
  ghost predicate Levels(order: seq<nat>, elems: nat, leaves: set<nat>, len: seq<nat>, top: nat)
    requires Shape(order, elems, leaves) && elems + |leaves| - 1 <= |len|
  {
    ShapeFacts(order, elems, leaves);
    && len[order[0]] == 0
    && forall t | 1 <= t < |order| ::
         len[order[t]] == (if len[Father(elems, |leaves|, t)] + 1 > top then top
               else len[Father(elems, |leaves|, t)] + 1)
  }

  /** The share of a code space of size 2^(top+1) taken by a node. */
  ghost function Credit(len: seq<nat>, top: nat): (g: seq<int>)
    ensures |g| == |len|
    ensures forall x | 0 <= x < |len| && len[x] <= top :: g[x] == Pow2(top + 1 - len[x])
  {
    seq(|len|, x requires 0 <= x < |len| => if len[x] <= top then Pow2(top + 1 - len[x]) else 0)
  }

  /** Half of that share: what each son takes from its father. */
  ghost function Half(len: seq<nat>, top: nat): (g: seq<int>)
    ensures |g| == |len|
    ensures forall x | 0 <= x < |len| && len[x] <= top :: g[x] == Pow2(top - len[x])
  {
    seq(|len|, x requires 0 <= x < |len| => if len[x] <= top then Pow2(top - len[x]) else 0)
  }

  /** One for every node at the maximal length. */
  ghost function AtTop(len: seq<nat>, top: nat): (g: seq<int>)
    ensures |g| == |len|
    ensures forall x | 0 <= x < |len| :: g[x] == if len[x] == top then 1 else 0
  {
    seq(|len|, x requires 0 <= x < |len| => if len[x] == top then 1 else 0)
  }

  /** The number of nodes whose length was clamped: the variable overflow of gen_bitlen. */
  ghost function Overflow(elems: nat, k: nat, len: seq<nat>, top: nat, i: nat): int
    requires k >= 1 && i <= 2 * k - 1 && elems + k - 1 <= |len|
  {
    FatherSum(AtTop(len, top), elems, k, i)
  }

  lemma LevelsBounded(order: seq<nat>, elems: nat, leaves: set<nat>, len: seq<nat>, top: nat)
    requires Shape(order, elems, leaves) && elems + |leaves| - 1 <= |len| && Levels(order, elems, leaves, len, top)
    ensures forall x | x in leaves + Internals(elems, |leaves|) :: x < |len| && len[x] <= top
  {
    hide Shape, Internals, Distinct, Father;
    ShapeFacts(order, elems, leaves);
    forall x | x in leaves + Internals(elems, |leaves|)
      ensures x < |len| && len[x] <= top
    {
      assert x in Elements(order);
      var t :| 0 <= t < |order| && order[t] == x;
    }
  }

  /** The nodes at positions below i take the whole code space, plus what their sons will take, plus the overflow. */
  ghost predicate CreditBalance(order: seq<nat>, elems: nat, k: nat, len: seq<nat>, top: nat, i: nat)
    requires k >= 1 && i <= |order| == 2 * k - 1 && elems + k - 1 <= |len|
    requires forall t | 0 <= t < |order| :: order[t] < |len|
  {
    ListSum(order[..i], Credit(len, top))
    == Pow2(top + 1) + FatherSum(Half(len, top), elems, k, i) + FatherSum(AtTop(len, top), elems, k, i)
  }

  lemma {:induction false} CreditPrefix(order: seq<nat>, elems: nat, leaves: set<nat>, len: seq<nat>, top: nat, i: nat)
    requires Shape(order, elems, leaves) && elems + |leaves| - 1 <= |len| && Levels(order, elems, leaves, len, top)
    requires 1 <= i <= |order|
    ensures forall t | 0 <= t < |order| :: order[t] < |len|
    ensures CreditBalance(order, elems, |leaves|, len, top, i)
  {
    hide CreditBalance, Levels, Shape, Distinct, Elements, Internals, Credit, Half, AtTop, Pow2;
    ShapeFacts(order, elems, leaves);
    if i == 1 {
      CreditStep(order, elems, leaves, len, top, 0);
      CreditFirst(order, elems, |leaves|, len, top);
    } else {
      CreditPrefix(order, elems, leaves, len, top, i - 1);
      CreditStep(order, elems, leaves, len, top, i - 1);
      CreditNext(order, elems, |leaves|, len, top, i);
    }
  }

  lemma CreditFirst(order: seq<nat>, elems: nat, k: nat, len: seq<nat>, top: nat)
    requires k >= 1 && |order| == 2 * k - 1 && elems + k - 1 <= |len|
    requires forall t | 0 <= t < |order| :: order[t] < |len|
    requires Credit(len, top)[order[0]] == Pow2(top + 1)
    ensures CreditBalance(order, elems, k, len, top, 1)
  {
    hide Pow2, Credit, Half, AtTop;
    ListSumStep(order, Credit(len, top), 1);
    ListSumNone(order, Credit(len, top));
  }

  lemma CreditNext(order: seq<nat>, elems: nat, k: nat, len: seq<nat>, top: nat, i: nat)
    requires k >= 1 && 1 < i <= |order| == 2 * k - 1 && elems + k - 1 <= |len|
    requires forall t | 0 <= t < |order| :: order[t] < |len|
    requires CreditBalance(order, elems, k, len, top, i - 1)
    requires var f := Father(elems, k, i - 1);
             Credit(len, top)[order[i - 1]] == Half(len, top)[f] + AtTop(len, top)[f]
    ensures CreditBalance(order, elems, k, len, top, i)
  {
    hide Pow2, Credit, Half, AtTop, ListSum;
    ListSumStep(order, Credit(len, top), i);
  }

  lemma CreditStep(order: seq<nat>, elems: nat, leaves: set<nat>, len: seq<nat>, top: nat, t: nat)
    requires Shape(order, elems, leaves) && elems + |leaves| - 1 <= |len| && Levels(order, elems, leaves, len, top)
    requires t < |order| && order[t] < |len|
    ensures t == 0 ==> Credit(len, top)[order[0]] == Pow2(top + 1)
    ensures var f := Father(elems, |leaves|, t);
            t > 0 ==> f < |len| && Credit(len, top)[order[t]] == Half(len, top)[f] + AtTop(len, top)[f]
  {
    hide Shape, Levels, Credit, Half, AtTop, Pow2;
    LevelAt(order, elems, leaves, len, top, t);
    NodeWeights(len, top, order[t]);
    if t > 0 {
      var f := Father(elems, |leaves|, t);
      NodeWeights(len, top, f);
      OneNode(len[f], len[order[t]], top);
    }
  }

  lemma LevelAt(order: seq<nat>, elems: nat, leaves: set<nat>, len: seq<nat>, top: nat, t: nat)
    requires Shape(order, elems, leaves) && elems + |leaves| - 1 <= |len| && Levels(order, elems, leaves, len, top)
    requires t < |order|
    ensures |order| == 2 * |leaves| - 1 && order[t] < |len| && len[order[t]] <= top
    ensures t == 0 ==> len[order[t]] == 0
    ensures var f := Father(elems, |leaves|, t);
            t > 0 ==> f < |len| && len[f] <= top && len[order[t]] == if len[f] + 1 > top then top else len[f] + 1
  {
    ShapeFacts(order, elems, leaves);
    LevelsBounded(order, elems, leaves, len, top);
    assert t > 0 ==> Father(elems, |leaves|, t) in Internals(elems, |leaves|);
  }

  /** A son takes half of its father's share, and one unit more when it is clamped. */
  lemma OneNode(father: nat, son: nat, top: nat)
    requires father <= top && son == if father + 1 > top then top else father + 1
    ensures Pow2(top + 1 - son) == Pow2(top - father) + (if father == top then 1 else 0)
  {}

  lemma NodeWeights(len: seq<nat>, top: nat, x: nat)
    requires x < |len| && len[x] <= top
    ensures Credit(len, top)[x] == Pow2(top + 1 - len[x])
    ensures Half(len, top)[x] == Pow2(top - len[x])
    ensures AtTop(len, top)[x] == if len[x] == top then 1 else 0
  {}

  /**
   After clamping, the leaves take the whole code space plus half a unit for
   every clamped node: the overflow count is exactly twice the Kraft excess.
   */
  lemma KraftExcess(order: seq<nat>, elems: nat, leaves: set<nat>, len: seq<nat>, top: nat)
    requires Shape(order, elems, leaves) && elems + |leaves| - 1 <= |len| && Levels(order, elems, leaves, len, top)
    ensures Sum(leaves, Credit(len, top), |len|)
            == Pow2(top + 1) + Overflow(elems, |leaves|, len, top, 2 * |leaves| - 1)
  {
    hide FatherSum;
    var k := |leaves|;
    CreditPrefix(order, elems, leaves, len, top, |order|);
    assert order[..|order|] == order;
    SplitSum(order, elems, leaves, Credit(len, top));
    FatherSumTotal(Half(len, top), elems, k);
    LevelsBounded(order, elems, leaves, len, top);
    Doubling(Internals(elems, k), len, top);
  }

  lemma Doubling(S: set<nat>, len: seq<nat>, top: nat)
    requires forall x | x in S && x < |len| :: len[x] <= top
    ensures Sum(S, Credit(len, top), |len|) == 2 * Sum(S, Half(len, top), |len|)
  {
    forall x | x in S && x < |len|
      ensures Credit(len, top)[x] == Half(len, top)[x] + 1 * Half(len, top)[x]
    {}
    SumLinear(S, Half(len, top), Half(len, top), 1, Credit(len, top), |len|);
  }

  lemma {:induction false} TopPrefix(order: seq<nat>, elems: nat, leaves: set<nat>, len: seq<nat>, top: nat, i: nat)
    requires Shape(order, elems, leaves) && elems + |leaves| - 1 <= |len| && Levels(order, elems, leaves, len, top)
    requires 1 <= i <= |order|
    ensures forall t | 0 <= t < |order| :: order[t] < |len|
    ensures ListSum(order[..i], AtTop(len, top)) >= Overflow(elems, |leaves|, len, top, i)
  {
    hide Shape, Levels, ListSum, FatherSum, Elements, Distinct, Internals;
    ShapeFacts(order, elems, leaves);
    ListSumStep(order, AtTop(len, top), i);
    LevelAt(order, elems, leaves, len, top, i - 1);
    if i > 1 {
      TopPrefix(order, elems, leaves, len, top, i - 1);
      FatherSumStep(AtTop(len, top), elems, |leaves|, i);
    } else {
      ListSumNone(order, AtTop(len, top));
      FatherSumNone(AtTop(len, top), elems, |leaves|);
    }
  }

  /** At least half of the clamped nodes are leaves. */
  lemma ClampedLeaves(order: seq<nat>, elems: nat, leaves: set<nat>, len: seq<nat>, top: nat)
    requires Shape(order, elems, leaves) && elems + |leaves| - 1 <= |len| && Levels(order, elems, leaves, len, top)
    ensures 2 * Sum(leaves, AtTop(len, top), |len|) >= Overflow(elems, |leaves|, len, top, 2 * |leaves| - 1)
  {
    TopPrefix(order, elems, leaves, len, top, |order|);
    assert order[..|order|] == order;
    SplitSum(order, elems, leaves, AtTop(len, top));
    FatherSumTotal(AtTop(len, top), elems, |leaves|);
  }

  // ----- the depth of the tree -----

  lemma FatherExists(order: seq<nat>, elems: nat, leaves: set<nat>, t: nat)
    requires Shape(order, elems, leaves) && 1 <= t < |order|
    ensures exists p: nat :: p < t && order[p] == Father(elems, |leaves|, t)
  {
    var p := FatherBefore(order, elems, leaves, t);
  }

  /** How far below the root the node at position t is. */
  ghost function Depth(order: seq<nat>, elems: nat, leaves: set<nat>, t: nat): nat
    requires Shape(order, elems, leaves) && t < |order|
    decreases t
  {
    if t == 0 then 0
    else
      FatherExists(order, elems, leaves, t);
      var p: nat :| p < t && order[p] == Father(elems, |leaves|, t);
      Depth(order, elems, leaves, p) + 1
  }

  lemma DepthStep(order: seq<nat>, elems: nat, leaves: set<nat>, t: nat) returns (p: nat)
    requires Shape(order, elems, leaves) && 1 <= t < |order|
    ensures p < t && order[p] == Father(elems, |leaves|, t)
            && Depth(order, elems, leaves, t) == Depth(order, elems, leaves, p) + 1
  {
    FatherExists(order, elems, leaves, t);
    p :| p < t && order[p] == Father(elems, |leaves|, t)
        && Depth(order, elems, leaves, t) == Depth(order, elems, leaves, p) + 1;
  }

  /** Clamped lengths are the depths, as far as the maximum. */
  lemma {:induction false} LevelIsDepth(order: seq<nat>, elems: nat, leaves: set<nat>, len: seq<nat>, top: nat, t: nat)
    requires Shape(order, elems, leaves) && elems + |leaves| - 1 <= |len| && Levels(order, elems, leaves, len, top)
             && t < |order|
    ensures order[t] < |len|
    ensures var d := Depth(order, elems, leaves, t);
            len[order[t]] == if d > top then top else d
    decreases t
  {
    hide Shape, Depth;
    ShapeFacts(order, elems, leaves);
    if t == 0 {
      RootDepth(order, elems, leaves);
    } else {
      var p := DepthStep(order, elems, leaves, t);
      LevelIsDepth(order, elems, leaves, len, top, p);
    }
  }

  lemma RootDepth(order: seq<nat>, elems: nat, leaves: set<nat>)
    requires Shape(order, elems, leaves)
    ensures |order| > 0 && Depth(order, elems, leaves, 0) == 0
  {}

  lemma {:induction false} FatherSumZero(g: seq<int>, elems: nat, k: nat, i: nat)
    requires k >= 1 && i <= 2 * k - 1 && elems + k - 1 <= |g| && forall x | 0 <= x < |g| :: g[x] >= 0
    ensures FatherSum(g, elems, k, i) >= 0
    ensures FatherSum(g, elems, k, i) == 0 <==> forall t | 1 <= t < i :: g[Father(elems, k, t)] == 0
  {
    if i > 1 {
      FatherSumZero(g, elems, k, i - 1);
    }
  }

  /** Some node is deeper than the maximum. */
  ghost predicate TooDeep(order: seq<nat>, elems: nat, leaves: set<nat>, top: nat)
    requires Shape(order, elems, leaves)
  {
    exists t: nat | t < |order| :: Depth(order, elems, leaves, t) > top
  }

  /** Lengths were clamped exactly if the tree is too deep. */
  lemma OverflowIsDepth(order: seq<nat>, elems: nat, leaves: set<nat>, len: seq<nat>, top: nat)
    requires Shape(order, elems, leaves) && elems + |leaves| - 1 <= |len| && Levels(order, elems, leaves, len, top)
    ensures Overflow(elems, |leaves|, len, top, 2 * |leaves| - 1) != 0 <==> TooDeep(order, elems, leaves, top)
  {
    hide Shape, Depth, Levels, FatherSum;
    ShapeFacts(order, elems, leaves);
    var g, k := AtTop(len, top), |leaves|;
    FatherSumZero(g, elems, k, 2 * k - 1);
    forall t: nat | 1 <= t < |order|
      ensures g[Father(elems, k, t)] != 0 <==> Depth(order, elems, leaves, t) > top
    {
      var p := DepthStep(order, elems, leaves, t);
      LevelIsDepth(order, elems, leaves, len, top, p);
    }
    RootDepth(order, elems, leaves);
  }
}
