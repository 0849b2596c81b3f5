/**
 Merging the two least frequent trees is optimal: no assignment of code lengths
 that fits the code space gives a smaller total than the tree does.
 */
module Optimality {
  import opened Bits
  import opened Sums
  import opened TreeShape
  import opened Forest

  /** The share of a code space of size 2^top taken by each length. */
  ghost function Shares(len: seq<nat>, top: nat): (g: seq<int>)
    ensures |g| == |len|
    ensures forall x | 0 <= x < |len| && len[x] <= top :: g[x] == Pow2(top - len[x])
  {
    seq(|len|, x requires 0 <= x < |len| => if len[x] <= top then Pow2(top - len[x]) else 0)
  }

  /** Frequency times length. */
  ghost function Products(freq: seq<nat>, len: seq<nat>): (g: seq<int>)
    requires |freq| == |len|
    ensures |g| == |len|
    ensures forall x | 0 <= x < |len| :: g[x] == freq[x] * len[x]
  {
    seq(|len|, x requires 0 <= x < |len| => freq[x] * len[x])
  }

  /** The lengths of the members of S can be those of a prefix code. */
  ghost predicate Fits(S: set<nat>, len: seq<nat>, top: nat)
  {
    && (forall x | x in S :: x < |len| && len[x] <= top)
    && Sum(S, Shares(len, top), |len|) <= Pow2(top)
  }

  ghost function Weighted(S: set<nat>, freq: seq<nat>, len: seq<nat>): int
    requires |freq| == |len|
  {
    Sum(S, Products(freq, len), |len|)
  }

  // ----- one member apart from the others -----

  lemma ShareApart(S: set<nat>, x: nat, len: seq<nat>, top: nat)
    requires x in S && x < |len| && len[x] <= top
    ensures Sum(S, Shares(len, top), |len|) == Sum(S - {x}, Shares(len, top), |len|) + Pow2(top - len[x])
  {
    assert (S - {x}) + {x} == S;
    SumAdd(S - {x}, x, Shares(len, top), |len|);
  }

  lemma CostApart(S: set<nat>, x: nat, freq: seq<nat>, len: seq<nat>)
    requires x in S && x < |len| == |freq|
    ensures Weighted(S, freq, len) == Weighted(S - {x}, freq, len) + freq[x] * len[x]
  {
    assert (S - {x}) + {x} == S;
    SumAdd(S - {x}, x, Products(freq, len), |len|);
  }

  lemma SharesElsewhere(S: set<nat>, x: nat, v: nat, len: seq<nat>, top: nat)
    requires x !in S && x < |len| && forall y | y in S && y < |len| :: len[y] <= top
    ensures Sum(S, Shares(len[x := v], top), |len|) == Sum(S, Shares(len, top), |len|)
  {
    SumCongruent(S, Shares(len[x := v], top), Shares(len, top), |len|);
  }

  lemma CostElsewhere(S: set<nat>, x: nat, v: nat, freq: seq<nat>, len: seq<nat>)
    requires x !in S && x < |len| == |freq|
    ensures Weighted(S, freq, len[x := v]) == Weighted(S, freq, len)
  {
    SumCongruent(S, Products(freq, len[x := v]), Products(freq, len), |len|);
  }

  // ----- exchanging two lengths -----

  function Swapped(len: seq<nat>, a: nat, p: nat): (r: seq<nat>)
    requires a < |len| && p < |len|
    ensures |r| == |len|
  {
    len[a := len[p]][p := len[a]]
  }

  lemma SwapFits(S: set<nat>, len: seq<nat>, top: nat, a: nat, p: nat)
    requires Fits(S, len, top) && a in S && p in S
    ensures Fits(S, Swapped(len, a, p), top)
  {
    hide Shares, Pow2;
    if a == p {
      assert Swapped(len, a, p) == len;
    } else {
      var mid := len[a := len[p]];
      var rest := S - {a} - {p};
      ShareApart(S, a, len, top);
      ShareApart(S - {a}, p, len, top);
      ShareApart(S, a, Swapped(len, a, p), top);
      ShareApart(S - {a}, p, Swapped(len, a, p), top);
      SharesElsewhere(rest, a, len[p], len, top);
      SharesElsewhere(rest, p, len[a], mid, top);
    }
  }

  /** Giving the longer code to the less frequent member does not cost more. */
  lemma SwapCost(S: set<nat>, freq: seq<nat>, len: seq<nat>, a: nat, p: nat)
    requires a in S && p in S && a < |len| && p < |len| == |freq|
    requires freq[a] <= freq[p] && len[a] <= len[p]
    ensures Weighted(S, freq, Swapped(len, a, p)) <= Weighted(S, freq, len)
  {
    hide Weighted;
    if a == p {
      assert Swapped(len, a, p) == len;
    } else {
      var mid := len[a := len[p]];
      var rest := S - {a} - {p};
      CostApart(S, a, freq, len);
      CostApart(S - {a}, p, freq, len);
      CostApart(S, a, freq, Swapped(len, a, p));
      CostApart(S - {a}, p, freq, Swapped(len, a, p));
      CostElsewhere(rest, a, len[p], freq, len);
      CostElsewhere(rest, p, len[a], freq, mid);
      Rearrangement(freq[a], freq[p], len[a], len[p]);
    }
  }

  lemma Rearrangement(f: nat, g: nat, l: nat, m: nat)
    requires f <= g && l <= m
    ensures f * m + g * l <= f * l + g * m
  {
    assert (g - f) * (m - l) >= 0;
    assert (g - f) * (m - l) == g * m - g * l - f * m + f * l;
  }

  lemma {:induction false} Longest(S: set<nat>, len: seq<nat>, n: nat) returns (p: nat)
    requires n <= |len| && exists x :: x in S && x < n
    ensures p in S && p < n && forall x | x in S && x < n :: len[x] <= len[p]
  {
    if n - 1 in S && forall x | x in S && x < n - 1 :: len[x] <= len[n - 1] {
      p := n - 1;
    } else {
      p := Longest(S, len, n - 1);
    }
  }

  // ----- shortening the longest code -----

  lemma {:induction false} SharesMultiple(S: set<nat>, len: seq<nat>, top: nat, m: nat, n: nat) returns (q: int)
    requires n <= |len| && m <= top && forall x | x in S && x < n :: len[x] <= m
    ensures Sum(S, Shares(len, top), n) == q * Pow2(top - m) && q >= 0
    ensures forall x | x in S && x < n :: q >= 1
  {
    hide Pow2, Shares;
    if n == 0 {
      q := 0;
    } else {
      q := SharesMultiple(S, len, top, m, n - 1);
      if n - 1 in S {
        var l := len[n - 1];
        Pow2Add(m - l, top - m);
        ShareAt(len, top, n - 1);
        Distribute(q, Pow2(m - l), Pow2(top - m));
        q := q + Pow2(m - l);
      }
    }
  }

  lemma ShareAt(len: seq<nat>, top: nat, x: nat)
    requires x < |len| && len[x] <= top
    ensures Shares(len, top)[x] == Pow2(top - len[x])
  {}

  lemma Distribute(q: int, r: int, p: int)
    ensures q * p + r * p == (q + r) * p
  {}

  /** If all other lengths are at most m, length m is enough for x too, and m is not zero. */
  lemma Shorten(S: set<nat>, len: seq<nat>, top: nat, x: nat, y: nat)
    requires Fits(S, len, top) && x in S && y in S && x != y
    requires len[x] >= len[y] && forall z | z in S && z != x :: len[z] <= len[y]
    ensures Fits(S, len[x := len[y]], top) && len[y] >= 1
  {
    hide Pow2, Shares;
    var m := len[y];
    var len' := len[x := m];
    ShareApart(S, x, len, top);
    ShareApart(S, x, len', top);
    SharesElsewhere(S - {x}, x, m, len, top);
    var q := SharesMultiple(S - {x}, len, top, m, |len|);
    assert y in S - {x} && y < |len|;
    Pow2Add(m, top - m);
    assert Pow2(top - len[x]) >= 1;
    RoundUp(q, Pow2(m), Pow2(top - m), Pow2(top - len[x]));
    NotZero(m, q);
  }

  lemma RoundUp(q: int, r: int, p: int, e: int)
    requires p >= 1 && e >= 1 && q * p + e <= r * p
    ensures (q + 1) * p <= r * p && q + 1 <= r
  {
    if q >= r {
      Monotone(r, q, p);
    } else {
      Monotone(q + 1, r, p);
    }
  }

  lemma Monotone(q: int, r: int, p: int)
    requires q <= r && p >= 1
    ensures q * p <= r * p
  {}

  lemma NotZero(m: nat, q: int)
    requires q >= 1 && q + 1 <= Pow2(m)
    ensures m >= 1
  {}

  // ----- merging two members of equal length -----

  /** The members a and b replaced by their father c, one bit shorter. */
  lemma MergePair(S: set<nat>, freq: seq<nat>, len: seq<nat>, top: nat, a: nat, b: nat, c: nat)
    requires Fits(S, len, top) && a in S && b in S && a != b && c !in S && c < |len| == |freq|
    requires len[a] == len[b] >= 1 && freq[c] == freq[a] + freq[b]
    ensures var len' := len[c := len[b] - 1];
            && Fits(S - {a, b} + {c}, len', top)
            && Weighted(S, freq, len) == Weighted(S - {a, b} + {c}, freq, len') + freq[a] + freq[b]
  {
    hide Pow2, Shares, Weighted;
    var m := len[b];
    var len' := len[c := m - 1];
    var rest := S - {a} - {b};
    var S' := S - {a, b} + {c};
    assert S' - {c} == rest;
    ShareApart(S, a, len, top);
    ShareApart(S - {a}, b, len, top);
    ShareApart(S', c, len', top);
    SharesElsewhere(rest, c, m - 1, len, top);
    TwoShares(top, m);
    CostApart(S, a, freq, len);
    CostApart(S - {a}, b, freq, len);
    CostApart(S', c, freq, len');
    CostElsewhere(rest, c, m - 1, freq, len);
    OneBit(freq[a], freq[b], m);
  }

  lemma TwoShares(top: nat, m: nat)
    requires 1 <= m <= top
    ensures 2 * Pow2(top - m) == Pow2(top - (m - 1))
  {}

  lemma OneBit(f: nat, g: nat, m: nat)
    requires m >= 1
    ensures f * m + g * m == (f + g) * (m - 1) + f + g
  {}

  // ----- the exchange argument -----

  /**
   From any fitting lengths, those of a merged collection: if a and b are the
   two least frequent members, merging them saves at least their frequencies.
   */
  lemma Exchange(S: set<nat>, freq: seq<nat>, len: seq<nat>, top: nat, a: nat, b: nat, c: nat) returns (len': seq<nat>)
    requires Fits(S, len, top) && a in S && b in S && a != b && c !in S && c < |len| == |freq|
    requires forall x | x in S :: x < |freq| && freq[a] <= freq[x] && (x != a ==> freq[b] <= freq[x])
    requires freq[c] == freq[a] + freq[b]
    ensures |len'| == |len| && Fits(S - {a, b} + {c}, len', top)
    ensures Weighted(S, freq, len) >= Weighted(S - {a, b} + {c}, freq, len') + freq[a] + freq[b]
  {
    hide Weighted, Shares, Pow2;
    var p := Longest(S, len, |len|);
    SwapFits(S, len, top, a, p);
    SwapCost(S, freq, len, a, p);
    var one := Swapped(len, a, p);
    assert b in S - {a} && b < |len|;
    var q := Longest(S - {a}, one, |len|);
    SwapFits(S, one, top, b, q);
    SwapCost(S, freq, one, b, q);
    var two := Swapped(one, b, q);
    Shorten(S, two, top, a, b);
    var three := two[a := two[b]];
    ShorterCost(S, freq, two, a, two[b]);
    MergePair(S, freq, three, top, a, b, c);
    len' := three[c := three[b] - 1];
  }

  lemma ShorterCost(S: set<nat>, freq: seq<nat>, len: seq<nat>, a: nat, v: nat)
    requires a in S && a < |len| == |freq| && v <= len[a]
    ensures Weighted(S, freq, len[a := v]) <= Weighted(S, freq, len)
  {
    hide Weighted;
    CostApart(S, a, freq, len);
    CostApart(S, a, freq, len[a := v]);
    CostElsewhere(S - {a}, a, v, freq, len);
    assert freq[a] * v <= freq[a] * len[a];
  }

  // ----- the list that build_tree leaves behind -----

  /** The two nodes that the j-th merge took out of the heap. */
  function First(order: seq<nat>, j: nat): nat
    requires 2 * j + 2 <= |order|
  {
    order[|order| - 1 - 2 * j]
  }

  function Second(order: seq<nat>, j: nat): nat
    requires 2 * j + 2 <= |order|
  {
    order[|order| - 2 - 2 * j]
  }

  /** The list is sorted by frequency, and every father has the sum of its sons' frequencies. */
  ghost predicate Greedy(order: seq<nat>, elems: nat, k: nat, freq: seq<nat>)
  {
    && k >= 2 && |order| == 2 * k - 1 && elems + k - 1 <= |freq| && (forall t | 0 <= t < |order| :: order[t] < |freq|)
    && (forall s, t | 0 <= s <= t < |order| :: freq[order[s]] >= freq[order[t]])
    && forall j | 0 <= j < k - 1 ::
         freq[elems + j] == freq[First(order, j)] + freq[Second(order, j)]
  }

  /** The trees that remain after j merges. */
  ghost function Trees(order: seq<nat>, elems: nat, leaves: set<nat>, j: nat): set<nat>
    requires 2 * j <= |order|
  {
    AllNodes(leaves, elems, elems + j) - Elements(order[|order| - 2 * j..])
  }

  /** The j-th merge takes the two least frequent trees. */
  lemma NextMerge(order: seq<nat>, elems: nat, leaves: set<nat>, freq: seq<nat>, j: nat)
    requires Shape(order, elems, leaves) && Greedy(order, elems, |leaves|, freq) && j < |leaves| - 1
    ensures var a, b, c := First(order, j), Second(order, j), elems + j;
            var S := Trees(order, elems, leaves, j);
            && a in S && b in S && a != b && c !in S && c < |freq|
            && Trees(order, elems, leaves, j + 1) == S - {a, b} + {c}
            && (forall x | x in S :: x < |freq| && freq[a] <= freq[x] && (x != a ==> freq[b] <= freq[x]))
  {
    hide Shape, Greedy, Trees, First, Second;
    ShapeFacts(order, elems, leaves);
    MergeOfTrees(order, elems, leaves, j);
    SmallestTrees(order, elems, leaves, freq, j);
  }

  lemma MergeOfTrees(order: seq<nat>, elems: nat, leaves: set<nat>, j: nat)
    requires Shape(order, elems, leaves) && j < |leaves| - 1
    ensures var a, b, c := First(order, j), Second(order, j), elems + j;
            var S := Trees(order, elems, leaves, j);
            && a in S && b in S && a != b && c !in S
            && Trees(order, elems, leaves, j + 1) == S - {a, b} + {c}
  {
    hide Elements, Distinct, Shape, Father, Interval, Internals;
    ShapeFacts(order, elems, leaves);
    PairBelow(order, elems, leaves, j);
    InTrees(order, elems, leaves, j, |order| - 1 - 2 * j);
    InTrees(order, elems, leaves, j, |order| - 2 - 2 * j);
    FatherLater(order, elems, leaves, j);
    LastTwo(order, j);
    DistinctAt(order, elems, leaves, |order| - 2 - 2 * j, |order| - 1 - 2 * j);
    TreesStep(order, elems, leaves, j);
  }

  lemma TreesStep(order: seq<nat>, elems: nat, leaves: set<nat>, j: nat)
    requires 2 * j + 2 <= |order|
    requires Elements(order[|order| - 2 * (j + 1)..]) == {First(order, j),
             Second(order, j)} + Elements(order[|order| - 2 * j..])
    requires elems + j !in Elements(order[|order| - 2 * (j + 1)..])
    ensures Trees(order, elems, leaves, j + 1) == Trees(order, elems, leaves, j) - {First(order, j),
            Second(order, j)} + {elems + j}
  {
    hide Elements, First, Second;
    assert AllNodes(leaves, elems, elems + (j + 1)) == AllNodes(leaves, elems, elems + j) + {elems + j};
  }

  lemma PairBelow(order: seq<nat>, elems: nat, leaves: set<nat>, j: nat)
    requires Shape(order, elems, leaves) && j < |leaves| - 1
    ensures First(order, j) < elems + j && Second(order, j) < elems + j
  {
    var n := |order| - 2 * j;
    assert order[n - 1] < Father(elems, |leaves|, n - 1);
    assert order[n - 2] < Father(elems, |leaves|, n - 2);
  }

  lemma LastTwo(order: seq<nat>, j: nat)
    requires 2 * j + 2 <= |order|
    ensures Elements(order[|order| - 2 * (j + 1)..]) == {First(order, j),
            Second(order, j)} + Elements(order[|order| - 2 * j..])
  {
    var n := |order| - 2 * j;
    assert order[n - 2..] == [order[n - 2], order[n - 1]] + order[n..];
  }

  lemma DistinctAt(order: seq<nat>, elems: nat, leaves: set<nat>, s: nat, t: nat)
    requires Shape(order, elems, leaves) && s < t < |order|
    ensures order[s] != order[t]
  {
    ShapeFacts(order, elems, leaves);
  }

  lemma SmallestTrees(order: seq<nat>, elems: nat, leaves: set<nat>, freq: seq<nat>, j: nat)
    requires Shape(order, elems, leaves) && Greedy(order, elems, |leaves|, freq) && j < |leaves| - 1
    ensures |order| == 2 * |leaves| - 1 && elems + j < |freq| && First(order, j) < |freq| && Second(order, j) < |freq|
    ensures forall x | x in Trees(order, elems, leaves, j) ::
              x < |freq| && freq[First(order, j)] <= freq[x]
                  && (x != First(order, j) ==> freq[Second(order, j)] <= freq[x])
  {
    hide Shape, Trees;
    forall x | x in Trees(order, elems, leaves, j)
      ensures x < |freq| && freq[First(order, j)] <= freq[x]
              && (x != First(order, j) ==> freq[Second(order, j)] <= freq[x])
    {
      var t := PlaceOf(order, elems, leaves, j, x);
      SortedAt(order, elems, |leaves|, freq, t, |order| - 1 - 2 * j);
      if x != First(order, j) {
        SortedAt(order, elems, |leaves|, freq, t, |order| - 2 - 2 * j);
      }
    }
  }

  lemma SortedAt(order: seq<nat>, elems: nat, k: nat, freq: seq<nat>, s: nat, t: nat)
    requires Greedy(order, elems, k, freq) && s <= t < |order|
    ensures freq[order[s]] >= freq[order[t]]
  {}

  lemma InTrees(order: seq<nat>, elems: nat, leaves: set<nat>, j: nat, t: nat)
    requires Shape(order, elems, leaves) && j < |leaves| - 1 && 1 <= t < |order| - 2 * j && order[t] < elems + j
    ensures order[t] in Trees(order, elems, leaves, j)
  {
    ShapeFacts(order, elems, leaves);
    assert order[t] in Elements(order);
    NotInSuffix(order, |order| - 2 * j, t);
  }

  lemma NotInSuffix(order: seq<nat>, n: nat, t: nat)
    requires Distinct(order) && t < n <= |order|
    ensures order[t] !in order[n..]
  {
    forall i | 0 <= i < |order[n..]|
      ensures order[n..][i] != order[t]
    {
      assert order[n..][i] == order[n + i];
    }
  }

  lemma InSuffix(order: seq<nat>, n: nat, t: nat)
    requires n <= |order| && t < |order|
    ensures t >= n ==> order[t] in order[n..]
  {
    if t >= n {
      assert order[n..][t - n] == order[t];
    }
  }

  lemma FatherLater(order: seq<nat>, elems: nat, leaves: set<nat>, j: nat)
    requires Shape(order, elems, leaves) && j < |leaves| - 1
    ensures elems + j !in Elements(order[|order| - 2 * (j + 1)..]) && elems + j !in AllNodes(leaves, elems, elems + j)
  {
    var n := |order| - 2 * j - 2;
    forall i | 0 <= i < |order[n..]|
      ensures order[n..][i] < elems + j
    {
      assert order[n..][i] == order[n + i] < Father(elems, |leaves|, n + i);
    }
  }

  lemma PlaceOf(order: seq<nat>, elems: nat, leaves: set<nat>, j: nat, x: nat) returns (t: nat)
    requires Shape(order, elems, leaves) && j < |leaves| - 1 && x in Trees(order, elems, leaves, j)
    ensures t < |order| - 2 * j && order[t] == x
  {
    ShapeFacts(order, elems, leaves);
    assert x in Elements(order);
    t :| 0 <= t < |order| && order[t] == x;
    InSuffix(order, |order| - 2 * j, t);
  }

  lemma NoMerges(order: seq<nat>, elems: nat, leaves: set<nat>)
    ensures Trees(order, elems, leaves, 0) == leaves
  {
    assert order[|order| - 2 * 0..] == [];
    assert AllNodes(leaves, elems, elems + 0) == leaves;
  }

  lemma {:induction false} RangeSumLow(g: seq<int>, lo: nat, hi: nat)
    requires lo < hi <= |g|
    ensures RangeSum(g, lo, hi) == g[lo] + RangeSum(g, lo + 1, hi)
  {
    if lo + 1 < hi {
      RangeSumLow(g, lo, hi - 1);
    }
  }

  /** Whatever lengths are chosen, they cost at least the frequencies of the merges still to come. */
  lemma {:induction false} LowerBound(order: seq<nat>, elems: nat, leaves: set<nat>, freq: seq<nat>, j: nat,
                                      len: seq<nat>, top: nat)
    requires Shape(order, elems, leaves) && Greedy(order, elems, |leaves|, freq) && j <= |leaves| - 1
    requires |len| == |freq| && 2 * j <= |order| && Fits(Trees(order, elems, leaves, j), len, top)
    ensures elems + |leaves| - 1 <= |freq|
    ensures Weighted(Trees(order, elems, leaves, j), freq, len) >= RangeSum(freq, elems + j, elems + |leaves| - 1)
    decreases |leaves| - j
  {
    hide Shape, Fits, Trees, Weighted, First, Second;
    var k := |leaves|;
    if j == k - 1 {
      WeightedNonNegative(Trees(order, elems, leaves, j), freq, len);
    } else {
      var S := Trees(order, elems, leaves, j);
      NextMerge(order, elems, leaves, freq, j);
      assert freq[elems + j] == freq[First(order, j)] + freq[Second(order, j)];
      var len' := Exchange(S, freq, len, top, First(order, j), Second(order, j), elems + j);
      LowerBound(order, elems, leaves, freq, j + 1, len', top);
      RangeSumLow(freq, elems + j, elems + k - 1);
    }
  }

  lemma WeightedNonNegative(S: set<nat>, freq: seq<nat>, len: seq<nat>)
    requires |freq| == |len|
    ensures Weighted(S, freq, len) >= 0
  {
    SumAtLeastZero(S, Products(freq, len), |len|);
  }

  lemma {:induction false} SumAtLeastZero(S: set<nat>, g: seq<int>, n: nat)
    requires n <= |g| && forall x | 0 <= x < n :: g[x] >= 0
    ensures Sum(S, g, n) >= 0
  {
    if n > 0 {
      SumAtLeastZero(S, g, n - 1);
    }
  }

  // ----- the cost of the tree -----

  /** Without clamping, every son is one longer than its father. */
  ghost predicate Exact(order: seq<nat>, elems: nat, k: nat, len: seq<nat>)
  {
    && k >= 2 && |order| == 2 * k - 1 && elems + k - 1 <= |len| && (forall t | 0 <= t < |order| :: order[t] < |len|)
    && len[order[0]] == 0
    && forall t | 1 <= t < |order| :: len[order[t]] == len[Father(elems, k, t)] + 1
  }

  lemma ExactLevels(order: seq<nat>, elems: nat, leaves: set<nat>, len: seq<nat>, top: nat)
    requires Shape(order, elems, leaves) && elems + |leaves| - 1 <= |len| && Levels(order, elems, leaves, len, top)
    requires Overflow(elems, |leaves|, len, top, 2 * |leaves| - 1) == 0
    ensures Exact(order, elems, |leaves|, len)
  {
    hide Shape, Levels, Overflow;
    ShapeFacts(order, elems, leaves);
    LevelAt(order, elems, leaves, len, top, 0);
    forall t | 1 <= t < |order|
      ensures len[order[t]] == len[Father(elems, |leaves|, t)] + 1
    {
      ExactAt(order, elems, leaves, len, top, t);
    }
  }

  lemma ExactAt(order: seq<nat>, elems: nat, leaves: set<nat>, len: seq<nat>, top: nat, t: nat)
    requires Shape(order, elems, leaves) && elems + |leaves| - 1 <= |len| && Levels(order, elems, leaves, len, top)
    requires Overflow(elems, |leaves|, len, top, 2 * |leaves| - 1) == 0 && 1 <= t < |order|
    ensures |order| == 2 * |leaves| - 1 && order[t] < |len| && Father(elems, |leaves|, t) < |len|
    ensures len[order[t]] == len[Father(elems, |leaves|, t)] + 1
  {
    hide Shape, Levels, FatherSum;
    ShapeFacts(order, elems, leaves);
    FatherSumZero(AtTop(len, top), elems, |leaves|, |order|);
    LevelAt(order, elems, leaves, len, top, t);
  }

  lemma PairCost(order: seq<nat>, elems: nat, k: nat, freq: seq<nat>, len: seq<nat>, j: nat)
    requires Greedy(order, elems, k, freq) && Exact(order, elems, k, len) && |freq| == |len| && j < k - 1
    ensures Products(freq, len)[First(order, j)] + Products(freq, len)[Second(order, j)]
            == Products(freq, len)[elems + j] + freq[elems + j]
  {
    var n := |order| - 2 * j;
    var a, b, f := First(order, j), Second(order, j), elems + j;
    assert Father(elems, k, n - 1) == f && Father(elems, k, n - 2) == f;
    assert len[order[n - 1]] == len[f] + 1 && len[order[n - 2]] == len[f] + 1;
    SumUp(freq[a], freq[b], len[f]);
  }

  lemma SumUp(f: nat, g: nat, l: nat)
    ensures f * (l + 1) + g * (l + 1) == (f + g) * l + (f + g)
  {}

  lemma {:induction false} PrefixCost(order: seq<nat>, elems: nat, k: nat, freq: seq<nat>, len: seq<nat>, i: nat)
    requires Greedy(order, elems, k, freq) && Exact(order, elems, k, len) && |freq| == |len| && i <= k - 1
    ensures 2 * i + 1 <= |order| && elems + k - 1 <= |freq| && forall t | 0 <= t < |order| :: order[t] < |freq|
    ensures ListSum(order[..2 * i + 1], Products(freq, len))
            == RangeSum(Products(freq, len), elems + k - 1 - i, elems + k - 1)
                + RangeSum(freq, elems + k - 1 - i, elems + k - 1)
  {
    hide ListSum, Products;
    var P := Products(freq, len);
    if i == 0 {
      ListSumStep(order, P, 1);
      ListSumNone(order, P);
      RootCost(freq, len, order[0]);
    } else {
      PrefixCost(order, elems, k, freq, len, i - 1);
      ListSumStep(order, P, 2 * i);
      ListSumStep(order, P, 2 * i + 1);
      PairCost(order, elems, k, freq, len, k - 1 - i);
      RangeSumLow(P, elems + k - 1 - i, elems + k - 1);
      RangeSumLow(freq, elems + k - 1 - i, elems + k - 1);
    }
  }

  lemma RootCost(freq: seq<nat>, len: seq<nat>, r: nat)
    requires |freq| == |len| && r < |len| && len[r] == 0
    ensures Products(freq, len)[r] == 0
  {}

  /** The total of frequency times length over the leaves is the sum of the merged frequencies. */
  lemma TreeCost(order: seq<nat>, elems: nat, leaves: set<nat>, freq: seq<nat>, len: seq<nat>)
    requires Shape(order, elems, leaves) && Greedy(order, elems, |leaves|, freq) && Exact(order, elems, |leaves|, len)
             && |freq| == |len|
    ensures elems + |leaves| - 1 <= |freq|
    ensures Weighted(leaves, freq, len) == RangeSum(freq, elems, elems + |leaves| - 1)
  {
    hide Shape, Products, Greedy, Exact, ListSum, RangeSum, Sum;
    ListCost(order, elems, |leaves|, freq, len);
    NodeSum(order, elems, leaves, Products(freq, len));
  }

  lemma NodeSum(order: seq<nat>, elems: nat, leaves: set<nat>, g: seq<int>)
    requires Shape(order, elems, leaves) && elems + |leaves| - 1 <= |g|
    ensures |leaves| >= 2 && forall t | 0 <= t < |order| :: order[t] < |g|
    ensures ListSum(order, g) == Sum(leaves, g, |g|) + RangeSum(g, elems, elems + |leaves| - 1)
  {
    hide ListSum, RangeSum, Sum;
    SplitSum(order, elems, leaves, g);
    SumInterval(g, elems, elems + |leaves| - 1, |g|);
  }

  lemma ListCost(order: seq<nat>, elems: nat, k: nat, freq: seq<nat>, len: seq<nat>)
    requires Greedy(order, elems, k, freq) && Exact(order, elems, k, len) && |freq| == |len|
    ensures elems + k - 1 <= |freq| && forall t | 0 <= t < |order| :: order[t] < |freq|
    ensures var P := Products(freq, len);
            ListSum(order, P) == RangeSum(P, elems, elems + k - 1) + RangeSum(freq, elems, elems + k - 1)
  {
    hide Products, Greedy, ListSum, RangeSum;
    PrefixCost(order, elems, k, freq, len, k - 1);
    assert order[..2 * (k - 1) + 1] == order;
  }

  /** No fitting assignment of lengths beats those of an unclamped tree. */
  lemma TreeIsOptimal(order: seq<nat>, elems: nat, leaves: set<nat>, freq: seq<nat>, len: seq<nat>, top: nat,
                      other: seq<nat>, otherTop: nat)
    requires Shape(order, elems, leaves) && Greedy(order, elems, |leaves|, freq) && |freq| == |len| == |other|
    requires elems + |leaves| - 1 <= |len| && Levels(order, elems, leaves, len, top)
    requires Overflow(elems, |leaves|, len, top, 2 * |leaves| - 1) == 0
    requires Fits(leaves, other, otherTop)
    ensures Weighted(leaves, freq, len) <= Weighted(leaves, freq, other)
  {
    hide Shape, Greedy, Exact, Weighted, Fits, Levels, Overflow, Trees;
    ShapeFacts(order, elems, leaves);
    ExactLevels(order, elems, leaves, len, top);
    TreeCost(order, elems, leaves, freq, len);
    NoMerges(order, elems, leaves);
    LowerBound(order, elems, leaves, freq, 0, other, otherTop);
  }
}
