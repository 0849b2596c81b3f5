/**
 Finite sums of a table of weights: over the elements of a set, over the
 entries of a list, over an interval.
 */
module Sums {

  /** The sum of g[x] over the members x < n of S. */
  ghost function Sum(S: set<nat>, g: seq<int>, n: nat): int
    requires n <= |g|
  {
    if n == 0 then 0 else Sum(S, g, n - 1) + (if n - 1 in S then g[n - 1] else 0)
  }

  /** The sum of g[x] over the entries x of a list. */
  ghost function ListSum(s: seq<nat>, g: seq<int>): int
    requires forall i | 0 <= i < |s| :: s[i] < |g|
  {
    if s == [] then 0 else ListSum(s[..|s| - 1], g) + g[s[|s| - 1]]
  }

  lemma ListSumStep(s: seq<nat>, g: seq<int>, i: nat)
    requires forall i | 0 <= i < |s| :: s[i] < |g|
    requires 1 <= i <= |s|
    ensures ListSum(s[..i], g) == ListSum(s[..i - 1], g) + g[s[i - 1]]
  {
    assert s[..i][..i - 1] == s[..i - 1];
  }

  lemma ListSumNone(s: seq<nat>, g: seq<int>)
    ensures ListSum(s[..0], g) == 0
  {}

  /** The sum of g[lo..hi]. */
  ghost function RangeSum(g: seq<int>, lo: nat, hi: nat): int
    requires lo <= hi <= |g|
  {
    if lo == hi then 0 else RangeSum(g, lo, hi - 1) + g[hi - 1]
  }

  ghost predicate Distinct(s: seq<nat>)
  {
    forall i, j | 0 <= i < j < |s| :: s[i] != s[j]
  }

  ghost function Elements(s: seq<nat>): set<nat>
  {
    set x | x in s
  }

  ghost function Interval(lo: nat, hi: nat): (S: set<nat>)
    ensures forall x :: x in S <==> lo <= x < hi
  {
    if hi <= lo then {} else Interval(lo, hi - 1) + {hi - 1}
  }

  lemma {:induction false} SumAdd(S: set<nat>, x: nat, g: seq<int>, n: nat)
    requires x !in S && n <= |g|
    ensures Sum(S + {x}, g, n) == Sum(S, g, n) + (if x < n then g[x] else 0)
  {
    if n > 0 {
      SumAdd(S, x, g, n - 1);
    }
  }

  lemma {:induction false} SumUnion(S: set<nat>, T: set<nat>, g: seq<int>, n: nat)
    requires S !! T && n <= |g|
    ensures Sum(S + T, g, n) == Sum(S, g, n) + Sum(T, g, n)
  {
    if n > 0 {
      SumUnion(S, T, g, n - 1);
    }
  }

  lemma {:induction false} SumCongruent(S: set<nat>, g: seq<int>, h: seq<int>, n: nat)
    requires n <= |g| && n <= |h|
    requires forall x | x in S && x < n :: g[x] == h[x]
    ensures Sum(S, g, n) == Sum(S, h, n)
  {
    if n > 0 {
      SumCongruent(S, g, h, n - 1);
    }
  }

  lemma {:induction false} SumSameSet(S: set<nat>, T: set<nat>, g: seq<int>, n: nat)
    requires n <= |g|
    requires forall x: nat | x < n :: x in S <==> x in T
    ensures Sum(S, g, n) == Sum(T, g, n)
  {
    if n > 0 {
      SumSameSet(S, T, g, n - 1);
    }
  }

  lemma {:induction false} SumLinear(S: set<nat>, g: seq<int>, h: seq<int>, c: int, f: seq<int>, n: nat)
    requires n <= |g| && n <= |h| && n <= |f|
    requires forall x | x in S && x < n :: f[x] == g[x] + c * h[x]
    ensures Sum(S, f, n) == Sum(S, g, n) + c * Sum(S, h, n)
  {
    if n > 0 {
      SumLinear(S, g, h, c, f, n - 1);
      if n - 1 in S {
        assert c * (Sum(S, h, n - 1) + h[n - 1]) == c * Sum(S, h, n - 1) + c * h[n - 1];
      }
    }
  }

  lemma {:induction false} SumMono(S: set<nat>, g: seq<int>, h: seq<int>, n: nat)
    requires n <= |g| && n <= |h|
    requires forall x | x in S && x < n :: g[x] <= h[x]
    ensures Sum(S, g, n) <= Sum(S, h, n)
  {
    if n > 0 {
      SumMono(S, g, h, n - 1);
    }
  }

  /** Weights are not needed above the largest member. */
  lemma {:induction false} SumTrim(S: set<nat>, g: seq<int>, m: nat, n: nat)
    requires m <= n <= |g|
    requires forall x | x in S :: x < m
    ensures Sum(S, g, n) == Sum(S, g, m)
  {
    if m < n {
      SumTrim(S, g, m, n - 1);
    }
  }

  lemma {:induction false} SumEmpty(g: seq<int>, n: nat)
    requires n <= |g|
    ensures Sum({}, g, n) == 0
  {
    if n > 0 {
      SumEmpty(g, n - 1);
    }
  }

  lemma {:induction false} SumInterval(g: seq<int>, lo: nat, hi: nat, n: nat)
    requires lo <= hi <= n <= |g|
    ensures Sum(Interval(lo, hi), g, n) == RangeSum(g, lo, hi)
  {
    if lo == hi {
      assert Interval(lo, hi) == {};
      SumEmpty(g, n);
    } else {
      SumInterval(g, lo, hi - 1, n);
      assert Interval(lo, hi) == Interval(lo, hi - 1) + {hi - 1};
      SumAdd(Interval(lo, hi - 1), hi - 1, g, n);
    }
  }

  lemma {:induction false} ListSumIsSum(s: seq<nat>, g: seq<int>)
    requires Distinct(s) && forall i | 0 <= i < |s| :: s[i] < |g|
    ensures ListSum(s, g) == Sum(Elements(s), g, |g|)
  {
    if s == [] {
      assert Elements(s) == {};
      SumEmpty(g, |g|);
    } else {
      var front, x := s[..|s| - 1], s[|s| - 1];
      ListSumIsSum(front, g);
      assert s == front + [x];
      assert Elements(s) == Elements(front) + {x};
      SumAdd(Elements(front), x, g, |g|);
    }
  }

  lemma SeenTwice(s: seq<nat>, i: nat, j: nat)
    requires i < j < |s| && s[i] == s[j]
    ensures multiset(s)[s[i]] >= 2
  {
    assert s == s[..i] + [s[i]] + s[i + 1..j] + [s[i]] + s[j + 1..];
  }

  /** A list whose multiset is a set has no repetitions. */
  lemma DistinctFromMultiset(s: seq<nat>, S: set<nat>)
    requires multiset(s) == multiset(S)
    ensures Distinct(s) && Elements(s) == S
  {
    forall i, j | 0 <= i < j < |s|
      ensures s[i] != s[j]
    {
      if s[i] == s[j] {
        SeenTwice(s, i, j);
      }
    }
    forall x
      ensures x in Elements(s) <==> x in S
    {
      assert x in s <==> x in multiset(s);
      assert x in S <==> x in multiset(S);
    }
  }
}
