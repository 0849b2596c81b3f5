/**
 Lengths handed out in the order of the frequencies: no other way to give the
 same lengths to the same leaves is cheaper.
 */
module Rearrange {
  import opened Bits
  import opened Canonical
  import opened BitLengths

  // ----- the rearrangement inequality -----

  function Dot(f: seq<nat>, a: seq<nat>): nat
    requires |f| == |a|
  {
    if f == [] then 0 else Dot(f[..|f| - 1], a[..|a| - 1]) + f[|f| - 1] * a[|a| - 1]
  }

  ghost predicate Down(f: seq<nat>)
  {
    forall i, k | 0 <= i <= k < |f| :: f[i] >= f[k]
  }

  ghost predicate Up(a: seq<nat>)
  {
    forall i, k | 0 <= i <= k < |a| :: a[i] <= a[k]
  }

  lemma {:induction false} DotUpdate(f: seq<nat>, a: seq<nat>, p: nat, v: nat)
    requires |f| == |a| && p < |a|
    ensures Dot(f, a[p := v]) == Dot(f, a) + f[p] * (v - a[p])
  {
    var n := |a| - 1;
    if p == n {
      assert a[p := v][..n] == a[..n];
    } else {
      assert a[p := v][..n] == a[..n][p := v];
      DotUpdate(f[..n], a[..n], p, v);
    }
  }

  /** The larger length goes to the end, where the frequency is smaller. */
  lemma SwapGains(f: nat, g: nat, l: nat, m: nat)
    requires f >= g && l <= m
    ensures f * (l - m) + g * (m - l) <= 0
  {
    assert f * (l - m) + g * (m - l) == (g - f) * (m - l);
  }

  lemma SwapToEnd(f: seq<nat>, b: seq<nat>, p: nat) returns (c: seq<nat>)
    requires |f| == |b| && Down(f) && p < |b| && b[|b| - 1] <= b[p]
    ensures |c| == |b| && multiset(c) == multiset(b) && c[|c| - 1] == b[p] && Dot(f, c) <= Dot(f, b)
  {
    hide Dot;
    var n := |b| - 1;
    c := b[p := b[n]][n := b[p]];
    DotUpdate(f, b, p, b[n]);
    DotUpdate(f, b[p := b[n]], n, b[p]);
    if p != n {
      SwapGains(f[p], f[n], b[n], b[p]);
    }
  }

  lemma DotLast(f: seq<nat>, a: seq<nat>)
    requires |f| == |a| > 0
    ensures Dot(f, a) == Dot(f[..|f| - 1], a[..|a| - 1]) + f[|f| - 1] * a[|a| - 1]
  {}

  lemma DotMore(f: seq<nat>, a: seq<nat>, x: nat, y: nat)
    requires |f| == |a|
    ensures Dot(f + [x], a + [y]) == Dot(f, a) + x * y
  {
    assert (f + [x])[..|f|] == f && (a + [y])[..|a|] == a;
  }

  lemma TimesSum(f: nat, l: nat, x: nat)
    ensures f * (l + x) == f * l + f * x
  {}

  /** The last length is the greatest, and the others have it somewhere. */
  lemma FindLast(a: seq<nat>, b: seq<nat>) returns (p: nat)
    requires |a| == |b| > 0 && Up(a) && multiset(a) == multiset(b)
    ensures p < |b| && b[p] == a[|a| - 1] && b[|b| - 1] <= b[p]
  {
    assert a[|a| - 1] in multiset(b) && b[|b| - 1] in multiset(a);
    p :| 0 <= p < |b| && b[p] == a[|a| - 1];
  }

  lemma SameFronts(a: seq<nat>, c: seq<nat>)
    requires |a| == |c| > 0 && multiset(a) == multiset(c) && a[|a| - 1] == c[|c| - 1]
    ensures multiset(a[..|a| - 1]) == multiset(c[..|c| - 1])
  {
    var n := |a| - 1;
    assert a == a[..n] + [a[n]] && c == c[..n] + [c[n]];
    assert multiset(a[..n]) == multiset(a) - multiset{a[n]};
  }

  lemma {:induction false} SortedIsCheapest(f: seq<nat>, a: seq<nat>, b: seq<nat>)
    requires |f| == |a| == |b| && Down(f) && Up(a) && multiset(a) == multiset(b)
    ensures Dot(f, a) <= Dot(f, b)
    decreases |f|
  {
    if f == [] {
      assert a == b;
    } else {
      hide Dot;
      var n := |a| - 1;
      var p := FindLast(a, b);
      var c := SwapToEnd(f, b, p);
      SameFronts(a, c);
      SortedIsCheapest(f[..n], a[..n], c[..n]);
      DotLast(f, a);
      DotLast(f, c);
    }
  }

  // ----- lists of nodes -----

  /** The leaves of a list, in its order. */
  ghost function Leaves(s: seq<nat>, elems: nat): (xs: seq<nat>)
    ensures forall i | 0 <= i < |xs| :: xs[i] < elems && xs[i] in s
  {
    if s == [] then []
    else
      var n := |s| - 1;
      assert s == s[..n] + [s[n]];
      if s[n] < elems then Leaves(s[..n], elems) + [s[n]] else Leaves(s[..n], elems)
  }

  ghost function Pick(g: seq<nat>, xs: seq<nat>): (r: seq<nat>)
    requires forall i | 0 <= i < |xs| :: xs[i] < |g|
    ensures |r| == |xs| && forall i | 0 <= i < |xs| :: r[i] == g[xs[i]]
  {
    seq(|xs|, i requires 0 <= i < |xs| => g[xs[i]])
  }

  /** The nodes are listed from the most frequent to the least frequent. */
  ghost predicate Descending(order: seq<nat>, freq: seq<nat>)
  {
    Within(order, |freq|) && forall s, t | 0 <= s <= t < |order| :: freq[order[s]] >= freq[order[t]]
  }

  /** Leaves that come later have no shorter codes. */
  ghost predicate Rising(order: seq<nat>, elems: nat, len: seq<nat>)
  {
    && Within(order, |len|)
    && forall s, t | 0 <= s <= t < |order| && order[s] < elems && order[t] < elems :: len[order[s]] <= len[order[t]]
  }

  lemma {:induction false} PickDown(order: seq<nat>, elems: nat, freq: seq<nat>)
    requires Descending(order, freq) && elems <= |freq|
    ensures Down(Pick(freq, Leaves(order, elems)))
  {
    if order != [] {
      hide Down;
      var n := |order| - 1;
      PickDown(order[..n], elems, freq);
      if order[n] < elems {
        AppendDown(freq, order[..n], Leaves(order[..n], elems), order[n]);
      }
    }
  }

  lemma AppendDown(freq: seq<nat>, front: seq<nat>, xs: seq<nat>, x: nat)
    requires (forall i | 0 <= i < |xs| :: xs[i] < |freq| && xs[i] in front) && x < |freq| && Down(Pick(freq, xs))
             && Within(front, |freq|)
    requires forall i | 0 <= i < |front| :: freq[front[i]] >= freq[x]
    ensures Down(Pick(freq, xs + [x]))
  {
    var r := Pick(freq, xs + [x]);
    forall i, k | 0 <= i <= k < |r|
      ensures r[i] >= r[k]
    {
      if k < |xs| {
        assert r[i] == Pick(freq, xs)[i] && r[k] == Pick(freq, xs)[k];
      } else if i < |xs| {
        assert xs[i] in front;
      }
    }
  }

  lemma {:induction false} PickUp(order: seq<nat>, elems: nat, len: seq<nat>)
    requires Rising(order, elems, len) && elems <= |len|
    ensures Up(Pick(len, Leaves(order, elems)))
  {
    if order != [] {
      hide Up;
      var n := |order| - 1;
      PickUp(order[..n], elems, len);
      if order[n] < elems {
        AppendUp(len, order[..n], elems, Leaves(order[..n], elems), order[n]);
      }
    }
  }

  lemma AppendUp(len: seq<nat>, front: seq<nat>, elems: nat, xs: seq<nat>, x: nat)
    requires (forall i | 0 <= i < |xs| :: xs[i] < elems && xs[i] in front) && elems <= |len| && x < |len|
             && Up(Pick(len, xs)) && Within(front, |len|)
    requires forall i | 0 <= i < |front| && front[i] < elems :: len[front[i]] <= len[x]
    ensures Up(Pick(len, xs + [x]))
  {
    var r := Pick(len, xs + [x]);
    forall i, k | 0 <= i <= k < |r|
      ensures r[i] <= r[k]
    {
      if k < |xs| {
        assert r[i] == Pick(len, xs)[i] && r[k] == Pick(len, xs)[k];
      } else if i < |xs| {
        assert xs[i] in front && xs[i] < elems;
      }
    }
  }

  lemma PickMore(g: seq<nat>, xs: seq<nat>, x: nat)
    requires (forall i | 0 <= i < |xs| :: xs[i] < |g|) && x < |g|
    ensures Pick(g, xs + [x]) == Pick(g, xs) + [g[x]]
  {}

  lemma {:induction false} PickCount(order: seq<nat>, elems: nat, len: seq<nat>, b: nat)
    requires Within(order, |len|) && elems <= |len|
    ensures multiset(Pick(len, Leaves(order, elems)))[b] == LeafCount(order, len, elems, b)
  {
    if order != [] {
      hide Pick;
      var n := |order| - 1;
      PickCount(order[..n], elems, len, b);
      var xs, x := Leaves(order[..n], elems), order[n];
      if x < elems {
        PickMore(len, xs, x);
        assert multiset(Pick(len, xs) + [len[x]]) == multiset(Pick(len, xs)) + multiset{len[x]};
      }
    }
  }

  /** The part of the cost that the lengths do not bear on. */
  ghost function ExtraCost(order: seq<nat>, freq: seq<nat>, extra: Extra, elems: nat): nat
    requires Within(order, |freq|)
  {
    if order == [] then 0
    else
      var x := order[|order| - 1];
      ExtraCost(order[..|order| - 1], freq, extra, elems) + (if x < elems then freq[x] * extra.At(x) else 0)
  }

  lemma {:induction false} PickCost(order: seq<nat>, elems: nat, freq: seq<nat>, len: seq<nat>, extra: Extra)
    requires Within(order, |freq|) && Within(order, |len|) && elems <= |len| && elems <= |freq|
    ensures LeafCost(order, freq, len, extra, elems)
            == Dot(Pick(freq, Leaves(order, elems)), Pick(len, Leaves(order, elems)))
                + ExtraCost(order, freq, extra, elems)
  {
    if order != [] {
      hide Dot, Pick;
      var n := |order| - 1;
      PickCost(order[..n], elems, freq, len, extra);
      var xs, x := Leaves(order[..n], elems), order[n];
      if x < elems {
        PickMore(freq, xs, x);
        PickMore(len, xs, x);
        DotMore(Pick(freq, xs), Pick(len, xs), freq[x], len[x]);
        TimesSum(freq[x], len[x], extra.At(x));
      }
    }
  }

  /** Longer codes for rarer leaves: the same lengths given out in another way cost no less. */
  lemma NoneCheaper(order: seq<nat>, elems: nat, freq: seq<nat>, len: seq<nat>, other: seq<nat>, extra: Extra)
    requires Descending(order, freq) && Rising(order, elems, len) && Within(order, |other|)
    requires elems <= |len| && elems <= |other| && elems <= |freq|
    requires forall b: nat :: LeafCount(order, other, elems, b) == LeafCount(order, len, elems, b)
    ensures LeafCost(order, freq, len, extra, elems) <= LeafCost(order, freq, other, extra, elems)
  {
    hide LeafCount, LeafCost, Dot, ExtraCost, Leaves, Down, Up;
    var xs := Leaves(order, elems);
    var a: seq<nat>, b: seq<nat> := Pick(len, xs), Pick(other, xs);
    PickDown(order, elems, freq);
    PickUp(order, elems, len);
    var m, n: multiset<nat> := multiset(a), multiset(b);
    forall v: nat
      ensures m[v] == n[v]
    {
      PickCount(order, elems, len, v);
      PickCount(order, elems, other, v);
    }
    assert m == n;
    SortedIsCheapest(Pick(freq, xs), a, b);
    PickCost(order, elems, freq, len, extra);
    PickCost(order, elems, freq, other, extra);
  }
}
