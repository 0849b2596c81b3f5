/**
 The state of the merge loop of build_tree: one array holds the heap of the
 trees that remain, heap[1..heapLen], and, growing down from its end, the list
 heap[heapMax..] of the nodes already given a father.
 */
module Forest {
  import opened Bits
  import opened Sums
  import opened TreeShape
  import opened Heap

  /** The father of the node stored at index q of an array of the given size. */
  function FatherAt(size: nat, elems: nat, q: nat): nat
    requires q < size
  {
    elems + (size - 1 - q) / 2
  }

  /** All nodes made so far. */
  ghost function AllNodes(leaves: set<nat>, elems: nat, node: nat): set<nat>
  {
    leaves + Interval(elems, node)
  }

  ghost predicate Structure(heap: seq<nat>, heapLen: nat, heapMax: nat, elems: nat, node: nat, leaves: set<nat>,
                            dl: seq<nat>)
  {
    && elems <= node <= |dl| && 1 <= heapLen < heapMax <= |heap|
    && |heap| - heapMax == 2 * (node - elems) && heapLen + (node - elems) == |leaves|
    && (forall x | x in leaves :: x < elems)
    && multiset(heap[1..heapLen + 1]) + multiset(heap[heapMax..]) == multiset(AllNodes(leaves, elems, node))
    && forall q | heapMax <= q < |heap| ::
         heap[q] < FatherAt(|heap|, elems, q) && heap[q] < |dl| && dl[heap[q]] == FatherAt(|heap|, elems, q)
  }

  /** Two lists that together hold the members of a set once each. */
  lemma OnePlace(a: seq<nat>, b: seq<nat>, S: set<nat>)
    requires multiset(a) + multiset(b) == multiset(S)
    ensures Distinct(a) && forall x | x in a :: x in S && x !in b
  {
    forall i, j | 0 <= i < j < |a|
      ensures a[i] != a[j]
    {
      assert multiset(a)[a[i]] + multiset(b)[a[i]] == multiset(S)[a[i]] <= 1;
      if a[i] == a[j] {
        SeenTwice(a, i, j);
      }
    }
    forall x | x in a
      ensures x in S && x !in b
    {
      assert x in multiset(a) && multiset(S)[x] == multiset(a)[x] + multiset(b)[x];
      assert x in b ==> x in multiset(b);
    }
  }

  /** Entries of the heap part are nodes that are not in the list, each once. */
  lemma HeapEntries(heap: seq<nat>, heapLen: nat, heapMax: nat, elems: nat, node: nat, leaves: set<nat>, dl: seq<nat>)
    requires Structure(heap, heapLen, heapMax, elems, node, leaves, dl)
    ensures Distinct(heap[1..heapLen + 1])
    ensures forall i | 1 <= i <= heapLen :: heap[i] < node && heap[i] !in heap[heapMax..]
  {
    OnePlace(heap[1..heapLen + 1], heap[heapMax..], AllNodes(leaves, elems, node));
    forall i | 1 <= i <= heapLen
      ensures heap[i] < node && heap[i] !in heap[heapMax..]
    {
      assert heap[i] in heap[1..heapLen + 1];
    }
  }

  // ----- one merge -----

  /** PQREMOVE: the last element takes the place of the first, which is taken out. */
  lemma TakeFirst(heap: seq<nat>, len: nat)
    requires 2 <= len < |heap|
    ensures multiset(heap[1..len + 1]) == multiset{heap[1]} + multiset(heap[1 := heap[len]][1..len])
  {
    var a := heap[1 := heap[len]];
    assert heap[1..len + 1] == [heap[1]] + heap[2..len] + [heap[len]];
    assert a[1..len] == [heap[len]] + heap[2..len];
  }

  lemma ReplaceFirst(heap: seq<nat>, len: nat, v: nat)
    requires 1 <= len < |heap|
    ensures multiset(heap[1..len + 1]) == multiset{heap[1]} + multiset(heap[2..len + 1])
    ensures multiset(heap[1 := v][1..len + 1]) == multiset{v} + multiset(heap[2..len + 1])
  {
    assert heap[1..len + 1] == [heap[1]] + heap[2..len + 1];
    assert heap[1 := v][1..len + 1] == [v] + heap[2..len + 1];
  }

  /** What one merge does to the array: n and m leave the heap, node enters it. */
  ghost predicate Merged(old_: seq<nat>, new_: seq<nat>, len: nat, heapMax: nat, n: nat, m: nat, node: nat)
  {
    && |new_| == |old_| && 2 <= len < heapMax <= |old_| && len <= heapMax - 2
    && multiset(new_[1..len]) + multiset{n, m} == multiset(old_[1..len + 1]) + multiset{node}
    && new_[heapMax - 2..] == [m, n] + old_[heapMax..]
  }

  /** The second half of a merge: the father takes the place of m at the top of the heap. */
  ghost function Placed(b: seq<nat>, heapMax: nat, n: nat, node: nat): (d: seq<nat>)
    requires 2 < heapMax <= |b|
    ensures |d| == |b|
  {
    b[heapMax - 1 := n][heapMax - 2 := b[1]][1 := node]
  }

  lemma MergeSteps(h0: seq<nat>, b: seq<nat>, e: seq<nat>, len: nat, heapMax: nat, node: nat)
    requires 2 <= len && len <= heapMax - 2 && heapMax <= |h0| && |b| == |h0| && |e| == |h0|
    requires multiset(b[1..len]) == multiset(h0[1 := h0[len]][1..len])
    requires b[len..] == h0[1 := h0[len]][len..]
    requires multiset(e[1..len]) == multiset(Placed(b, heapMax, h0[1], node)[1..len])
    requires e[len..] == Placed(b, heapMax, h0[1], node)[len..]
    ensures Merged(h0, e, len, heapMax, h0[1], b[1], node)
  {
    MergeHeapPart(h0, b, e, len, heapMax, node);
    MergeListPart(h0, b, e, len, heapMax, node);
  }

  lemma MergeHeapPart(h0: seq<nat>, b: seq<nat>, e: seq<nat>, len: nat, heapMax: nat, node: nat)
    requires 2 <= len && len <= heapMax - 2 && heapMax <= |h0| && |b| == |h0| && |e| == |h0|
    requires multiset(b[1..len]) == multiset(h0[1 := h0[len]][1..len])
    requires multiset(e[1..len]) == multiset(Placed(b, heapMax, h0[1], node)[1..len])
    ensures multiset(e[1..len]) + multiset{h0[1], b[1]} == multiset(h0[1..len + 1]) + multiset{node}
  {
    TakeFirst(h0, len);
    ReplaceFirst(b, len - 1, node);
    assert Placed(b, heapMax, h0[1], node)[1..len] == b[1 := node][1..len];
    assert multiset{h0[1], b[1]} == multiset{h0[1]} + multiset{b[1]};
  }

  lemma MergeListPart(h0: seq<nat>, b: seq<nat>, e: seq<nat>, len: nat, heapMax: nat, node: nat)
    requires 2 <= len && len <= heapMax - 2 && heapMax <= |h0| && |b| == |h0| && |e| == |h0|
    requires b[len..] == h0[1 := h0[len]][len..]
    requires e[len..] == Placed(b, heapMax, h0[1], node)[len..]
    ensures e[heapMax - 2..] == [b[1], h0[1]] + h0[heapMax..]
  {
    var d := Placed(b, heapMax, h0[1], node);
    SuffixOf(e, d, len, heapMax - 2);
    SuffixOf(b, h0[1 := h0[len]], len, heapMax);
    assert h0[1 := h0[len]][heapMax..] == h0[heapMax..];
    assert d[heapMax - 2..] == [b[1], h0[1]] + b[heapMax..];
  }

  lemma SuffixOf(a: seq<nat>, b: seq<nat>, i: nat, j: nat)
    requires i <= j <= |a| == |b| && a[i..] == b[i..]
    ensures a[j..] == b[j..]
  {
    assert a[j..] == a[i..][j - i..];
    assert b[j..] == b[i..][j - i..];
  }

  /** A merge keeps the structure: heap and list never overlap, and every node has one place. */
  lemma MergeStructure(h0: seq<nat>, e: seq<nat>, len: nat, heapMax: nat, elems: nat, node: nat, leaves: set<nat>,
                       dl: seq<nat>, n: nat, m: nat)
    requires Structure(h0, len, heapMax, elems, node, leaves, dl) && node < |dl|
    requires n in h0[1..len + 1] && m in h0[1..len + 1] && n != m
    requires Merged(h0, e, len, heapMax, n, m, node)
    ensures n < node && m < node
    ensures Structure(e, len - 1, heapMax - 2, elems, node + 1, leaves, dl[n := node][m := node])
  {
    InHeap(h0, len, heapMax, elems, node, leaves, dl, n);
    InHeap(h0, len, heapMax, elems, node, leaves, dl, m);
    MergeMultiset(h0, e, len, heapMax, elems, node, leaves, n, m);
    MergeFathers(h0, e, heapMax, elems, node, dl, n, m);
  }

  lemma InHeap(h: seq<nat>, len: nat, heapMax: nat, elems: nat, node: nat, leaves: set<nat>, dl: seq<nat>, n: nat)
    requires Structure(h, len, heapMax, elems, node, leaves, dl) && n in h[1..len + 1]
    ensures n < node && n !in h[heapMax..]
  {
    HeapEntries(h, len, heapMax, elems, node, leaves, dl);
  }

  lemma MergeMultiset(h0: seq<nat>, e: seq<nat>, len: nat, heapMax: nat, elems: nat, node: nat, leaves: set<nat>,
                      n: nat, m: nat)
    requires Merged(h0, e, len, heapMax, n, m, node) && elems <= node
    requires multiset(h0[1..len + 1]) + multiset(h0[heapMax..]) == multiset(AllNodes(leaves, elems, node))
    requires forall x | x in leaves :: x < elems
    ensures multiset(e[1..len]) + multiset(e[heapMax - 2..]) == multiset(AllNodes(leaves, elems, node + 1))
  {
    var before, after := AllNodes(leaves, elems, node), AllNodes(leaves, elems, node + 1);
    var top, list := multiset(h0[1..len + 1]), multiset(h0[heapMax..]);
    assert multiset(e[heapMax - 2..]) == multiset([m, n]) + list;
    assert multiset([m, n]) == multiset{n, m};
    assert after == before + {node} && node !in before;
    assert multiset(after) == multiset(before) + multiset{node};
    assert multiset(e[1..len]) + (multiset{n, m} + list) == (multiset(e[1..len]) + multiset{n, m}) + list;
    assert (top + multiset{node}) + list == (top + list) + multiset{node};
  }

  lemma MergeFathers(h0: seq<nat>, e: seq<nat>, heapMax: nat, elems: nat, node: nat, dl: seq<nat>, n: nat, m: nat)
    requires 2 <= heapMax <= |h0| == |e| && |h0| - heapMax == 2 * (node - elems) && elems <= node < |dl| && n < node
             && m < node
    requires e[heapMax - 2..] == [m, n] + h0[heapMax..] && n !in h0[heapMax..] && m !in h0[heapMax..]
    requires forall q | heapMax <= q < |h0| ::
               h0[q] < FatherAt(|h0|, elems, q) && h0[q] < |dl| && dl[h0[q]] == FatherAt(|h0|, elems, q)
    ensures var dl' := dl[n := node][m := node];
            forall q | heapMax - 2 <= q < |e| ::
              e[q] < FatherAt(|e|, elems, q) && e[q] < |dl'| && dl'[e[q]] == FatherAt(|e|, elems, q)
  {
    var dl' := dl[n := node][m := node];
    forall q | heapMax - 2 <= q < |e|
      ensures e[q] < FatherAt(|e|, elems, q) && e[q] < |dl'| && dl'[e[q]] == FatherAt(|e|, elems, q)
    {
      assert e[q] == e[heapMax - 2..][q - (heapMax - 2)];
      if q >= heapMax {
        assert e[q] == h0[heapMax..][q - heapMax] == h0[q];
      }
    }
  }

  /** When one tree remains, its root completes the list. */
  lemma Completed(heap: seq<nat>, heapMax: nat, elems: nat, node: nat, leaves: set<nat>, dl: seq<nat>)
    requires Structure(heap, 1, heapMax, elems, node, leaves, dl) && |leaves| >= 2
    ensures heapMax >= 2
    ensures var order := heap[heapMax - 1 := heap[1]][heapMax - 1..];
            && Shape(order, elems, leaves)
            && forall t | 1 <= t < |order| :: order[t] < |dl| && dl[order[t]] == Father(elems, |leaves|, t)
  {
    var k := |leaves|;
    var root := heap[1];
    var order := heap[heapMax - 1 := root][heapMax - 1..];
    assert order == [root] + heap[heapMax..];
    assert heap[1..2] == [root];
    assert multiset(order) == multiset{root} + multiset(heap[heapMax..]);
    forall t | 1 <= t < |order|
      ensures order[t] < Father(elems, k, t) && order[t] < |dl| && dl[order[t]] == Father(elems, k, t)
    {
      var q := heapMax - 1 + t;
      assert order[t] == heap[q];
      assert FatherAt(|heap|, elems, q) == Father(elems, k, t);
    }
    LastNode(order, elems, leaves);
  }

  lemma LastNode(order: seq<nat>, elems: nat, leaves: set<nat>)
    requires |leaves| >= 2 && |order| == 2 * |leaves| - 1
    requires multiset(order) == multiset(AllNodes(leaves, elems, elems + |leaves| - 1))
    requires forall t | 1 <= t < |order| :: order[t] < Father(elems, |leaves|, t)
    ensures order[0] == elems + |leaves| - 2
  {
    var last := elems + |leaves| - 2;
    DistinctFromMultiset(order, AllNodes(leaves, elems, elems + |leaves| - 1));
    assert last in Elements(order);
    var t :| 0 <= t < |order| && order[t] == last;
    FatherBelow(elems, |leaves|, t);
  }

  lemma FatherBelow(elems: nat, k: nat, t: nat)
    requires k >= 2 && t <= 2 * k - 2
    ensures t >= 1 ==> Father(elems, k, t) <= elems + k - 2
  {}

  // ----- frequencies -----

  /** The frequency of every internal node is the sum of those of its sons. */
  ghost predicate Additive(heap: seq<nat>, heapMax: nat, elems: nat, node: nat, freq: seq<nat>)
  {
    && elems <= node <= |freq| && heapMax <= |heap| && |heap| - heapMax == 2 * (node - elems)
    && (forall q | heapMax <= q < |heap| :: heap[q] < |freq|)
    && forall j | 0 <= j < node - elems ::
         freq[elems + j] == freq[heap[|heap| - 1 - 2 * j]] + freq[heap[|heap| - 2 - 2 * j]]
  }

  /** The list is sorted, and the heap holds nothing smaller than the list. */
  ghost predicate Sorted(heap: seq<nat>, heapLen: nat, heapMax: nat, freq: seq<nat>)
  {
    && heapLen < heapMax <= |heap|
    && (forall i | 1 <= i <= heapLen :: heap[i] < |freq|) && (forall q | heapMax <= q < |heap| :: heap[q] < |freq|)
    && (forall p, q | heapMax <= p <= q < |heap| :: freq[heap[p]] >= freq[heap[q]])
    && forall i, q | 1 <= i <= heapLen && heapMax <= q < |heap| :: freq[heap[i]] >= freq[heap[q]]
  }

  ghost function HeapTotal(heap: seq<nat>, heapLen: nat, freq: seq<nat>): int
    requires heapLen < |heap|
  {
    Sum(Elements(heap[1..heapLen + 1]), freq, |freq|)
  }

  /** The nodes in the heap after a merge. */
  lemma MergeElements(h0: seq<nat>, e: seq<nat>, len: nat, heapMax: nat, n: nat, m: nat, node: nat)
    requires Merged(h0, e, len, heapMax, n, m, node) && n != m
    requires Distinct(h0[1..len + 1]) && n in h0[1..len + 1] && m in h0[1..len + 1] && node !in h0[1..len + 1]
    ensures Elements(e[1..len]) == Elements(h0[1..len + 1]) - {n, m} + {node}
  {
    var a, b := h0[1..len + 1], e[1..len];
    forall x
      ensures x in b <==> (x in a && x != n && x != m) || x == node
    {
      assert x in a <==> multiset(a)[x] > 0;
      assert x in b <==> multiset(b)[x] > 0;
      AtMostOnce(a, x);
      assert (multiset(b) + multiset{n, m})[x] == (multiset(a) + multiset{node})[x];
    }
  }

  lemma {:induction false} AtMostOnce(s: seq<nat>, x: nat)
    requires Distinct(s)
    ensures multiset(s)[x] <= 1
  {
    if s != [] {
      AtMostOnce(s[..|s| - 1], x);
      assert s == s[..|s| - 1] + [s[|s| - 1]];
    }
  }

  lemma MergeTotal(a: set<nat>, n: nat, m: nat, node: nat, freq: seq<nat>)
    requires n in a && m in a && n != m && node !in a && n < |freq| && m < |freq| && node < |freq|
    ensures freq[n] + freq[m] <= Sum(a, freq, |freq|)
    ensures Sum(a - {n, m} + {node}, freq[node := freq[n] + freq[m]], |freq|) == Sum(a, freq, |freq|)
  {
    var rest := a - {n, m};
    var freq' := freq[node := freq[n] + freq[m]];
    assert rest + {n} + {m} == a;
    SumAdd(rest, n, freq, |freq|);
    SumAdd(rest + {n}, m, freq, |freq|);
    SumAdd(rest, node, freq', |freq|);
    SumCongruent(rest, freq, freq', |freq|);
    SumNonNegative(rest, freq, |freq|);
  }

  lemma {:induction false} SumNonNegative(S: set<nat>, freq: seq<nat>, n: nat)
    requires n <= |freq|
    ensures Sum(S, freq, n) >= 0
  {
    if n > 0 {
      SumNonNegative(S, freq, n - 1);
    }
  }

  /** A merge of the two smallest trees keeps the list sorted. */
  lemma MergeSorted(h0: seq<nat>, e: seq<nat>, len: nat, heapMax: nat, n: nat, m: nat, node: nat, freq: seq<nat>)
    requires Sorted(h0, len, heapMax, freq) && Merged(h0, e, len, heapMax, n, m, node) && node < |freq|
    requires Elements(e[1..len]) == Elements(h0[1..len + 1]) - {n, m} + {node}
    requires n in h0[1..len + 1] && m in h0[1..len + 1] && n < |freq| && m < |freq| && n != node && m != node
    requires node !in h0[heapMax..]
    requires forall x | x in h0[1..len + 1] && x < |freq| :: freq[n] <= freq[x] && (x != n ==> freq[m] <= freq[x])
    ensures Sorted(e, len - 1, heapMax - 2, freq[node := freq[n] + freq[m]])
  {
    var freq' := freq[node := freq[n] + freq[m]];
    ListEntries(h0, e, len, heapMax, n, m, node);
    HeapAtLeast(h0, e, len, n, m, node, freq);
    AboveList(h0, len, heapMax, freq, n);
    assert freq[n] <= freq[m];
    forall q | heapMax - 2 <= q < |e|
      ensures e[q] < |freq| && freq'[e[q]] <= freq[m]
    {
      if q >= heapMax {
        assert freq[h0[q]] <= freq[n];
      }
    }
  }

  lemma HeapAtLeast(h0: seq<nat>, e: seq<nat>, len: nat, n: nat, m: nat, node: nat, freq: seq<nat>)
    requires 2 <= len < |h0| == |e| && n < |freq| && m < |freq| && node < |freq|
    requires forall i | 1 <= i <= len :: h0[i] < |freq|
    requires Elements(e[1..len]) == Elements(h0[1..len + 1]) - {n, m} + {node}
    requires forall x | x in h0[1..len + 1] && x < |freq| :: freq[n] <= freq[x] && (x != n ==> freq[m] <= freq[x])
    ensures forall i | 1 <= i <= len - 1 :: e[i] < |freq| && freq[node := freq[n] + freq[m]][e[i]] >= freq[m]
  {
    forall i | 1 <= i <= len - 1
      ensures e[i] < |freq| && freq[node := freq[n] + freq[m]][e[i]] >= freq[m]
    {
      assert e[i] == e[1..len][i - 1];
      assert e[i] in Elements(e[1..len]);
      if e[i] != node {
        assert e[i] in h0[1..len + 1];
        BelowAll(h0, len, freq, e[i]);
      }
    }
  }

  lemma BelowAll(h: seq<nat>, len: nat, freq: seq<nat>, x: nat)
    requires len < |h| && (forall i | 1 <= i <= len :: h[i] < |freq|) && x in h[1..len + 1]
    ensures x < |freq|
  {
    var i :| 0 <= i < |h[1..len + 1]| && h[1..len + 1][i] == x;
    assert h[i + 1] == x;
  }

  lemma AboveList(h: seq<nat>, len: nat, heapMax: nat, freq: seq<nat>, n: nat)
    requires Sorted(h, len, heapMax, freq) && n in h[1..len + 1] && n < |freq|
    ensures forall q | heapMax <= q < |h| :: freq[h[q]] <= freq[n]
  {
    var i :| 0 <= i < |h[1..len + 1]| && h[1..len + 1][i] == n;
    assert h[i + 1] == n;
  }

  lemma ListEntries(h0: seq<nat>, e: seq<nat>, len: nat, heapMax: nat, n: nat, m: nat, node: nat)
    requires Merged(h0, e, len, heapMax, n, m, node)
    ensures e[heapMax - 1] == n && e[heapMax - 2] == m
    ensures forall q | heapMax <= q < |e| :: e[q] == h0[q] && h0[q] in h0[heapMax..]
  {
    var t := e[heapMax - 2..];
    assert t[0] == e[heapMax - 2] && t[1] == e[heapMax - 1];
    forall q | heapMax <= q < |e|
      ensures e[q] == h0[q] && h0[q] in h0[heapMax..]
    {
      assert t[q - heapMax + 2] == e[q];
      assert h0[heapMax..][q - heapMax] == h0[q];
    }
  }

  lemma MergeAdditive(h0: seq<nat>, e: seq<nat>, len: nat, heapMax: nat, elems: nat, n: nat, m: nat, node: nat,
                      freq: seq<nat>)
    requires Additive(h0, heapMax, elems, node, freq) && Merged(h0, e, len, heapMax, n, m, node) && node < |freq|
    requires n < node && m < node && forall q | heapMax <= q < |h0| :: h0[q] < node
    ensures Additive(e, heapMax - 2, elems, node + 1, freq[node := freq[n] + freq[m]])
  {
    ListEntries(h0, e, len, heapMax, n, m, node);
    var freq' := freq[node := freq[n] + freq[m]];
    forall j | 0 <= j < node + 1 - elems
      ensures freq'[elems + j] == freq'[e[|e| - 1 - 2 * j]] + freq'[e[|e| - 2 - 2 * j]]
    {
      if j < node - elems {
        assert freq[elems + j] == freq[h0[|h0| - 1 - 2 * j]] + freq[h0[|h0| - 2 - 2 * j]];
      }
    }
  }
}
