/**
 The heap of tree nodes ordered by frequency, with the depth of the subtree as
 tie breaker.  The root is in place 1, so that the children of place n are in
 places 2n and 2n + 1.
 */
module Heap {

  predicate Smaller(freq: seq<nat>, depth: seq<nat>, n: nat, m: nat)
    requires n < |freq| && m < |freq| && |freq| <= |depth|
  {
    freq[n] < freq[m] || (freq[n] == freq[m] && depth[n] <= depth[m])
  }

  predicate SmallerNow(fc: array<nat>, depth: array<nat>, n: nat, m: nat)
    reads fc, depth
    requires n < fc.Length && m < fc.Length && fc.Length <= depth.Length
    ensures SmallerNow(fc, depth, n, m) == Smaller(fc[..], depth[..], n, m)
  {
    fc[n] < fc[m] || (fc[n] == fc[m] && depth[n] <= depth[m])
  }

  /** heap[1..len] holds nodes of the tree. */
  ghost predicate Nodes(h: seq<nat>, len: nat, freq: seq<nat>, depth: seq<nat>)
  {
    && len < |h| && |freq| <= |depth|
    && forall i | 1 <= i <= len :: h[i] < |freq|
  }

  /** The father at p is not larger than its sons. */
  ghost predicate Ordered(h: seq<nat>, len: nat, freq: seq<nat>, depth: seq<nat>, p: nat)
    requires Nodes(h, len, freq, depth) && 1 <= p
  {
    && (2 * p <= len ==> Smaller(freq, depth, h[p], h[2 * p]))
    && (2 * p + 1 <= len ==> Smaller(freq, depth, h[p], h[2 * p + 1]))
  }

  /** Every father from position lo on is ordered, except possibly the one at skip. */
  ghost predicate HeapFrom(h: seq<nat>, len: nat, freq: seq<nat>, depth: seq<nat>, lo: nat, skip: nat)
    requires Nodes(h, len, freq, depth) && 1 <= lo
  {
    forall p | lo <= p <= len && p != skip :: Ordered(h, len, freq, depth, p)
  }

  /** The father of position k is not larger than the sons of k. */
  ghost predicate Bridged(h: seq<nat>, len: nat, freq: seq<nat>, depth: seq<nat>, lo: nat, k: nat)
    requires Nodes(h, len, freq, depth) && 1 <= lo <= k
  {
    k / 2 >= lo ==>
      && (2 * k <= len ==> Smaller(freq, depth, h[k / 2], h[2 * k]))
      && (2 * k + 1 <= len ==> Smaller(freq, depth, h[k / 2], h[2 * k + 1]))
  }

  /** Exchanging the node at k with its smallest son moves the gap one level down. */
  lemma SiftStep(h: seq<nat>, len: nat, freq: seq<nat>, depth: seq<nat>, lo: nat, k: nat, j: nat)
    requires Nodes(h, len, freq, depth) && 1 <= lo <= k && j <= len
    requires HeapFrom(h, len, freq, depth, lo, k) && Bridged(h, len, freq, depth, lo, k)
    requires j == 2 * k || j == 2 * k + 1
    requires 2 * k <= len && Smaller(freq, depth, h[j], h[2 * k])
    requires 2 * k + 1 <= len ==> Smaller(freq, depth, h[j], h[2 * k + 1])
    requires Smaller(freq, depth, h[j], h[k])
    ensures var h' := h[k := h[j]][j := h[k]];
            && Nodes(h', len, freq, depth)
            && HeapFrom(h', len, freq, depth, lo, j) && Bridged(h', len, freq, depth, lo, j)
  {
    var h' := h[k := h[j]][j := h[k]];
    forall p | lo <= p <= len && p != j
      ensures Ordered(h', len, freq, depth, p)
    {
      if p != k {
        assert Ordered(h, len, freq, depth, p);
      }
    }
    assert j <= len && Ordered(h, len, freq, depth, j);
  }

  /** Copying a son over the gap at k is an exchange, seen with v stored at the gap. */
  lemma Moved(a: seq<nat>, k: nat, j: nat, v: nat)
    requires k < |a| && j < |a| && k != j
    ensures a[k := v][k := a[j]][j := v] == a[k := a[j]][j := v]
  {}

  /** What the loop of pqdownheap keeps, for the list h with v stored at the gap k. */
  ghost predicate Sifting(h: seq<nat>, h0: seq<nat>, len: nat, freq: seq<nat>, depth: seq<nat>, lo: nat, k: nat)
  {
    && 1 <= lo <= k <= len && |h| == |h0|
    && Nodes(h, len, freq, depth)
    && HeapFrom(h, len, freq, depth, lo, k) && Bridged(h, len, freq, depth, lo, k)
    && Rearranged(h, h0, lo, len)
  }

  /** h is h0 with the entries lo to len permuted. */
  ghost predicate Rearranged(h: seq<nat>, h0: seq<nat>, lo: nat, len: nat)
  {
    && 1 <= lo <= len < |h| == |h0| && multiset(h) == multiset(h0)
    && h[..lo] == h0[..lo] && h[len + 1..] == h0[len + 1..]
  }

  lemma StartSifting(h: seq<nat>, len: nat, freq: seq<nat>, depth: seq<nat>, lo: nat)
    requires 1 <= lo <= len && Nodes(h, len, freq, depth) && HeapFrom(h, len, freq, depth, lo + 1, 0)
    ensures Sifting(h, h, len, freq, depth, lo, lo)
  {}

  lemma SiftDown(h: seq<nat>, h0: seq<nat>, len: nat, freq: seq<nat>, depth: seq<nat>, lo: nat, k: nat, j: nat)
    requires Nodes(h, len, freq, depth) && 1 <= k
    requires Sifting(h, h0, len, freq, depth, lo, k) && (j == 2 * k || j == 2 * k + 1) && j <= len
    requires Smaller(freq, depth, h[j], h[2 * k])
    requires 2 * k + 1 <= len ==> Smaller(freq, depth, h[j], h[2 * k + 1])
    requires Smaller(freq, depth, h[j], h[k])
    ensures Nodes(h[k := h[j]][j := h[k]], len, freq, depth)
    ensures Sifting(h[k := h[j]][j := h[k]], h0, len, freq, depth, lo, j)
  {
    SiftStep(h, len, freq, depth, lo, k, j);
    Exchange(h, h0, lo, len, k, j);
  }

  lemma Exchange(h: seq<nat>, h0: seq<nat>, lo: nat, len: nat, k: nat, j: nat)
    requires Rearranged(h, h0, lo, len) && lo <= k <= len && lo <= j <= len
    ensures Rearranged(h[k := h[j]][j := h[k]], h0, lo, len)
  {
    assert multiset(h[k := h[j]][j := h[k]]) == multiset(h);
  }

  lemma SiftDone(h: seq<nat>, h0: seq<nat>, len: nat, freq: seq<nat>, depth: seq<nat>, lo: nat, k: nat)
    requires Nodes(h, len, freq, depth) && 1 <= k
    requires Sifting(h, h0, len, freq, depth, lo, k) && Ordered(h, len, freq, depth, k)
    ensures HeapFrom(h, len, freq, depth, lo, 0) && len < |h| == |h0|
    ensures multiset(h[1..len + 1]) == multiset(h0[1..len + 1]) && Rearranged(h, h0, lo, len)
  {
    assert h[..lo][0] == h0[..lo][0];
    assert h[..1] == h0[..1];
    SegmentMultiset(h, h0, 1, len + 1);
  }

  /** The multiset of a segment follows from that of the whole list. */
  lemma SegmentMultiset(a: seq<nat>, b: seq<nat>, lo: nat, hi: nat)
    requires lo <= hi <= |a| == |b| && multiset(a) == multiset(b)
    requires a[..lo] == b[..lo] && a[hi..] == b[hi..]
    ensures multiset(a[lo..hi]) == multiset(b[lo..hi])
  {
    assert a == a[..lo] + a[lo..hi] + a[hi..];
    assert b == b[..lo] + b[lo..hi] + b[hi..];
    forall x
      ensures multiset(a[lo..hi])[x] == multiset(b[lo..hi])[x]
    {
      assert multiset(a)[x] == multiset(a[..lo])[x] + multiset(a[lo..hi])[x] + multiset(a[hi..])[x];
      assert multiset(b)[x] == multiset(b[..lo])[x] + multiset(b[lo..hi])[x] + multiset(b[hi..])[x];
    }
  }

  /** The first element of a heap is the smallest. */
  lemma {:induction false} RootSmallest(h: seq<nat>, len: nat, freq: seq<nat>, depth: seq<nat>, i: nat)
    requires Nodes(h, len, freq, depth) && HeapFrom(h, len, freq, depth, 1, 0) && 1 <= i <= len
    ensures Smaller(freq, depth, h[1], h[i])
  {
    if i > 1 {
      RootSmallest(h, len, freq, depth, i / 2);
      assert Ordered(h, len, freq, depth, i / 2);
    }
  }

  /**
   If the places behind lo are in heap order, then so is lo afterwards, with
   the same elements and none moved before lo.
   */
  method PqDownHeap(heap: array<nat>, heapLen: nat, fc: array<nat>, depth: array<nat>, lo: nat)
    requires heap != fc && heap != depth && 1 <= lo <= heapLen
    requires Nodes(heap[..], heapLen, fc[..], depth[..])
    requires HeapFrom(heap[..], heapLen, fc[..], depth[..], lo + 1, 0)
    modifies heap
    ensures Nodes(heap[..], heapLen, fc[..], depth[..])
    ensures HeapFrom(heap[..], heapLen, fc[..], depth[..], lo, 0)
    ensures multiset(heap[1..heapLen + 1]) == old(multiset(heap[1..heapLen + 1]))
    ensures Rearranged(heap[..], old(heap[..]), lo, heapLen)
  {
    hide Sifting, HeapFrom, Bridged, Rearranged;
    StartSifting(heap[..], heapLen, fc[..], depth[..], lo);
    var v := heap[lo];
    var k := lo;
    var j := 2 * k;
    // The list as it would be with v stored at k.
    ghost var h := heap[..];
    ghost var freq, dep := fc[..], depth[..];
    while j <= heapLen
      invariant lo <= k <= heapLen < heap.Length && j == 2 * k
      invariant h == heap[..][k := v]
      invariant fc[..] == freq && depth[..] == dep
      invariant Nodes(h, heapLen, freq, dep) && Sifting(h, old(heap[..]), heapLen, freq, dep, lo, k)
      decreases heapLen - k
    {
      assert heap[j] == h[j] && (j < heapLen ==> heap[j + 1] == h[j + 1]);
      if j < heapLen && SmallerNow(fc, depth, heap[j + 1], heap[j]) {
        j := j + 1;
      }
      if SmallerNow(fc, depth, v, heap[j]) {
        assert Ordered(h, heapLen, freq, dep, k);
        break;
      }
      SiftDown(h, old(heap[..]), heapLen, freq, dep, lo, k, j);
      Moved(heap[..], k, j, v);
      h := h[k := h[j]][j := h[k]];
      heap[k] := heap[j];
      k := j;
      j := 2 * j;
    }
    SiftDone(h, old(heap[..]), heapLen, freq, dep, lo, k);
    heap[k] := v;
    assert heap[..] == h;
  }
}
