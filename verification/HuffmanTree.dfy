/**
 Construction of one Huffman tree: collect the used symbols, force at least
 two, build a heap, and merge the two least frequent trees until one is left.
 */
module HuffmanTree {
  import opened Bits
  import opened Sums
  import opened TreeShape
  import opened Heap
  import opened Forest

  /** The invariant of the merge loop. */
  ghost predicate Growing(heap: seq<nat>, heapLen: nat, heapMax: nat, elems: nat, node: nat, leaves: set<nat>,
                          dl: seq<nat>, freq: seq<nat>, depth: seq<nat>, total: int)
  {
    && |freq| == |dl| && 2 * elems <= |dl| && |leaves| <= elems && 2 * |leaves| < |heap| && |leaves| >= 2
    && Structure(heap, heapLen, heapMax, elems, node, leaves, dl)
    && Nodes(heap, heapLen, freq, depth) && HeapFrom(heap, heapLen, freq, depth, 1, 0)
    && Sorted(heap, heapLen, heapMax, freq) && Additive(heap, heapMax, elems, node, freq)
    && HeapTotal(heap, heapLen, freq) == total < 0x10000
  }

  lemma Sizes(heap: seq<nat>, heapLen: nat, heapMax: nat, elems: nat, node: nat, leaves: set<nat>,
              dl: seq<nat>, freq: seq<nat>, depth: seq<nat>, total: int)
    requires Growing(heap, heapLen, heapMax, elems, node, leaves, dl, freq, depth, total)
    ensures 1 <= heapLen < heapMax <= |heap| && elems <= node && |freq| == |dl| <= |depth|
    ensures heapLen >= 2 ==> node < |dl| && heapLen < heapMax - 2
    ensures forall i | 1 <= i <= heapLen :: heap[i] < node
    ensures heapLen + (node - elems) == |leaves|
  {
    HeapEntries(heap, heapLen, heapMax, elems, node, leaves, dl);
  }

  // ----- the two removals and the insertion -----

  /** Taking out the first element leaves a heap below the new first element. */
  lemma HeapShrink(h: seq<nat>, len: nat, freq: seq<nat>, depth: seq<nat>)
    requires 2 <= len && Nodes(h, len, freq, depth) && HeapFrom(h, len, freq, depth, 1, 0)
    ensures Nodes(h[1 := h[len]], len - 1, freq, depth)
    ensures HeapFrom(h[1 := h[len]], len - 1, freq, depth, 2, 0)
  {
    var a, shorter := h[1 := h[len]], len - 1;
    forall p | 2 <= p <= shorter
      ensures Ordered(a, shorter, freq, depth, p)
    {
      assert Ordered(h, len, freq, depth, p);
    }
  }

  /** A new node at the top, its frequency and depth set, leaves the rest of the heap as it was. */
  lemma HeapReplace(b: seq<nat>, c: seq<nat>, len: nat, freq: seq<nat>, depth: seq<nat>, node: nat, f: nat, d: nat)
    requires 1 <= len && Nodes(b, len, freq, depth) && HeapFrom(b, len, freq, depth, 1, 0) && node < |freq|
    requires len < |c| == |b| && c[1] == node && forall i | 2 <= i <= len :: c[i] == b[i] != node
    ensures Nodes(c, len, freq[node := f], depth[node := d])
    ensures HeapFrom(c, len, freq[node := f], depth[node := d], 2, 0)
  {
    var freq', depth' := freq[node := f], depth[node := d];
    forall p | 2 <= p <= len
      ensures Ordered(c, len, freq', depth', p)
    {
      assert Ordered(b, len, freq, depth, p);
    }
  }

  lemma MinOfHeap(h: seq<nat>, len: nat, freq: seq<nat>, depth: seq<nat>)
    requires 1 <= len && Nodes(h, len, freq, depth) && HeapFrom(h, len, freq, depth, 1, 0)
    ensures forall x | x in h[1..len + 1] :: x < |freq| && freq[h[1]] <= freq[x]
  {
    forall x | x in h[1..len + 1]
      ensures x < |freq| && freq[h[1]] <= freq[x]
    {
      var i :| 0 <= i < |h[1..len + 1]| && h[1..len + 1][i] == x;
      RootSmallest(h, len, freq, depth, i + 1);
    }
  }

  /** The two nodes taken out are the two smallest, and distinct. */
  lemma TwoSmallest(h0: seq<nat>, b: seq<nat>, len: nat, freq: seq<nat>, depth: seq<nat>)
    requires 2 <= len < |h0| && Nodes(h0, len, freq, depth) && HeapFrom(h0, len, freq, depth, 1, 0)
             && Distinct(h0[1..len + 1])
    requires Nodes(b, len - 1, freq, depth) && HeapFrom(b, len - 1, freq, depth, 1, 0) && |b| == |h0|
    requires multiset(b[1..len]) == multiset(h0[1 := h0[len]][1..len])
    ensures h0[1] in h0[1..len + 1] && b[1] in h0[1..len + 1] && h0[1] != b[1]
    ensures forall x | x in h0[1..len + 1] ::
              x < |freq| && freq[h0[1]] <= freq[x] && (x != h0[1] ==> freq[b[1]] <= freq[x])
    ensures forall i | 1 <= i < len :: b[i] in h0[1..len + 1]
  {
    hide HeapFrom, Nodes;
    MinOfHeap(h0, len, freq, depth);
    MinOfHeap(b, len - 1, freq, depth);
    TakeFirst(h0, len);
    var all, rest := h0[1..len + 1], b[1..len];
    assert all[0] == h0[1] && rest[0] == b[1];
    AtMostOnce(all, h0[1]);
    forall x
      ensures x in rest <==> x in all && x != h0[1]
    {
      AtMostOnce(all, x);
      assert x in all <==> multiset(all)[x] > 0;
      assert x in rest <==> multiset(rest)[x] > 0;
      assert multiset(all)[x] == (multiset{h0[1]} + multiset(rest))[x];
    }
    forall i | 1 <= i < len
      ensures b[i] in all
    {
      assert b[i] == rest[i - 1];
    }
  }

  /** Everything one round of the loop keeps. */
  lemma MergeAll(h0: seq<nat>, b: seq<nat>, e: seq<nat>, len: nat, heapMax: nat, elems: nat, node: nat,
                 leaves: set<nat>,
                 dl: seq<nat>, freq: seq<nat>, depth: seq<nat>, depth': seq<nat>, total: int)
    requires Growing(h0, len, heapMax, elems, node, leaves, dl, freq, depth, total) && len >= 2
    requires |b| == |h0| == |e| && len < heapMax - 2 && heapMax <= |h0| && node < |dl| == |freq|
    requires Nodes(b, len - 1, freq, depth) && HeapFrom(b, len - 1, freq, depth, 1, 0)
    requires multiset(b[1..len]) == multiset(h0[1 := h0[len]][1..len])
    requires Rearranged(b, h0[1 := h0[len]], 1, len - 1)
    requires multiset(e[1..len]) == multiset(Placed(b, heapMax, h0[1], node)[1..len])
    requires Rearranged(e, Placed(b, heapMax, h0[1], node), 1, len - 1)
    requires h0[1] < node && b[1] < node
    requires Nodes(e, len - 1, freq[node := freq[h0[1]] + freq[b[1]]], depth')
    requires HeapFrom(e, len - 1, freq[node := freq[h0[1]] + freq[b[1]]], depth', 1, 0)
    ensures Growing(e, len - 1, heapMax - 2, elems, node + 1, leaves, dl[h0[1] := node][b[1] := node],
                    freq[node := freq[h0[1]] + freq[b[1]]], depth', total)
  {
    hide Nodes, HeapFrom, Structure, Sorted, Additive, Merged;
    var n, m := h0[1], b[1];
    MergeSteps(h0, b, e, len, heapMax, node);
    HeapEntries(h0, len, heapMax, elems, node, leaves, dl);
    TwoSmallest(h0, b, len, freq, depth);
    MergeStructure(h0, e, len, heapMax, elems, node, leaves, dl, n, m);
    NodeFresh(h0, len, heapMax, elems, node, leaves, dl);
    MergeElements(h0, e, len, heapMax, n, m, node);
    MergeSorted(h0, e, len, heapMax, n, m, node, freq);
    MergeAdditive(h0, e, len, heapMax, elems, n, m, node, freq);
    MergeTotal(Elements(h0[1..len + 1]), n, m, node, freq);
  }

  lemma NodeFresh(h: seq<nat>, len: nat, heapMax: nat, elems: nat, node: nat, leaves: set<nat>, dl: seq<nat>)
    requires Structure(h, len, heapMax, elems, node, leaves, dl)
    ensures len < heapMax <= |h| && node !in h[1..len + 1] && node !in h[heapMax..]
    ensures forall q | heapMax <= q < |h| :: h[q] < node
  {
    HeapEntries(h, len, heapMax, elems, node, leaves, dl);
  }

  /** Nodes that are in no tree keep their field. */
  ghost predicate KeptOutside(dl: seq<nat>, dl': seq<nat>, nodes: set<nat>)
  {
    |dl'| == |dl| && forall x: nat | x < |dl| && x !in nodes :: dl'[x] == dl[x]
  }

  /** Combine the two least frequent nodes: one round of the loop of build_tree. */
  method MergeTwo(heap: array<nat>, heapLen: nat, heapMax: nat, fc: array<nat>, dl: array<nat>, depth: array<nat>,
                  elems: nat, node: nat, ghost leaves: set<nat>, ghost total: int)
    requires heap != fc && heap != dl && heap != depth && fc != dl && fc != depth && dl != depth
    requires Growing(heap[..], heapLen, heapMax, elems, node, leaves, dl[..], fc[..], depth[..], total) && heapLen >= 2
    modifies heap, fc, dl, depth
    ensures Growing(heap[..], heapLen - 1, heapMax - 2, elems, node + 1, leaves, dl[..], fc[..], depth[..], total)
    ensures fc[..node] == old(fc[..node])
    ensures KeptOutside(old(dl[..]), dl[..], AllNodes(leaves, elems, node))
  {
    hide Growing, Structure, Sorted, Additive, HeapFrom, Nodes, Placed, Rearranged, KeptOutside, AllNodes;
    ghost var h0: seq<nat>, f0: seq<nat>, d0: seq<nat>, l0: seq<nat> := heap[..], fc[..], depth[..], dl[..];
    Sizes(h0, heapLen, heapMax, elems, node, leaves, l0, f0, d0, total);
    assert heapLen < |h0| && Nodes(h0, heapLen, f0, d0) && HeapFrom(h0, heapLen, f0, d0, 1, 0) by {
      GrowingHeap(h0, heapLen, heapMax, elems, node, leaves, l0, f0, d0, total);
    }
    HeapShrink(h0, heapLen, f0, d0);
    var n := heap[1];
    heap[1] := heap[heapLen];
    var len := heapLen - 1;
    assert heap[..] == h0[1 := h0[heapLen]];
    PqDownHeap(heap, len, fc, depth, 1);
    ghost var b := heap[..];
    Picked(h0, b, heapLen, heapMax, elems, node, leaves, l0, f0, d0, total);
    var m := heap[1];
    var d := InstallFather(heap, heapMax, fc, dl, depth, node, n, m);
    assert fc[..] == f0[node := f0[n] + f0[m]];
    PlacedHeap(b, len, heapMax, n, f0, d0, node, f0[n] + f0[m], d);
    PqDownHeap(heap, len, fc, depth, 1);
    TwoKept(l0, n, m, node, AllNodes(leaves, elems, node));
    MergeAll(h0, b, heap[..], heapLen, heapMax, elems, node, leaves, l0, f0, d0, depth[..], total);
  }

  lemma PlacedHeap(b: seq<nat>, len: nat, heapMax: nat, n: nat, freq: seq<nat>, depth: seq<nat>, node: nat, f: nat,
                   d: nat)
    requires 1 <= len < heapMax - 2 && heapMax <= |b| && node < |freq|
    requires Nodes(b, len, freq, depth) && HeapFrom(b, len, freq, depth, 1, 0) && node < |depth|
    requires forall i | 1 <= i <= len :: b[i] != node
    ensures Nodes(Placed(b, heapMax, n, node), len, freq[node := f], depth[node := d])
    ensures HeapFrom(Placed(b, heapMax, n, node), len, freq[node := f], depth[node := d], 2, 0)
  {
    HeapReplace(b, Placed(b, heapMax, n, node), len, freq, depth, node, f, d);
  }

  lemma TwoKept(dl: seq<nat>, n: nat, m: nat, v: nat, nodes: set<nat>)
    requires n in nodes && m in nodes && n < |dl| && m < |dl|
    ensures KeptOutside(dl, dl[n := v][m := v], nodes)
  {}

  /** Move n and m to the list, make node their father and put it at the top of the heap. */
  method InstallFather(heap: array<nat>, heapMax: nat, fc: array<nat>, dl: array<nat>, depth: array<nat>, node: nat,
                       n: nat, m: nat)
    returns (ghost d: nat)
    requires heap != fc && heap != dl && heap != depth && fc != dl && fc != depth && dl != depth
    requires 2 < heapMax <= heap.Length && heap[1] == m
    requires n < node && m < node < dl.Length == fc.Length <= depth.Length
    modifies heap, fc, dl, depth
    ensures heap[..] == Placed(old(heap[..]), heapMax, n, node)
    ensures fc[..] == old(fc[..])[node := U16(old(fc[n]) + old(fc[m]))]
    ensures depth[..] == old(depth[..])[node := d]
    ensures dl[..] == old(dl[..])[n := node][m := node]
  {
    heap[heapMax - 1] := n;
    heap[heapMax - 2] := m;
    fc[node] := U16(fc[n] + fc[m]);
    depth[node] := (if depth[n] >= depth[m] then depth[n] + 1 else depth[m] + 1) % 256;
    d := depth[node];
    dl[n] := node;
    dl[m] := node;
    heap[1] := node;
  }

  lemma Picked(h0: seq<nat>, b: seq<nat>, len: nat, heapMax: nat, elems: nat, node: nat, leaves: set<nat>,
               dl: seq<nat>, freq: seq<nat>, depth: seq<nat>, total: int)
    requires Growing(h0, len, heapMax, elems, node, leaves, dl, freq, depth, total) && len >= 2
    requires |b| == |h0| && len < |h0|
    requires Nodes(b, len - 1, freq, depth) && HeapFrom(b, len - 1, freq, depth, 1, 0)
    requires multiset(b[1..len]) == multiset(h0[1 := h0[len]][1..len])
    ensures node < |freq| && h0[1] < node && b[1] < node && freq[h0[1]] + freq[b[1]] < 0x10000
    ensures forall i | 1 <= i < len :: b[i] != node
    ensures h0[1] in AllNodes(leaves, elems, node) && b[1] in AllNodes(leaves, elems, node)
  {
    hide HeapFrom, Sorted, Additive;
    Sizes(h0, len, heapMax, elems, node, leaves, dl, freq, depth, total);
    HeapEntries(h0, len, heapMax, elems, node, leaves, dl);
    TwoSmallest(h0, b, len, freq, depth);
    NodeFresh(h0, len, heapMax, elems, node, leaves, dl);
    MergeTotal(Elements(h0[1..len + 1]), h0[1], b[1], node, freq);
    OnePlace(h0[1..len + 1], h0[heapMax..], AllNodes(leaves, elems, node));
  }

  lemma GrowingHeap(heap: seq<nat>, heapLen: nat, heapMax: nat, elems: nat, node: nat, leaves: set<nat>,
                    dl: seq<nat>, freq: seq<nat>, depth: seq<nat>, total: int)
    requires Growing(heap, heapLen, heapMax, elems, node, leaves, dl, freq, depth, total)
    ensures Nodes(heap, heapLen, freq, depth) && HeapFrom(heap, heapLen, freq, depth, 1, 0)
  {}
}
