/**
 build_tree as a whole: from the frequencies of the symbols to their lengths
 and codes, and to the size of what will be sent with them.
 */
module BuildTree {
  import opened Bits
  import opened Sums
  import opened TreeShape
  import opened Heap
  import opened Forest
  import opened HuffmanTree
  import opened Canonical
  import opened BitLengths
  import opened Lengths
  import opened Rearrange
  import opened Optimality

  /** The symbols below n that occur. */
  ghost function Used(freq: seq<nat>, n: nat): set<nat>
    requires n <= |freq|
  {
    set x: nat | x < n && freq[x] != 0
  }

  /** The state after the used symbols below n have been put in the heap array. */
  ghost predicate Collected(heap: seq<nat>, heapLen: nat, maxCode: int, freq: seq<nat>, n: nat)
  {
    && n <= |freq| && heapLen < |heap| && heapLen <= n
    && multiset(heap[1..heapLen + 1]) == multiset(Used(freq, n))
    && heapLen == |Used(freq, n)|
    && -1 <= maxCode < n && (heapLen == 0 ==> maxCode == -1) && (heapLen > 0 ==> maxCode >= 0 && freq[maxCode] != 0)
    && forall x: nat | x < n && freq[x] != 0 :: x <= maxCode
  }

  lemma CollectUsed(heap: seq<nat>, heapLen: nat, maxCode: int, freq: seq<nat>, n: nat, heap': seq<nat>)
    requires Collected(heap, heapLen, maxCode, freq, n) && n < |freq| && freq[n] != 0 && heapLen + 1 < |heap|
    requires heap' == heap[heapLen + 1 := n]
    ensures Collected(heap', heapLen + 1, n, freq, n + 1)
  {
    assert heap'[1..heapLen + 2] == heap[1..heapLen + 1] + [n];
    assert Used(freq, n + 1) == Used(freq, n) + {n};
  }

  lemma CollectUnused(heap: seq<nat>, heapLen: nat, maxCode: int, freq: seq<nat>, n: nat)
    requires Collected(heap, heapLen, maxCode, freq, n) && n < |freq| && freq[n] == 0
    ensures Collected(heap, heapLen, maxCode, freq, n + 1)
  {
    assert Used(freq, n + 1) == Used(freq, n);
  }

  /** Symbols that do not occur have length zero. */
  ghost predicate UnusedZero(freq: seq<nat>, dl: seq<nat>, n: nat)
  {
    n <= |freq| && n <= |dl| && forall x: nat | x < n && freq[x] == 0 :: dl[x] == 0
  }

  /** The used symbols go into the heap array, and the others get length zero. */
  method CollectLeaves(heap: array<nat>, fc: array<nat>, dl: array<nat>, depth: array<nat>, elems: nat)
    returns (heapLen: nat, maxCode: int)
    requires heap != fc && heap != dl && heap != depth && fc != dl && fc != depth && dl != depth
    requires elems <= fc.Length == dl.Length <= depth.Length && elems < heap.Length
    modifies heap, dl, depth
    ensures Collected(heap[..], heapLen, maxCode, fc[..], elems) && UnusedZero(fc[..], dl[..], elems)
  {
    hide Collected;
    heapLen, maxCode := 0, -1;
    var n := 0;
    ghost var freq := fc[..];
    CollectNone(heap[..], freq);
    while n < elems
      invariant n <= elems && fc[..] == freq && heapLen <= n
      invariant Collected(heap[..], heapLen, maxCode, freq, n)
      invariant UnusedZero(freq, dl[..], n)
    {
      if fc[n] != 0 {
        CollectUsed(heap[..], heapLen, maxCode, freq, n, heap[..][heapLen + 1 := n]);
        heapLen := heapLen + 1;
        heap[heapLen] := n;
        maxCode := n;
        depth[n] := 0;
      } else {
        CollectUnused(heap[..], heapLen, maxCode, freq, n);
        dl[n] := 0;
      }
      n := n + 1;
    }
  }

  lemma CollectNone(heap: seq<nat>, freq: seq<nat>)
    requires |heap| > 0
    ensures Collected(heap, 0, -1, freq, 0)
  {
    if |heap| >= 1 {
      assert heap[1..1] == [];
    }
    assert Used(freq, 0) == {};
  }

  // ----- at least two codes -----

  /** The frequencies with the forced symbols set to one. */
  ghost function WithForced(freq: seq<nat>, forced: seq<nat>): (r: seq<nat>)
    requires forall i | 0 <= i < |forced| :: forced[i] < |freq|
    ensures |r| == |freq|
  {
    if forced == [] then freq else WithForced(freq, forced[..|forced| - 1])[forced[|forced| - 1] := 1]
  }

  /** The forced symbols are unused ones without extra bits, and then there are only two leaves. */
  ghost predicate ForcedOk(freq: seq<nat>, forced: seq<nat>, elems: nat)
  {
    && elems <= |freq|
    && (forall i | 0 <= i < |forced| :: forced[i] < 3 && forced[i] < elems && freq[forced[i]] == 0)
    && (forall i, j | 0 <= i < j < |forced| :: forced[i] != forced[j])
    && |forced| <= 2
  }

  lemma {:induction false} ForcedCost(freq: seq<nat>, forced: seq<nat>, len: seq<nat>, extra: Extra, elems: nat)
    requires ForcedOk(freq, forced, elems) && elems <= |len| && (forall x | 0 <= x < 3 :: extra.At(x) == 0)
    ensures Cost(WithForced(freq, forced), len, extra, elems) == Cost(freq, len, extra, elems)
            + ForcedLength(len, forced)
  {
    if forced != [] {
      var front, x := forced[..|forced| - 1], forced[|forced| - 1];
      ForcedCost(freq, front, len, extra, elems);
      StillUnused(freq, front, x);
      CostUpdate(WithForced(freq, front), len, extra, x, elems);
    }
  }

  ghost function ForcedLength(len: seq<nat>, forced: seq<nat>): nat
    requires forall i | 0 <= i < |forced| :: forced[i] < |len|
  {
    if forced == [] then 0 else ForcedLength(len, forced[..|forced| - 1]) + len[forced[|forced| - 1]]
  }

  lemma {:induction false} StillUnused(freq: seq<nat>, forced: seq<nat>, x: nat)
    requires (forall i | 0 <= i < |forced| :: forced[i] < |freq| && forced[i] != x) && x < |freq|
    ensures WithForced(freq, forced)[x] == freq[x]
  {
    if forced != [] {
      StillUnused(freq, forced[..|forced| - 1], x);
    }
  }

  lemma {:induction false} CostUpdate(freq: seq<nat>, len: seq<nat>, extra: Extra, x: nat, n: nat)
    requires n <= |freq| && n <= |len| && x < |freq| && freq[x] == 0
    ensures Cost(freq[x := 1], len, extra, n) == Cost(freq, len, extra, n) + (if x < n then len[x] + extra.At(x) else 0)
  {
    if n > 0 {
      CostUpdate(freq, len, extra, x, n - 1);
    }
  }

  /** The symbol that is forced next, and the largest code after that. */
  function ForcedSymbol(maxCode: int): int
  {
    if maxCode < 2 then maxCode + 1 else 0
  }

  function ForcedMax(maxCode: int): int
  {
    if maxCode < 2 then maxCode + 1 else maxCode
  }

  /** The symbols that are forced: none if two occur, else the smallest ones next to what occurs. */
  ghost function ForcedFor(freq: seq<nat>, elems: nat): seq<nat>
    requires elems <= |freq|
  {
    if |Used(freq, elems)| >= 2 then []
    else if Used(freq, elems) == {} then [0, 1]
    else
      var m :| m in Used(freq, elems);
      [ForcedSymbol(m)]
  }

  /** What the loop has forced when the heap has grown from heapLen0 to heapLen. */
  function ForcedSoFar(heapLen0: nat, maxCode0: int, heapLen: nat): seq<int>
  {
    if heapLen <= heapLen0 then []
    else if heapLen == heapLen0 + 1 then [ForcedSymbol(maxCode0)]
    else [ForcedSymbol(maxCode0), ForcedSymbol(ForcedMax(maxCode0))]
  }

  lemma ForcedIs(heap: seq<nat>, heapLen: nat, maxCode: int, freq: seq<nat>, elems: nat, forced: seq<nat>)
    requires Collected(heap, heapLen, maxCode, freq, elems)
    requires forced == ForcedSoFar(heapLen, maxCode, if heapLen < 2 then 2 else heapLen)
    ensures forced == ForcedFor(freq, elems)
  {
    if heapLen == 1 {
      forall m | m in Used(freq, elems)
        ensures m == maxCode
      {
        if m != maxCode {
          SubsetCard({m, maxCode}, Used(freq, elems));
        }
      }
      assert maxCode in Used(freq, elems);
    }
  }

  lemma ForceStep(heap: seq<nat>, heapLen: nat, maxCode: int, freq: seq<nat>, elems: nat)
    requires Collected(heap, heapLen, maxCode, freq, elems) && heapLen < 2 && elems >= 3 && heapLen + 1 < |heap|
    ensures var x := ForcedSymbol(maxCode);
            && 0 <= x < 3 && freq[x] == 0
            && Collected(heap[heapLen + 1 := x], heapLen + 1, ForcedMax(maxCode), freq[x := 1], elems)
  {
    var x := ForcedSymbol(maxCode);
    NotYetUsed(heap, heapLen, maxCode, freq, elems);
    UseOne(freq, x, elems);
    assert heap[heapLen + 1 := x][1..heapLen + 2] == heap[1..heapLen + 1] + [x];
  }

  lemma NotYetUsed(heap: seq<nat>, heapLen: nat, maxCode: int, freq: seq<nat>, elems: nat)
    requires Collected(heap, heapLen, maxCode, freq, elems) && heapLen < 2 && elems >= 3
    ensures 0 <= ForcedSymbol(maxCode) < 3 && freq[ForcedSymbol(maxCode)] == 0
  {
    if maxCode >= 2 && freq[0] != 0 {
      SubsetCard({0, maxCode}, Used(freq, elems));
    }
  }

  lemma UseOne(freq: seq<nat>, x: nat, elems: nat)
    requires elems <= |freq| && x < elems && freq[x] == 0
    ensures Used(freq[x := 1], elems) == Used(freq, elems) + {x}
    ensures x !in Used(freq, elems)
  {}

  lemma {:induction false} SubsetCard(A: set<nat>, B: set<nat>)
    requires A <= B
    ensures |A| <= |B|
    decreases |A|
  {
    if A != {} {
      var x :| x in A;
      SubsetCard(A - {x}, B - {x});
    }
  }

  /** The result of forcing: the frequencies after it, and which symbols were added. */
  ghost predicate AtLeastTwo(heap: seq<nat>, heapLen: nat, maxCode: int, freq0: seq<nat>, forced: seq<nat>,
                             freq: seq<nat>, dl: seq<nat>, elems: nat)
  {
    && ForcedOk(freq0, forced, elems) && freq == WithForced(freq0, forced)
    && Collected(heap, heapLen, maxCode, freq, elems) && UnusedZero(freq, dl, elems)
    && (forced != [] ==> heapLen <= 2)
    && (forall i | 0 <= i < |forced| :: freq[forced[i]] == 1)
  }

  lemma ForceOne(heap: seq<nat>, heapLen: nat, maxCode: int, freq0: seq<nat>, forced: seq<nat>, freq: seq<nat>,
                 dl: seq<nat>, elems: nat)
    requires AtLeastTwo(heap, heapLen, maxCode, freq0, forced, freq, dl, elems)
    requires heapLen < 2 && elems >= 3 && heapLen + 1 < |heap|
    ensures var x := ForcedSymbol(maxCode);
            && 0 <= x < 3 && x < |freq|
            && AtLeastTwo(heap[heapLen + 1 := x], heapLen + 1, ForcedMax(maxCode), freq0, forced + [x], freq[x := 1],
                dl, elems)
  {
    hide Collected;
    ForceStep(heap, heapLen, maxCode, freq, elems);
    var x := ForcedSymbol(maxCode);
    assert (forced + [x])[..|forced|] == forced;
    assert x !in forced;
    StillUnused(freq0, forced, x);
    OneUsed(heap, heapLen, maxCode, freq0, forced, freq, dl, elems);
  }

  /** Forcing twice only happens when there was no symbol at all. */
  lemma OneUsed(heap: seq<nat>, heapLen: nat, maxCode: int, freq0: seq<nat>, forced: seq<nat>, freq: seq<nat>,
                dl: seq<nat>, elems: nat)
    requires AtLeastTwo(heap, heapLen, maxCode, freq0, forced, freq, dl, elems) && heapLen < 2
    ensures |forced| <= 1
  {
    if |forced| == 2 {
      assert {forced[0], forced[1]} <= Used(freq, elems);
      SubsetCard({forced[0], forced[1]}, Used(freq, elems));
    }
  }

  /** The heap has two leaves at least, for symbols that are chosen from the frequencies alone. */
  method ForceTwo(heap: array<nat>, heapLen0: nat, maxCode0: int, fc: array<nat>, dl: array<nat>, depth: array<nat>,
                  slen: seq<nat>, elems: nat)
    returns (heapLen: nat, maxCode: int, opt: int, stat: int, ghost forced: seq<nat>)
    requires heap != fc && heap != dl && heap != depth && fc != dl && fc != depth && dl != depth
    requires slen != [] ==> elems <= |slen|
    requires 3 <= elems <= fc.Length == dl.Length <= depth.Length && elems < heap.Length
    requires Collected(heap[..], heapLen0, maxCode0, fc[..], elems) && UnusedZero(fc[..], dl[..], elems)
    modifies heap, fc, depth
    ensures heapLen >= 2 && AtLeastTwo(heap[..], heapLen, maxCode, old(fc[..]), forced, fc[..], dl[..], elems)
    ensures forced == ForcedFor(old(fc[..]), elems)
    ensures opt == -|forced|
    ensures stat + (if slen == [] then 0 else ForcedLength(slen, forced)) == 0
  {
    hide Collected, UnusedZero, ForcedLength, ForcedOk, ForcedFor;
    heapLen, maxCode, opt, stat := heapLen0, maxCode0, 0, 0;
    ghost var heap0 := heap[..];
    forced := [];
    assert AtLeastTwo(heap[..], heapLen, maxCode, old(fc[..]), forced, fc[..], dl[..],
        elems) by { NothingForced(fc[..], elems); }
    assert slen != [] ==> ForcedLength(slen, []) == 0 by { NoForcedLength(slen); }
    hide AtLeastTwo;
    while heapLen < 2
      invariant AtLeastTwo(heap[..], heapLen, maxCode, old(fc[..]), forced, fc[..], dl[..], elems)
      invariant forall i | 0 <= i < |forced| :: forced[i] < elems
      invariant heapLen0 <= heapLen <= (if heapLen0 < 2 then 2 else heapLen0)
                && forced == ForcedSoFar(heapLen0, maxCode0, heapLen)
      invariant heapLen == heapLen0 ==> maxCode == maxCode0
      invariant heapLen == heapLen0 + 1 ==> maxCode == ForcedMax(maxCode0)
      invariant opt == -|forced| && stat + (if slen == [] then 0 else ForcedLength(slen, forced)) == 0
      decreases 2 - heapLen
    {
      ForceOne(heap[..], heapLen, maxCode, old(fc[..]), forced, fc[..], dl[..], elems);
      var x := ForcedSymbol(maxCode);
      maxCode := ForcedMax(maxCode);
      heapLen := heapLen + 1;
      heap[heapLen] := x;
      fc[x] := 1;
      depth[x] := 0;
      opt := opt - 1;
      if slen != [] {
        ForcedLengthStep(slen, forced, x);
        stat := stat - slen[x];
      }
      forced := forced + [x];
    }
    ForcedIs(heap0, heapLen0, maxCode0, old(fc[..]), elems, forced);
  }

  lemma NothingForced(freq: seq<nat>, elems: nat)
    requires elems <= |freq|
    ensures ForcedOk(freq, [], elems) && WithForced(freq, []) == freq
  {}

  lemma NoForcedLength(len: seq<nat>)
    ensures ForcedLength(len, []) == 0
  {}

  lemma ForcedLengthStep(len: seq<nat>, forced: seq<nat>, x: nat)
    requires (forall i | 0 <= i < |forced| :: forced[i] < |len|) && x < |len|
    ensures ForcedLength(len, forced + [x]) == ForcedLength(len, forced) + len[x]
  {
    assert (forced + [x])[..|forced|] == forced;
  }

  // ----- total frequency -----

  function Total(freq: seq<nat>, n: nat): nat
    requires n <= |freq|
  {
    if n == 0 then 0 else Total(freq, n - 1) + freq[n - 1]
  }

  lemma {:induction false} TotalIsSum(freq: seq<nat>, elems: nat, n: nat)
    requires n <= elems <= |freq|
    ensures Total(freq, n) == Sum(Used(freq, elems), freq, n)
  {
    if n > 0 {
      TotalIsSum(freq, elems, n - 1);
    }
  }

  lemma {:induction false} TotalUpdate(freq: seq<nat>, x: nat, v: nat, n: nat)
    requires n <= |freq| && x < |freq|
    ensures Total(freq[x := v], n) == Total(freq, n) + (if x < n then v - freq[x] else 0)
  {
    if n > 0 {
      TotalUpdate(freq, x, v, n - 1);
    }
  }

  lemma {:induction false} ForcedTotal(freq: seq<nat>, forced: seq<nat>, elems: nat)
    requires ForcedOk(freq, forced, elems)
    ensures Total(WithForced(freq, forced), elems) == Total(freq, elems) + |forced|
  {
    if forced != [] {
      var front, x := forced[..|forced| - 1], forced[|forced| - 1];
      ForcedTotal(freq, front, elems);
      StillUnused(freq, front, x);
      TotalUpdate(WithForced(freq, front), x, 1, elems);
    }
  }

  // ----- the tree -----

  method Heapify(heap: array<nat>, heapLen: nat, fc: array<nat>, depth: array<nat>)
    requires heap != fc && heap != depth && 2 <= heapLen
    requires Nodes(heap[..], heapLen, fc[..], depth[..])
    modifies heap
    ensures Nodes(heap[..], heapLen, fc[..], depth[..]) && HeapFrom(heap[..], heapLen, fc[..], depth[..], 1, 0)
    ensures heapLen < heap.Length && multiset(heap[1..heapLen + 1]) == old(multiset(heap[1..heapLen + 1]))
  {
    assert HeapFrom(heap[..], heapLen, fc[..], depth[..], heapLen / 2 + 1, 0);
    assert heapLen < heap.Length;
    hide Nodes, HeapFrom, Rearranged;
    var n := heapLen / 2;
    ghost var freq, dep := fc[..], depth[..];
    while n >= 1
      invariant 0 <= n <= heapLen / 2 && fc[..] == freq && depth[..] == dep
      invariant Nodes(heap[..], heapLen, freq, dep) && HeapFrom(heap[..], heapLen, freq, dep, n + 1, 0)
      invariant multiset(heap[1..heapLen + 1]) == old(multiset(heap[1..heapLen + 1]))
    {
      PqDownHeap(heap, heapLen, fc, depth, n);
      n := n - 1;
    }
  }

  /** The symbols of the tree are those with a non-zero frequency. */
  lemma StartNodes(heap: seq<nat>, heapLen: nat, maxCode: int, freq: seq<nat>, depth: seq<nat>, elems: nat)
    requires Collected(heap, heapLen, maxCode, freq, elems) && |freq| <= |depth|
    ensures Nodes(heap, heapLen, freq, depth)
  {
    forall i | 1 <= i <= heapLen
      ensures heap[i] < |freq|
    {
      assert heap[i] == heap[1..heapLen + 1][i - 1];
      assert heap[i] in multiset(heap[1..heapLen + 1]);
    }
  }

  lemma StartGrowing(heap: seq<nat>, heapLen: nat, freq: seq<nat>, dl: seq<nat>, depth: seq<nat>, elems: nat)
    requires elems <= |freq| == |dl| && 2 * elems <= |dl| && 2 * elems < |heap|
    requires 2 <= heapLen <= elems && heapLen == |Used(freq, elems)|
    requires multiset(heap[1..heapLen + 1]) == multiset(Used(freq, elems))
    requires Nodes(heap, heapLen, freq, depth) && HeapFrom(heap, heapLen, freq, depth, 1, 0)
    requires Total(freq, elems) < 0x10000
    ensures Growing(heap, heapLen, |heap|, elems, elems, Used(freq, elems), dl, freq, depth, Total(freq, elems))
  {
    hide HeapFrom, Total, Structure, Sorted, Additive, Distinct;
    var leaves := Used(freq, elems);
    DistinctFromMultiset(heap[1..heapLen + 1], leaves);
    TotalIsSum(freq, elems, elems);
    SumTrim(leaves, freq, elems, |freq|);
    StartStructure(heap, heapLen, freq, dl, elems);
  }

  lemma StartStructure(heap: seq<nat>, heapLen: nat, freq: seq<nat>, dl: seq<nat>, elems: nat)
    requires elems <= |freq| == |dl| && 2 * elems < |heap| && 2 <= heapLen <= elems && heapLen == |Used(freq, elems)|
    requires multiset(heap[1..heapLen + 1]) == multiset(Used(freq, elems))
    requires forall i | 1 <= i <= heapLen :: heap[i] < |freq|
    ensures Structure(heap, heapLen, |heap|, elems, elems, Used(freq, elems), dl)
    ensures Sorted(heap, heapLen, |heap|, freq) && Additive(heap, |heap|, elems, elems, freq)
  {
    assert heap[|heap|..] == [];
    assert AllNodes(Used(freq, elems), elems, elems) == Used(freq, elems);
  }

  /** The heap is merged into a single tree, and the frequencies of the leaves stay what they are. */
  method GrowTree(heap: array<nat>, heapLen0: nat, fc: array<nat>, dl: array<nat>, depth: array<nat>, elems: nat,
                  ghost leaves: set<nat>, ghost total: int)
    returns (heapMax: nat, ghost node: nat)
    requires heap != fc && heap != dl && heap != depth && fc != dl && fc != depth && dl != depth
    requires heapLen0 >= 2 && elems <= fc.Length
    requires Growing(heap[..], heapLen0, heap.Length, elems, elems, leaves, dl[..], fc[..], depth[..], total)
    modifies heap, fc, dl, depth
    ensures Growing(heap[..], 1, heapMax, elems, node, leaves, dl[..], fc[..], depth[..], total)
    ensures fc[..elems] == old(fc[..elems])
    ensures KeptOutside(old(dl[..]), dl[..], AllNodes(leaves, elems, node))
  {
    hide Growing, AllNodes;
    heapMax, node := heap.Length, elems;
    var heapLen := heapLen0;
    var nextNode := elems;
    while heapLen >= 2
      invariant heapLen >= 1 && nextNode == node >= elems && node <= fc.Length
      invariant Growing(heap[..], heapLen, heapMax, elems, node, leaves, dl[..], fc[..], depth[..], total)
      invariant fc[..elems] == old(fc[..elems])
      invariant KeptOutside(old(dl[..]), dl[..], AllNodes(leaves, elems, node))
    {
      Sizes(heap[..], heapLen, heapMax, elems, node, leaves, dl[..], fc[..], depth[..], total);
      ghost var before := dl[..];
      MergeTwo(heap, heapLen, heapMax, fc, dl, depth, elems, nextNode, leaves, total);
      assert fc[..elems] == fc[..node][..elems];
      KeptMore(old(dl[..]), before, dl[..], leaves, elems, node);
      heapLen, heapMax, nextNode := heapLen - 1, heapMax - 2, nextNode + 1;
      node := node + 1;
    }
  }

  lemma KeptMore(a: seq<nat>, b: seq<nat>, c: seq<nat>, leaves: set<nat>, elems: nat, node: nat)
    requires KeptOutside(a, b, AllNodes(leaves, elems, node)) && KeptOutside(b, c, AllNodes(leaves, elems, node))
    ensures KeptOutside(a, c, AllNodes(leaves, elems, node + 1))
  {}

  /** Exactly the symbols that occur, and the forced ones, have a length. */
  ghost predicate Support(freq: seq<nat>, dl: seq<nat>, elems: nat)
    requires elems <= |freq| && elems <= |dl|
  {
    forall x: nat | x < elems :: dl[x] != 0 <==> freq[x] != 0 || x in ForcedFor(freq, elems)
  }

  /** What build_tree establishes, for the frequencies freq it was given. */
  ghost predicate Built(freq: seq<nat>, fc: seq<nat>, dl: seq<nat>, elems: nat, maxCode: nat, top: nat)
  {
    && 1 <= maxCode < elems <= |freq| && elems <= |fc| && elems <= |dl| && top <= MAX_BITS
    && (forall i | 0 <= i <= maxCode :: dl[i] <= top)
    && KraftTo(dl[..maxCode + 1], MAX_BITS, MAX_BITS) == Pow2(MAX_BITS)
    && (forall x | 0 <= x < elems && freq[x] != 0 :: x <= maxCode && dl[x] != 0)
    && (forall x | maxCode < x < elems :: dl[x] == 0)
    && (forall n | 0 <= n <= maxCode :: HasCode(dl[..maxCode + 1], n, fc[n]))
  }

  /** The finished tree as gen_bitlen expects it. */
  lemma TreeReady(heap: seq<nat>, heapMax: nat, elems: nat, node: nat, leaves: set<nat>, dl0: seq<nat>, dl: seq<nat>,
                  freq: seq<nat>,
                  depth: seq<nat>, total: int, slen: seq<nat>, extra: Extra, maxCode: nat, top: nat, heap': seq<nat>)
    requires Growing(heap, 1, heapMax, elems, node, leaves, dl, freq, depth, total)
    requires KeptOutside(dl0, dl, AllNodes(leaves, elems, node)) && UnusedZero(freq, dl0, elems)
    requires elems <= |freq| && leaves == Used(freq, elems) && maxCode < elems
             && (forall x | x in leaves :: x <= maxCode)
    requires slen != [] ==> elems <= |slen|
    requires 1 <= top <= MAX_BITS && elems <= Pow2(top)
    requires 1 <= heapMax <= |heap| && heap' == heap[heapMax - 1 := heap[1]]
    ensures Ready(Job(heap'[heapMax - 1..], elems, leaves, freq, slen, dl, extra, maxCode, top))
  {
    hide Nodes, HeapFrom, Sorted, Additive, Pow2, TopDown, HeapTotal, Shape;
    Completed(heap, heapMax, elems, node, leaves, dl);
    BelowElems(heap'[heapMax - 1..], elems, leaves);
    var order := heap'[heapMax - 1..];
    ShapeTopDown(order, elems, leaves, |dl|);
    forall x: nat | x < elems && x !in leaves
      ensures freq[x] == 0 && dl[x] == 0
    {
      assert x !in AllNodes(leaves, elems, node);
    }
  }

  lemma LeavesBelow(freq: seq<nat>, elems: nat, maxCode: int)
    requires elems <= |freq| && (forall x | x in Used(freq, elems) :: x <= maxCode) && |Used(freq, elems)| >= 2
    ensures maxCode >= 1 && |Used(freq, elems)| <= elems
  {
    UsedCard(freq, elems);
    if maxCode < 1 {
      assert Used(freq, elems) <= {0};
      SubsetCard(Used(freq, elems), {0});
    }
  }

  lemma {:induction false} UsedCard(freq: seq<nat>, n: nat)
    requires n <= |freq|
    ensures |Used(freq, n)| <= n
  {
    if n == 0 {
      assert Used(freq, 0) == {};
    } else {
      UsedCard(freq, n - 1);
      assert Used(freq, n) <= Used(freq, n - 1) + {n - 1};
      SubsetCard(Used(freq, n), Used(freq, n - 1) + {n - 1});
    }
  }

  /** The corrections for forced symbols cancel exactly what they add to the size. */
  lemma ForcedCancel(j: Job, len: seq<nat>, freq0: seq<nat>, forced: seq<nat>)
    requires Ready(j) && |len| == |j.dad| && j.leaves == Used(j.freq, j.elems)
    requires ForcedOk(freq0, forced, j.elems) && j.elems <= |j.freq|
             && j.freq[..j.elems] == WithForced(freq0, forced)[..j.elems]
    requires forall x | 0 <= x < 3 :: j.extra.At(x) == 0
    requires forced != [] ==> |j.leaves| == 2 && Unclamped(j, len)
    requires forall i | 0 <= i < |forced| :: j.freq[forced[i]] == 1
    ensures j.elems <= |j.freq| && j.elems <= |len| && j.elems <= |freq0|
    ensures Cost(j.freq, len, j.extra, j.elems) - |forced| == Cost(freq0, len, j.extra, j.elems)
    ensures j.slen != [] ==>
              && j.elems <= |j.slen|
              && Cost(j.freq, j.slen, j.extra, j.elems) - ForcedLength(j.slen, forced)
                  == Cost(freq0, j.slen, j.extra, j.elems)
  {
    hide Cost, ForcedLength, WithForced, Unclamped;
    ReadyFacts(j);
    assert j.slen != [] ==> j.elems <= |j.slen|;
    hide Ready;
    ForcedCost(freq0, forced, len, j.extra, j.elems);
    CostSame(j.freq, WithForced(freq0, forced), len, j.extra, j.elems);
    if j.slen != [] {
      ForcedCost(freq0, forced, j.slen, j.extra, j.elems);
      CostSame(j.freq, WithForced(freq0, forced), j.slen, j.extra, j.elems);
    }
    forall i | 0 <= i < |forced|
      ensures len[forced[i]] == 1
    {
      assert forced[i] in j.leaves;
      TwoLengths(j, len, forced[i]);
    }
    AllOnes(len, forced);
  }

  lemma {:induction false} CostSame(freq: seq<nat>, freq': seq<nat>, len: seq<nat>, extra: Extra, n: nat)
    requires n <= |freq| && n <= |freq'| && n <= |len| && freq[..n] == freq'[..n]
    ensures Cost(freq, len, extra, n) == Cost(freq', len, extra, n)
  {
    if n > 0 {
      assert freq[n - 1] == freq[..n][n - 1] && freq'[n - 1] == freq'[..n][n - 1];
      assert freq[..n - 1] == freq[..n][..n - 1] && freq'[..n - 1] == freq'[..n][..n - 1];
      CostSame(freq, freq', len, extra, n - 1);
    }
  }

  lemma {:induction false} AllOnes(len: seq<nat>, forced: seq<nat>)
    requires forall i | 0 <= i < |forced| :: forced[i] < |len| && len[forced[i]] == 1
    ensures ForcedLength(len, forced) == |forced|
  {
    if forced != [] {
      AllOnes(len, forced[..|forced| - 1]);
    }
  }

  /**
   build_tree: from frequencies to lengths and codes.  The results opt and stat
   are what is added to opt_len and static_len.
   */
  method BuildTree(heap: array<nat>, fc: array<nat>, dl: array<nat>, depth: array<nat>, slen: seq<nat>,
                   blCount: array<nat>,
                   extra: Extra, elems: nat, maxLength: nat)
    returns (maxCode: nat, opt: int, stat: int, ghost j: Job, ghost clamped: bool)
    requires heap != fc && heap != dl && heap != depth && fc != dl && fc != depth && dl != depth
    requires blCount != heap && blCount != fc && blCount != dl && blCount != depth
    requires slen != [] ==> elems <= |slen|
    requires 3 <= elems && 2 * elems <= fc.Length == dl.Length <= depth.Length && 2 * elems < heap.Length
    requires blCount.Length == MAX_BITS + 1 && 1 <= maxLength <= MAX_BITS && elems <= Pow2(maxLength)
    requires forall x | 0 <= x < 3 :: extra.At(x) == 0
    requires Total(fc[..], elems) < 0xfffe
    modifies heap, fc, dl, depth, blCount
    ensures Built(old(fc[..]), fc[..], dl[..], elems, maxCode, maxLength)
    ensures opt == Cost(old(fc[..]), dl[..], extra, elems)
    ensures stat == if slen == [] then 0 else Cost(old(fc[..]), slen, extra, elems)
    ensures Outcome(old(fc[..elems]), dl[..], extra, elems, maxCode, maxLength, j, clamped)
  {
    hide Greedy, Descending, BestOrder, RepairedCounts, Deep, Optimal, ForcedFor, Support, Outcome, Ready, Complete,
         OthersZero, Unclamped, Cost,
         ForcedLength, Built, Used, HasCode, Decodable, Pow2, WithForced, Total;
    ghost var freq0 := fc[..];
    var heapMax;
    ghost var forced;
    heapMax, maxCode, opt, stat, j, forced := MakeTree(heap, fc, dl, depth, slen, extra, elems, maxLength);
    var o, s;
    GreedyDescends(j);
    o, s, clamped := GenBitlen(heap, heapMax, fc, dl, slen, blCount, extra, elems, maxCode, maxLength, j);
    ForcedCancel(j, dl[..], freq0, forced);
    opt, stat := opt + o, stat + s;
    ReadyForCodes(j.leaves, dl[..], blCount[..], maxCode, maxLength);
    GenCodes(fc, dl, blCount, maxCode);
    Finish(j, freq0, fc[..], dl[..], blCount[..]);
    Came(j, freq0, dl[..], blCount[..], clamped);
  }

  lemma GreedyDescends(j: Job)
    requires Greedy(j.order, j.elems, |j.leaves|, j.freq)
    ensures Descending(j.order, j.freq)
  {}

  /**
   How the lengths come about, for the frequencies freq of the symbols: by
   merging the least frequent trees until one is left, and clamping the depths
   of its leaves if it is too deep. Unless that happens no code is better; if it
   happens the counts of the lengths are repaired, and no other way to give out
   the same lengths is better.
   */
  ghost predicate Outcome(freq: seq<nat>, len: seq<nat>, extra: Extra, elems: nat, maxCode: nat, top: nat, j: Job,
                          clamped: bool)
  {
    && |freq| == elems <= |len| && elems <= |j.freq| && Ready(j)
    && j.elems == elems && j.extra == extra && j.maxCode == maxCode && j.top == top && j.leaves == Used(j.freq, elems)
    && ForcedOk(freq, ForcedFor(freq, elems), elems) && j.freq[..elems] == WithForced(freq, ForcedFor(freq, elems))
    && Greedy(j.order, elems, |j.leaves|, j.freq)
    && maxCode in j.leaves && Support(freq, len, elems) && (forall x | maxCode < x < elems :: len[x] == 0)
    && (clamped <==> Deep(j)) && (!clamped ==> Unclamped(j, len) && Optimal(freq, len, extra, elems))
    && (clamped ==> BestOrder(freq, len, extra, elems)
                    && forall b | 1 <= b <= MAX_BITS :: Count(len[..maxCode + 1], b) == RepairedCounts(j)[b])
  }

  /** The lengths lens, of all symbols or up to the last one that has a code, are what build_tree makes of freq. */
  ghost predicate TreeOf(freq: seq<nat>, lens: seq<nat>, extra: Extra, elems: nat, top: nat)
  {
    exists j: Job, len: seq<nat>, clamped: bool ::
      && Outcome(freq, len, extra, elems, j.maxCode, top, j, clamped)
      && lens <= len && (|lens| == elems || |lens| == j.maxCode + 1)
  }

  lemma IsTree(freq: seq<nat>, len: seq<nat>, n: nat, extra: Extra, elems: nat, maxCode: nat, top: nat, j: Job,
               clamped: bool)
    requires Outcome(freq, len, extra, elems, maxCode, top, j, clamped) && n <= |len|
             && (n == elems || n == maxCode + 1)
    ensures TreeOf(freq, len[..n], extra, elems, top) && (n == maxCode + 1 ==> len[maxCode] != 0)
  {
    hide Greedy, Deep, Optimal, ForcedFor, Ready, Unclamped, WithForced;
    assert Outcome(freq, len, extra, elems, j.maxCode, top, j, clamped);
    assert j.freq[maxCode] == j.freq[..elems][maxCode];
    UsedOrForced(freq, ForcedFor(freq, elems), maxCode);
  }

  /** What has a length in the tree is what occurs or is forced. */
  lemma TreeSupport(freq: seq<nat>, lens: seq<nat>, extra: Extra, elems: nat, top: nat)
    requires TreeOf(freq, lens, extra, elems, top)
    ensures |lens| <= elems == |freq|
    ensures forall x: nat | x < |lens| :: lens[x] != 0 <==> freq[x] != 0 || x in ForcedFor(freq, elems)
  {
    hide Greedy, Deep, Optimal, ForcedFor, Unclamped, WithForced, Outcome;
    var j: Job, len: seq<nat>, clamped: bool :|
      && Outcome(freq, len, extra, elems, j.maxCode, top, j, clamped)
      && lens <= len && (|lens| == elems || |lens| == j.maxCode + 1);
    OutcomeFacts(freq, len, extra, elems, j.maxCode, top, j, clamped);
  }

  lemma OutcomeFacts(freq: seq<nat>, len: seq<nat>, extra: Extra, elems: nat, maxCode: nat, top: nat, j: Job,
                     clamped: bool)
    requires Outcome(freq, len, extra, elems, maxCode, top, j, clamped)
    ensures |freq| == elems <= |len| && maxCode < elems && Support(freq, len, elems)
    ensures forall x | maxCode < x < elems :: len[x] == 0
    ensures Ready(j) && j.top == top && (clamped <==> Deep(j)) && (!clamped ==> Unclamped(j, len))
    ensures forall x: nat | x < elems :: x in j.leaves <==> freq[x] != 0 || x in ForcedFor(freq, elems)
    ensures forall x | x in j.leaves :: x < elems
  {
    hide Greedy, Deep, Optimal, ForcedFor, Ready, Unclamped, WithForced;
    forall x: nat | x < elems
      ensures x in j.leaves <==> freq[x] != 0 || x in ForcedFor(freq, elems)
    {
      assert j.freq[x] == j.freq[..elems][x];
      UsedOrForced(freq, ForcedFor(freq, elems), x);
    }
  }

  /** With two symbols that occur none is forced. */
  lemma NoForced(freq: seq<nat>, elems: nat, a: nat, b: nat)
    requires a < b < elems <= |freq| && freq[a] != 0 && freq[b] != 0
    ensures ForcedFor(freq, elems) == []
  {
    SubsetCard({a, b}, Used(freq, elems));
  }

  /** Without any symbol the first two are forced. */
  lemma TwoForced(freq: seq<nat>, elems: nat)
    requires elems <= |freq| && forall x: nat | x < elems :: freq[x] == 0
    ensures ForcedFor(freq, elems) == [0, 1]
  {
    assert Used(freq, elems) == {};
  }

  /** A tree with two symbols gives each of them one bit. */
  lemma TwoCodes(freq: seq<nat>, lens: seq<nat>, extra: Extra, elems: nat, top: nat, a: nat, b: nat)
    requires TreeOf(freq, lens, extra, elems, top) && a < b < elems == |freq|
    requires forall x: nat | x < elems :: (freq[x] != 0 || x in ForcedFor(freq, elems)) <==> x == a || x == b
    ensures b < |lens| <= elems && forall x: nat | x < |lens| :: lens[x] == if x == a || x == b then 1 else 0
  {
    hide Greedy, Deep, Optimal, ForcedFor, Ready, Unclamped, WithForced, Outcome;
    var j: Job, len: seq<nat>, clamped: bool :|
      && Outcome(freq, len, extra, elems, j.maxCode, top, j, clamped)
      && lens <= len && (|lens| == elems || |lens| == j.maxCode + 1);
    OutcomeFacts(freq, len, extra, elems, j.maxCode, top, j, clamped);
    assert j.leaves == {a, b};
    TwoNotDeep(j);
    TwoLengths(j, len, a);
    TwoLengths(j, len, b);
  }

  lemma Came(j: Job, freq0: seq<nat>, len: seq<nat>, count: seq<nat>, clamped: bool)
    requires Ready(j) && j.elems <= |freq0| && j.elems <= |j.freq| && j.leaves == Used(j.freq, j.elems)
             && j.maxCode in j.leaves
    requires Complete(j.leaves, len, count, j.maxCode, j.top) && OthersZero(j, len) && j.elems <= |len|
    requires var forced := ForcedFor(freq0, j.elems);
             && ForcedOk(freq0, forced, j.elems) && j.freq[..j.elems] == WithForced(freq0, forced)[..j.elems]
             && (forced != [] ==> |j.leaves| == 2)
    requires Greedy(j.order, j.elems, |j.leaves|, j.freq) && (clamped <==> Deep(j)) && (!clamped ==> Unclamped(j, len))
    requires clamped ==> |j.leaves| != 2 && count == RepairedCounts(j) && BestOrder(j.freq, len, j.extra, j.elems)
    ensures Outcome(freq0[..j.elems], len, j.extra, j.elems, j.maxCode, j.top, j, clamped)
  {
    hide Greedy, Deep, Optimal, ForcedFor, Ready, Unclamped, Pow2, Count, KraftTo, BestOrder, WithForced, ForcedOk,
         RepairedCounts;
    var freq, forced := freq0[..j.elems], ForcedFor(freq0, j.elems);
    PrefixForced(freq0, j.elems);
    LeavesAre(freq, forced, j.freq, j.elems);
    if !clamped {
      BuildOptimal(j, freq, len);
    } else {
      NoneAdded(freq);
      SameBest(j.freq, freq, len, j.extra, j.elems);
    }
  }

  lemma NoneAdded(freq: seq<nat>)
    ensures WithForced(freq, []) == freq
  {}

  /** Only the frequencies of the symbols matter. */
  lemma SameBest(freq: seq<nat>, freq': seq<nat>, len: seq<nat>, extra: Extra, elems: nat)
    requires elems <= |freq| && elems <= |freq'| && elems <= |len| && freq[..elems] == freq'[..elems]
    requires BestOrder(freq, len, extra, elems)
    ensures BestOrder(freq', len, extra, elems)
  {
    hide Cost, Count;
    assert forall x | 0 <= x < elems :: freq[x] == freq[..elems][x] == freq'[..elems][x] == freq'[x];
    CostSame(freq, freq', len, extra, elems);
    forall other: seq<nat> | SameLengths(len, other, elems)
      ensures Cost(freq', len, extra, elems) <= Cost(freq', other, extra, elems)
    {
      CostSame(freq, freq', other, extra, elems);
    }
  }

  lemma PrefixForced(freq: seq<nat>, elems: nat)
    requires elems <= |freq| && ForcedOk(freq, ForcedFor(freq, elems), elems)
    ensures ForcedFor(freq[..elems], elems) == ForcedFor(freq, elems)
            && ForcedOk(freq[..elems], ForcedFor(freq, elems), elems)
    ensures WithForced(freq[..elems], ForcedFor(freq, elems)) == WithForced(freq, ForcedFor(freq, elems))[..elems]
  {
    assert Used(freq[..elems], elems) == Used(freq, elems);
    if |Used(freq, elems)| == 1 {
      OneElement(Used(freq, elems));
    }
    WithForcedPrefix(freq, ForcedFor(freq, elems), elems);
  }

  lemma OneElement(S: set<nat>)
    requires |S| == 1
    ensures forall x, y | x in S && y in S :: x == y
  {
    forall x, y | x in S && y in S
      ensures x == y
    {
      if x != y {
        SubsetCard({x, y}, S);
      }
    }
  }

  lemma {:induction false} WithForcedPrefix(freq: seq<nat>, forced: seq<nat>, n: nat)
    requires n <= |freq| && forall i | 0 <= i < |forced| :: forced[i] < n
    ensures WithForced(freq[..n], forced) == WithForced(freq, forced)[..n]
  {
    if forced != [] {
      WithForcedPrefix(freq, forced[..|forced| - 1], n);
    }
  }

  /** The part of build_tree up to the call of gen_bitlen. */
  method MakeTree(heap: array<nat>, fc: array<nat>, dl: array<nat>, depth: array<nat>, slen: seq<nat>,
                  extra: Extra, elems: nat, maxLength: nat)
    returns (heapMax: nat, maxCode: nat, opt: int, stat: int, ghost j: Job, ghost forced: seq<nat>)
    requires heap != fc && heap != dl && heap != depth && fc != dl && fc != depth && dl != depth
    requires slen != [] ==> elems <= |slen|
    requires 3 <= elems && 2 * elems <= fc.Length == dl.Length <= depth.Length && 2 * elems < heap.Length
    requires 1 <= maxLength <= MAX_BITS && elems <= Pow2(maxLength)
    requires Total(fc[..], elems) < 0xfffe
    modifies heap, fc, dl, depth
    ensures heapMax <= heap.Length
    ensures j == Job(heap[heapMax..], elems, j.leaves, fc[..], slen, dl[..], extra, maxCode, maxLength)
    ensures Ready(j) && j.leaves == Used(j.freq, elems) && 1 <= maxCode < elems && maxCode in j.leaves
    ensures Greedy(j.order, elems, |j.leaves|, j.freq)
    ensures forced == ForcedFor(old(fc[..]), elems)
    ensures ForcedOk(old(fc[..]), forced, elems) && fc[..elems] == WithForced(old(fc[..]), forced)[..elems]
    ensures (forced != [] ==> |j.leaves| == 2) && forall i | 0 <= i < |forced| :: fc[forced[i]] == 1
    ensures opt == -|forced| && stat + (if slen == [] then 0 else ForcedLength(slen, forced)) == 0
  {
    hide Collected, UnusedZero, AtLeastTwo, Growing, Ready, ForcedLength, Used, Total, KeptOutside, AllNodes, Nodes,
         HeapFrom, Pow2,
         WithForced, Greedy, ForcedFor;
    ghost var freq0 := fc[..];
    var heapLen, max := CollectLeaves(heap, fc, dl, depth, elems);
    heapLen, max, opt, stat, forced := ForceTwo(heap, heapLen, max, fc, dl, depth, slen, elems);
    ghost var freq, leaves, dl0 := fc[..], Used(fc[..], elems), dl[..];
    Prepared(heap[..], heapLen, max, freq0, forced, freq, dl0, depth[..], elems);
    maxCode := max;
    Heapify(heap, heapLen, fc, depth);
    StartGrowing(heap[..], heapLen, freq, dl0, depth[..], elems);
    ghost var node;
    heapMax, node := GrowTree(heap, heapLen, fc, dl, depth, elems, leaves, Total(freq, elems));
    Sizes(heap[..], 1, heapMax, elems, node, leaves, dl[..], fc[..], depth[..], Total(freq, elems));
    LeavesKept(freq, fc[..], dl0, elems);
    ghost var grown := heap[..];
    heapMax := heapMax - 1;
    heap[heapMax] := heap[1];
    TreeReady(grown, heapMax + 1, elems, node, leaves, dl0, dl[..], fc[..], depth[..], Total(freq, elems), slen, extra,
        maxCode, maxLength, heap[..]);
    TreeGreedy(grown, heapMax + 1, elems, node, leaves, dl[..], fc[..], depth[..], Total(freq, elems), heap[..]);
    j := Job(heap[heapMax..], elems, leaves, fc[..], slen, dl[..], extra, maxCode, maxLength);
  }

  lemma TreeGreedy(heap: seq<nat>, heapMax: nat, elems: nat, node: nat, leaves: set<nat>, dl: seq<nat>, freq: seq<nat>,
                   depth: seq<nat>, total: int, heap': seq<nat>)
    requires Growing(heap, 1, heapMax, elems, node, leaves, dl, freq, depth, total)
    requires 1 <= heapMax <= |heap| && heap' == heap[heapMax - 1 := heap[1]]
    ensures Greedy(heap'[heapMax - 1..], elems, |leaves|, freq)
  {
    hide Nodes, HeapFrom, HeapTotal, Structure;
    Sizes(heap, 1, heapMax, elems, node, leaves, dl, freq, depth, total);
    var order := heap'[heapMax - 1..];
    assert order == [heap[1]] + heap[heapMax..];
    assert forall t | 1 <= t < |order| :: order[t] == heap[heapMax - 1 + t];
    forall j | 0 <= j < |leaves| - 1
      ensures freq[elems + j] == freq[First(order, j)] + freq[Second(order, j)]
    {
      assert freq[elems + j] == freq[heap[|heap| - 1 - 2 * j]] + freq[heap[|heap| - 2 - 2 * j]];
    }
  }

  lemma LeavesKept(freq: seq<nat>, freq': seq<nat>, dl: seq<nat>, elems: nat)
    requires elems <= |freq| && elems <= |freq'| && freq'[..elems] == freq[..elems] && UnusedZero(freq, dl, elems)
    ensures Used(freq', elems) == Used(freq, elems) && UnusedZero(freq', dl, elems)
    ensures forall x: nat | x < elems :: freq'[x] == freq[x]
  {
    forall x: nat | x < elems
      ensures freq'[x] == freq[x]
    {
      assert freq'[x] == freq'[..elems][x];
    }
  }

  lemma ReadyForCodes(leaves: set<nat>, len: seq<nat>, count: seq<nat>, maxCode: nat, top: nat)
    requires Complete(leaves, len, count, maxCode, top)
    ensures maxCode < |len| && |count| == MAX_BITS + 1 && count[0] == 0 && Decodable(len[..maxCode + 1])
    ensures forall l | 1 <= l <= MAX_BITS :: count[l] == Count(len[..maxCode + 1], l)
  {
    hide KraftTo, Count, Pow2;
  }

  lemma {:induction false} UsedOrForced(freq: seq<nat>, forced: seq<nat>, x: nat)
    requires (forall i | 0 <= i < |forced| :: forced[i] < |freq|) && x < |freq|
    ensures WithForced(freq, forced)[x] != 0 <==> freq[x] != 0 || x in forced
  {
    if forced != [] {
      var front := forced[..|forced| - 1];
      UsedOrForced(freq, front, x);
      assert forced == front + [forced[|forced| - 1]];
    }
  }

  /** The leaves are the symbols that occur and the forced ones. */
  lemma LeavesAre(freq0: seq<nat>, forced: seq<nat>, freq: seq<nat>, elems: nat)
    requires elems <= |freq0| && elems <= |freq| && ForcedOk(freq0, forced, elems)
    requires freq[..elems] == WithForced(freq0, forced)[..elems]
    ensures forall x: nat | x < elems :: x in Used(freq, elems) <==> freq0[x] != 0 || x in forced
  {
    forall x: nat | x < elems
      ensures x in Used(freq, elems) <==> freq0[x] != 0 || x in forced
    {
      assert freq[x] == freq[..elems][x];
      UsedOrForced(freq0, forced, x);
    }
  }

  lemma Finish(j: Job, freq0: seq<nat>, fc: seq<nat>, len: seq<nat>, count: seq<nat>)
    requires Ready(j) && j.leaves == Used(j.freq, j.elems) && Complete(j.leaves, len, count, j.maxCode, j.top)
             && OthersZero(j, len)
    requires j.elems <= |freq0| && ForcedOk(freq0, ForcedFor(freq0, j.elems), j.elems) && j.elems <= |j.freq|
             && |j.freq| == |fc|
    requires j.freq[..j.elems] == WithForced(freq0, ForcedFor(freq0, j.elems))[..j.elems] && j.maxCode >= 1
    requires forall n | 0 <= n <= j.maxCode :: HasCode(len[..j.maxCode + 1], n, fc[n])
    ensures Built(freq0, fc, len, j.elems, j.maxCode, j.top)
  {
    hide KraftTo, Count, Pow2, HasCode, Shape, TopDown, DadsFrom, ForcedFor, ForcedOk, WithForced, Ready, Used;
    ReadyFacts(j);
    var forced := ForcedFor(freq0, j.elems);
    LeavesAre(freq0, forced, j.freq, j.elems);
    forall i | 0 <= i <= j.maxCode
      ensures len[i] <= j.top
    {
      assert i !in j.leaves ==> len[i] == 0;
    }
  }

  /** What the first two steps hand to the construction of the tree. */
  lemma Prepared(heap: seq<nat>, heapLen: nat, maxCode: int, freq0: seq<nat>, forced: seq<nat>, freq: seq<nat>,
                 dl: seq<nat>,
                 depth: seq<nat>, elems: nat)
    requires AtLeastTwo(heap, heapLen, maxCode, freq0, forced, freq, dl, elems) && heapLen >= 2 && |freq| <= |depth|
    requires elems <= |freq0| && Total(freq0, elems) < 0xfffe
    ensures elems <= |freq| && 1 <= maxCode < elems && 2 <= heapLen <= elems && heapLen < |heap|
    ensures heapLen == |Used(freq, elems)| && multiset(heap[1..heapLen + 1]) == multiset(Used(freq, elems))
    ensures Nodes(heap, heapLen, freq, depth) && Total(freq, elems) < 0x10000 && UnusedZero(freq, dl, elems)
    ensures (forall x | x in Used(freq, elems) :: x <= maxCode) && maxCode in Used(freq, elems)
    ensures ForcedOk(freq0, forced, elems) && freq == WithForced(freq0, forced)
    ensures forced != [] ==> heapLen == 2
    ensures forall i | 0 <= i < |forced| :: freq[forced[i]] == 1
  {
    hide WithForced, Total, UnusedZero;
    StartNodes(heap, heapLen, maxCode, freq, depth, elems);
    LeavesBelow(freq, elems, maxCode);
    ForcedTotal(freq0, forced, elems);
  }

  // ----- optimality -----

  ghost function ExtraCost(freq: seq<nat>, extra: Extra, n: nat): nat
    requires n <= |freq|
  {
    if n == 0 then 0 else ExtraCost(freq, extra, n - 1) + freq[n - 1] * extra.At(n - 1)
  }

  lemma {:induction false} CostSplit(leaves: set<nat>, freq: seq<nat>, len: seq<nat>, extra: Extra, n: nat)
    requires n <= |freq| == |len| && forall x: nat | x < n && x !in leaves :: freq[x] == 0
    ensures Cost(freq, len, extra, n) == Sum(leaves, Products(freq, len), n) + ExtraCost(freq, extra, n)
  {
    if n > 0 {
      CostSplit(leaves, freq, len, extra, n - 1);
      TwoParts(freq[n - 1], len[n - 1], extra.At(n - 1));
    }
  }

  lemma TwoParts(f: nat, l: nat, x: nat)
    ensures f * (l + x) == f * l + f * x
  {}

  /**
   When no length had to be clamped, the size computed for the tree is minimal
   among all lengths that a prefix code for the same symbols can have.
   */
  lemma BuiltOptimal(j: Job, len: seq<nat>, other: seq<nat>, otherTop: nat)
    requires Unclamped(j, len) && Greedy(j.order, j.elems, |j.leaves|, j.freq)
    requires |other| == |len| && Fits(j.leaves, other, otherTop)
    ensures j.elems <= |j.freq| && j.elems <= |len| && j.elems <= |other|
    ensures Cost(j.freq, len, j.extra, j.elems) <= Cost(j.freq, other, j.extra, j.elems)
  {
    hide Greedy, Fits, Weighted, Products, Cost, Levels, Overflow, DadsFrom, Shape, Pow2;
    TreeIsOptimal(j.order, j.elems, j.leaves, j.freq, len, j.top, other, otherTop);
    BelowElems(j.order, j.elems, j.leaves);
    SymbolCost(j, len);
    SymbolCost(j, other);
  }

  /** Lengths that a prefix code for the symbols that occur can have; a code has at least one bit. */
  ghost predicate CodeLengths(freq: seq<nat>, elems: nat, len: seq<nat>, top: nat)
    requires elems <= |freq|
  {
    elems <= |len| && Fits(Used(freq, elems), len, top) && forall x | x in Used(freq, elems) :: len[x] >= 1
  }

  /** No prefix code for the symbols that occur, of any maximum length, makes the size smaller. */
  ghost predicate Optimal(freq: seq<nat>, len: seq<nat>, extra: Extra, elems: nat)
    requires elems <= |freq| && elems <= |len|
  {
    forall other: seq<nat>, top: nat | CodeLengths(freq, elems, other, top) ::
      Cost(freq, len, extra, elems) <= Cost(freq, other, extra, elems)
  }

  lemma BuildOptimal(j: Job, freq0: seq<nat>, len: seq<nat>)
    requires Unclamped(j, len) && j.leaves == Used(j.freq, j.elems) && Greedy(j.order, j.elems, |j.leaves|, j.freq)
    requires j.elems <= |freq0| && j.elems <= |j.freq|
    requires ForcedOk(freq0, ForcedFor(freq0, j.elems), j.elems)
             && (ForcedFor(freq0, j.elems) != [] ==> |j.leaves| == 2)
    requires j.freq[..j.elems] == WithForced(freq0, ForcedFor(freq0, j.elems))[..j.elems]
    ensures j.elems <= |len| && Optimal(freq0, len, j.extra, j.elems)
  {
    hide Greedy, Fits, Cost, Levels, Overflow, DadsFrom, Shape, Pow2, ForcedFor, TopDown;
    forall other: seq<nat>, top: nat | CodeLengths(freq0, j.elems, other, top)
      ensures Cost(freq0, len, j.extra, j.elems) <= Cost(freq0, other, j.extra, j.elems)
    {
      if ForcedFor(freq0, j.elems) == [] {
        NoneForced(j, freq0, len, other, top);
      } else {
        SomeForced(j, freq0, len, other, top);
      }
    }
  }

  /** With two symbols or more the tree is that of the frequencies given. */
  lemma NoneForced(j: Job, freq0: seq<nat>, len: seq<nat>, other: seq<nat>, top: nat)
    requires Unclamped(j, len) && j.leaves == Used(j.freq, j.elems) && Greedy(j.order, j.elems, |j.leaves|, j.freq)
    requires j.elems <= |freq0| && j.elems <= |j.freq| && j.freq[..j.elems] == freq0[..j.elems]
    requires CodeLengths(freq0, j.elems, other, top)
    ensures j.elems <= |len| && Cost(freq0, len, j.extra, j.elems) <= Cost(freq0, other, j.extra, j.elems)
  {
    hide Greedy, Cost, Levels, Overflow, DadsFrom, Shape, Pow2, TopDown, Fits;
    SameUsed(j.freq, freq0, j.elems);
    var resized := other[..j.elems] + seq(|len| - j.elems, _ => 0);
    FitsResized(j.leaves, other, resized, top, j.elems);
    BuiltOptimal(j, len, resized, top);
    CostSame(j.freq, freq0, len, j.extra, j.elems);
    CostSame(j.freq, freq0, resized, j.extra, j.elems);
    CostLengths(freq0, resized, other, j.extra, j.elems);
  }

  lemma SameUsed(freq: seq<nat>, freq': seq<nat>, elems: nat)
    requires elems <= |freq| && elems <= |freq'| && freq[..elems] == freq'[..elems]
    ensures Used(freq, elems) == Used(freq', elems)
  {
    forall x: nat | x < elems
      ensures freq[x] == freq'[x]
    {
      assert freq[x] == freq[..elems][x] && freq'[x] == freq'[..elems][x];
    }
  }

  lemma FitsResized(S: set<nat>, len: seq<nat>, len': seq<nat>, top: nat, n: nat)
    requires n <= |len| && n <= |len'| && len[..n] == len'[..n] && (forall x | x in S :: x < n) && Fits(S, len, top)
    ensures Fits(S, len', top)
  {
    forall x: nat | x < n
      ensures len[x] == len'[x]
    {
      assert len[x] == len[..n][x] && len'[x] == len'[..n][x];
    }
    SumTrim(S, Shares(len, top), n, |len|);
    SumTrim(S, Shares(len', top), n, |len'|);
    SumCongruent(S, Shares(len, top), Shares(len', top), n);
  }

  /** With fewer than two symbols each code has one bit, and none can have less. */
  lemma SomeForced(j: Job, freq0: seq<nat>, len: seq<nat>, other: seq<nat>, top: nat)
    requires Unclamped(j, len) && j.leaves == Used(j.freq, j.elems) && |j.leaves| == 2
    requires j.elems <= |freq0| && j.elems <= |j.freq| && ForcedOk(freq0, ForcedFor(freq0, j.elems), j.elems)
    requires j.freq[..j.elems] == WithForced(freq0, ForcedFor(freq0, j.elems))[..j.elems]
    requires CodeLengths(freq0, j.elems, other, top)
    ensures j.elems <= |len| && Cost(freq0, len, j.extra, j.elems) <= Cost(freq0, other, j.extra, j.elems)
  {
    hide Cost, Levels, Overflow, DadsFrom, Shape, Pow2, TopDown, Fits, ForcedFor;
    forall x: nat | x < j.elems && freq0[x] != 0
      ensures len[x] <= other[x]
    {
      assert j.freq[x] == j.freq[..j.elems][x];
      UsedOrForced(freq0, ForcedFor(freq0, j.elems), x);
      TwoLengths(j, len, x);
      assert x in Used(freq0, j.elems);
    }
    CostLengths(freq0, len, other, j.extra, j.elems);
  }

  lemma {:induction false} CostLengths(freq: seq<nat>, len: seq<nat>, other: seq<nat>, extra: Extra, n: nat)
    requires n <= |freq| && n <= |len| && n <= |other| && forall x: nat | x < n && freq[x] != 0 :: len[x] <= other[x]
    ensures Cost(freq, len, extra, n) <= Cost(freq, other, extra, n)
  {
    if n > 0 {
      CostLengths(freq, len, other, extra, n - 1);
      Weighs(freq[n - 1], len[n - 1] + extra.At(n - 1), other[n - 1] + extra.At(n - 1));
    }
  }

  lemma Weighs(f: nat, a: nat, b: nat)
    requires f != 0 ==> a <= b
    ensures f * a <= f * b
  {}

  lemma SymbolCost(j: Job, len: seq<nat>)
    requires Ready(j) && |len| == |j.freq|
    ensures j.elems <= |len|
    ensures Cost(j.freq, len, j.extra, j.elems) == Weighted(j.leaves, j.freq, len) + ExtraCost(j.freq, j.extra, j.elems)
  {
    hide Products, Cost, TopDown, DadsFrom, Shape, Pow2, ExtraCost;
    BelowElems(j.order, j.elems, j.leaves);
    CostSplit(j.leaves, j.freq, len, j.extra, j.elems);
    SumTrim(j.leaves, Products(j.freq, len), j.elems, |len|);
  }
}
