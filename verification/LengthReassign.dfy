/**
 After the repair, gen_bitlen recomputes all lengths, scanning the nodes in
 increasing frequency and handing out the longest lengths first.
 */
module LengthReassign {
  import opened Bits
  import opened Sums
  import opened Canonical
  import opened BitLengths
  import opened LengthRepair
  import opened Rearrange

  ghost function LeafTotal(s: seq<nat>, elems: nat): (c: nat)
    ensures c <= |s|
  {
    if s == [] then 0 else LeafTotal(s[..|s| - 1], elems) + (if s[|s| - 1] < elems then 1 else 0)
  }

  lemma {:induction false} LeafTotalConcat(a: seq<nat>, b: seq<nat>, elems: nat)
    ensures LeafTotal(a + b, elems) == LeafTotal(a, elems) + LeafTotal(b, elems)
  {
    if b == [] {
      assert a + b == a;
    } else {
      LeafTotalConcat(a, b[..|b| - 1], elems);
      assert (a + b)[..|a + b| - 1] == a + b[..|b| - 1];
    }
  }

  lemma {:induction false} LeafCountConcat(a: seq<nat>, b: seq<nat>, len: seq<nat>, elems: nat, l: nat)
    requires Within(a, |len|) && Within(b, |len|)
    ensures Within(a + b, |len|)
    ensures LeafCount(a + b, len, elems, l) == LeafCount(a, len, elems, l) + LeafCount(b, len, elems, l)
  {
    if b == [] {
      assert a + b == a;
    } else {
      LeafCountConcat(a, b[..|b| - 1], len, elems, l);
      assert (a + b)[..|a + b| - 1] == a + b[..|b| - 1];
    }
  }

  lemma {:induction false} NoLeaves(s: seq<nat>, len: seq<nat>, elems: nat, l: nat)
    requires Within(s, |len|) && LeafTotal(s, elems) == 0
    ensures LeafCount(s, len, elems, l) == 0
  {
    if s != [] {
      NoLeaves(s[..|s| - 1], len, elems, l);
    }
  }

  /** Changing the length of one leaf changes the cost by its frequency. */
  lemma {:induction false} LeafCostUpdate(s: seq<nat>, freq: seq<nat>, len: seq<nat>, extra: Extra, elems: nat, m: nat,
                                          v: nat)
    requires Within(s, |freq|) && Distinct(s) && elems <= |len| && m < elems
    ensures LeafCost(s, freq, len[m := v], extra, elems)
            == LeafCost(s, freq, len, extra, elems) + (if m in s then freq[m] * (v - len[m]) else 0)
  {
    if s != [] {
      var front, x := s[..|s| - 1], s[|s| - 1];
      LeafCostUpdate(front, freq, len, extra, elems, m, v);
      assert s == front + [x];
      if x == m {
        ReplaceFactor(freq[m], len[m], v, extra.At(m));
        assert m !in front;
      }
    }
  }

  lemma ReplaceFactor(f: nat, l: nat, v: nat, x: nat)
    ensures f * (v + x) == f * (l + x) + f * (v - l)
  {}

  /** How many of the lengths b have been handed out when n of length bits are left. */
  ghost function HandedOut(count: seq<nat>, bits: nat, n: nat, b: nat): int
    requires b < |count|
  {
    if b < bits then 0 else if b == bits then count[b] - n else count[b]
  }

  /** The suffix of the list from i on has its new lengths; n more of length bits follow. */
  ghost predicate Assigning(order: seq<nat>, elems: nat, len: seq<nat>, count: seq<nat>, i: nat, bits: nat, n: nat)
  {
    && Within(order, |len|) && Distinct(order) && elems <= |len| && i <= |order|
    && |count| == MAX_BITS + 1 && bits <= MAX_BITS && n <= count[bits] && count[0] == 0
    && (forall b | 0 <= b <= MAX_BITS :: LeafCount(order[i..], len, elems, b) == HandedOut(count, bits, n, b))
    && LeafTotal(order[i..], elems) + n + (if bits == 0 then 0 else Items(count, bits - 1)) == LeafTotal(order, elems)
  }

  lemma AssignStart(order: seq<nat>, elems: nat, len: seq<nat>, count: seq<nat>, top: nat)
    requires Within(order, |len|) && Distinct(order) && elems <= |len|
    requires |count| == MAX_BITS + 1 && count[0] == 0 && 1 <= top <= MAX_BITS
    requires forall b | top < b <= MAX_BITS :: count[b] == 0
    requires Items(count, top) == LeafTotal(order, elems)
    ensures Assigning(order, elems, len, count, |order|, top, count[top])
  {
    assert order[|order|..] == [];
  }

  lemma AssignLeaf(order: seq<nat>, elems: nat, len: seq<nat>, count: seq<nat>, i: nat, bits: nat, n: nat)
    requires Assigning(order, elems, len, count, i, bits, n) && n > 0 && 0 < i && order[i - 1] < elems
    ensures Assigning(order, elems, len[order[i - 1] := bits], count, i - 1, bits, n - 1)
  {
    hide LeafCount, LeafTotal, Items;
    var m := order[i - 1];
    var len' := len[m := bits];
    var suffix, left := order[i - 1..], n - 1;
    assert suffix == [m] + order[i..];
    LeafTotalConcat([m], order[i..], elems);
    SingleTotal(m, elems);
    forall b | 0 <= b <= MAX_BITS
      ensures LeafCount(suffix, len', elems, b) == HandedOut(count, bits, left, b)
    {
      assert LeafCount(order[i..], len, elems, b) == HandedOut(count, bits, n, b);
      LeafCountConcat([m], order[i..], len', elems, b);
      LeafCountSame(order[i..], len, len', elems, b);
      SingleCount(m, len', elems, b);
    }
  }

  lemma SingleTotal(m: nat, elems: nat)
    ensures LeafTotal([m], elems) == if m < elems then 1 else 0
  {
    assert [m][..0] == [];
  }

  lemma SingleCount(m: nat, len: seq<nat>, elems: nat, b: nat)
    requires m < |len|
    ensures LeafCount([m], len, elems, b) == if m < elems && len[m] == b then 1 else 0
  {
    assert [m][..0] == [];
  }

  lemma SkipNode(order: seq<nat>, elems: nat, len: seq<nat>, count: seq<nat>, i: nat, bits: nat, n: nat)
    requires Assigning(order, elems, len, count, i, bits, n) && 0 < i && order[i - 1] >= elems
    ensures Assigning(order, elems, len, count, i - 1, bits, n)
  {
    hide LeafCount, LeafTotal, Items;
    var m := order[i - 1];
    assert order[i - 1..] == [m] + order[i..];
    LeafTotalConcat([m], order[i..], elems);
    SingleTotal(m, elems);
    forall b | 0 <= b <= MAX_BITS
      ensures LeafCount(order[i - 1..], len, elems, b) == HandedOut(count, bits, n, b)
    {
      assert LeafCount(order[i..], len, elems, b) == HandedOut(count, bits, n, b);
      LeafCountConcat([m], order[i..], len, elems, b);
      SingleCount(m, len, elems, b);
    }
  }

  lemma NextLength(order: seq<nat>, elems: nat, len: seq<nat>, count: seq<nat>, i: nat, bits: nat)
    requires Assigning(order, elems, len, count, i, bits, 0) && bits > 0
    ensures Assigning(order, elems, len, count, i, bits - 1, count[bits - 1])
  {
    assert bits >= 2 ==> Items(count, bits - 1) == Items(count, bits - 2) + count[bits - 1];
    assert bits == 1 ==> Items(count, bits - 1) == 0;
    forall b | 0 <= b <= MAX_BITS
      ensures HandedOut(count, bits, 0, b) == HandedOut(count, bits - 1, count[bits - 1], b)
    {}
  }

  /** In the end every leaf was given exactly one of the counted lengths. */
  lemma AllAssigned(order: seq<nat>, elems: nat, len: seq<nat>, count: seq<nat>, i: nat)
    requires Assigning(order, elems, len, count, i, 0, 0)
    ensures CountsTo(order, len, elems, count)
  {
    hide LeafCount, LeafTotal;
    assert order == order[..i] + order[i..];
    LeafTotalConcat(order[..i], order[i..], elems);
    forall b | 0 <= b <= MAX_BITS
      ensures count[b] == LeafCount(order, len, elems, b)
    {
      assert LeafCount(order[i..], len, elems, b) == HandedOut(count, 0, 0, b);
      LeafCountConcat(order[..i], order[i..], len, elems, b);
      NoLeaves(order[..i], len, elems, b);
    }
  }

  /** From place i on the lengths rise, and none is below bits. */
  ghost predicate LongestLast(order: seq<nat>, elems: nat, len: seq<nat>, i: nat, bits: nat)
  {
    && i <= |order| && Rising(order[i..], elems, len)
    && forall t | i <= t < |order| && order[t] < elems :: order[t] < |len| && bits <= len[order[t]]
  }

  lemma LongestStart(order: seq<nat>, elems: nat, len: seq<nat>, bits: nat)
    ensures LongestLast(order, elems, len, |order|, bits)
  {
    assert order[|order|..] == [];
  }

  /** The next leaf gets a length that is not above the ones given out. */
  lemma LongestLeaf(order: seq<nat>, elems: nat, len: seq<nat>, i: nat, bits: nat)
    requires LongestLast(order, elems, len, i, bits) && 0 < i && Within(order, |len|) && Distinct(order)
    ensures LongestLast(order, elems, len[order[i - 1] := bits], i - 1, bits)
  {
    var m := order[i - 1];
    var len' := len[m := bits];
    assert order[i - 1..] == [m] + order[i..];
    assert forall t | i <= t < |order| :: order[t] != m && order[i..][t - i] == order[t];
    assert forall t | 0 <= t < |order[i..]| ::
          order[i..][t] == order[i + t] && len'[order[i..][t]] == len[order[i..][t]];
  }

  lemma LongestSkip(order: seq<nat>, elems: nat, len: seq<nat>, i: nat, bits: nat)
    requires LongestLast(order, elems, len, i, bits) && 0 < i && Within(order, |len|) && order[i - 1] >= elems
    ensures LongestLast(order, elems, len, i - 1, bits)
  {
    assert order[i - 1..] == [order[i - 1]] + order[i..];
  }

  lemma LongestNext(order: seq<nat>, elems: nat, len: seq<nat>, i: nat, bits: nat)
    requires LongestLast(order, elems, len, i, bits) && bits > 0
    ensures LongestLast(order, elems, len, i, bits - 1)
  {}

  /** No leaf is left without a length. */
  lemma LongestAll(order: seq<nat>, elems: nat, len: seq<nat>, count: seq<nat>, i: nat)
    requires Assigning(order, elems, len, count, i, 0, 0) && LongestLast(order, elems, len, i, 0)
    ensures Rising(order, elems, len)
  {
    hide LeafCount, LeafTotal;
    assert order == order[..i] + order[i..];
    LeafTotalConcat(order[..i], order[i..], elems);
    NoneBelow(order[..i], elems);
    assert forall s | 0 <= s < i :: order[s] == order[..i][s] >= elems;
    forall s, t | 0 <= s <= t < |order| && order[s] < elems && order[t] < elems
      ensures len[order[s]] <= len[order[t]]
    {
      assert s >= i && order[i..][s - i] == order[s] && order[i..][t - i] == order[t];
    }
  }

  lemma {:induction false} NoneBelow(s: seq<nat>, elems: nat)
    requires LeafTotal(s, elems) == 0
    ensures forall i | 0 <= i < |s| :: s[i] >= elems
  {
    if s != [] {
      NoneBelow(s[..|s| - 1], elems);
    }
  }

  /** The lengths given out so far: how many of each, and the longest ones last. */
  ghost predicate GivenOut(order: seq<nat>, elems: nat, len: seq<nat>, count: seq<nat>, i: nat, bits: nat, n: nat)
  {
    Assigning(order, elems, len, count, i, bits, n) && LongestLast(order, elems, len, i, bits)
  }

  lemma NoneGiven(order: seq<nat>, elems: nat, len: seq<nat>, count: seq<nat>, top: nat)
    requires Within(order, |len|) && Distinct(order) && elems <= |len|
    requires |count| == MAX_BITS + 1 && count[0] == 0 && 1 <= top <= MAX_BITS
    requires forall b | top < b <= MAX_BITS :: count[b] == 0
    requires Items(count, top) == LeafTotal(order, elems)
    ensures GivenOut(order, elems, len, count, |order|, top, count[top])
  {
    hide Assigning, LongestLast;
    AssignStart(order, elems, len, count, top);
    LongestStart(order, elems, len, top);
  }

  /** While lengths remain to be handed out, nodes remain to take them. */
  lemma SomeLeft(order: seq<nat>, elems: nat, len: seq<nat>, count: seq<nat>, i: nat, bits: nat, n: nat)
    requires GivenOut(order, elems, len, count, i, bits, n) && n > 0
    ensures i > 0
  {
    assert order[0..] == order;
  }

  lemma GiveLeaf(order: seq<nat>, elems: nat, len: seq<nat>, count: seq<nat>, i: nat, bits: nat, n: nat)
    requires GivenOut(order, elems, len, count, i, bits, n) && n > 0 && 0 < i <= |order| && order[i - 1] < elems
    ensures order[i - 1] < |len| && GivenOut(order, elems, len[order[i - 1] := bits], count, i - 1, bits, n - 1)
  {
    hide LongestLast, LeafCount, LeafTotal, Items;
    AssignLeaf(order, elems, len, count, i, bits, n);
    LongestLeaf(order, elems, len, i, bits);
  }

  lemma SkipOver(order: seq<nat>, elems: nat, len: seq<nat>, count: seq<nat>, i: nat, bits: nat, n: nat)
    requires GivenOut(order, elems, len, count, i, bits, n) && 0 < i <= |order| && order[i - 1] >= elems
    ensures GivenOut(order, elems, len, count, i - 1, bits, n)
  {
    hide LongestLast, LeafCount, LeafTotal, Items;
    SkipNode(order, elems, len, count, i, bits, n);
    LongestSkip(order, elems, len, i, bits);
  }

  lemma GoOn(order: seq<nat>, elems: nat, len: seq<nat>, count: seq<nat>, i: nat, bits: nat)
    requires GivenOut(order, elems, len, count, i, bits, 0) && bits > 0
    ensures bits - 1 < |count| && GivenOut(order, elems, len, count, i, bits - 1, count[bits - 1])
  {
    hide LongestLast, LeafCount, LeafTotal, Items;
    NextLength(order, elems, len, count, i, bits);
    LongestNext(order, elems, len, i, bits);
  }

  lemma AllGiven(order: seq<nat>, elems: nat, len: seq<nat>, count: seq<nat>, i: nat)
    requires GivenOut(order, elems, len, count, i, 0, 0)
    ensures Within(order, |len|) && CountsTo(order, len, elems, count) && Rising(order, elems, len)
  {
    AllAssigned(order, elems, len, count, i);
    LongestAll(order, elems, len, count, i);
  }

  method Reassign(heap: array<nat>, heapMax: nat, fc: array<nat>, dl: array<nat>, blCount: array<nat>,
                  extra: Extra, elems: nat, maxCode: nat, maxLength: nat)
    returns (delta: int)
    requires heap != dl && fc != dl && blCount != dl
    requires heapMax <= heap.Length && fc.Length == dl.Length && elems <= dl.Length && maxCode < elems
    requires Within(heap[heapMax..], dl.Length) && Distinct(heap[heapMax..])
    requires forall t | heapMax <= t < heap.Length :: heap[t] <= maxCode <==> heap[t] < elems
    requires blCount.Length == MAX_BITS + 1 && blCount[0] == 0 && 1 <= maxLength <= MAX_BITS
    requires forall b | maxLength < b <= MAX_BITS :: blCount[b] == 0
    requires Items(blCount[..], maxLength) == LeafTotal(heap[heapMax..], elems)
    modifies dl
    ensures CountsTo(heap[heapMax..], dl[..], elems, blCount[..]) && Rising(heap[heapMax..], elems, dl[..])
    ensures LeafCost(heap[heapMax..], fc[..], dl[..], extra, elems)
            == LeafCost(heap[heapMax..], fc[..], old(dl[..]), extra, elems) + delta
    ensures forall x | 0 <= x < dl.Length && (x >= elems || x !in heap[heapMax..]) :: dl[x] == old(dl[x])
  {
    hide Assigning, GivenOut, LeafCost, LeafTotal, Items, LeafCount, CountsTo, LongestLast, Rising;
    ghost var order, count, freq := heap[heapMax..], blCount[..], fc[..];
    var h := heap.Length;
    var bits := maxLength;
    delta := 0;
    NoneGiven(order, elems, dl[..], count, bits);
    while bits != 0
      invariant heapMax <= h <= heap.Length && bits <= maxLength
      invariant heap[heapMax..] == order && blCount[..] == count && fc[..] == freq
      invariant GivenOut(order, elems, dl[..], count, h - heapMax, bits, count[bits])
      invariant LeafCost(order, freq, dl[..], extra, elems) == LeafCost(order, freq, old(dl[..]), extra, elems) + delta
      invariant forall x | 0 <= x < dl.Length && (x >= elems || x !in order) :: dl[x] == old(dl[x])
    {
      var n := blCount[bits];
      while n != 0
        invariant heapMax <= h <= heap.Length
        invariant heap[heapMax..] == order && blCount[..] == count && fc[..] == freq
        invariant GivenOut(order, elems, dl[..], count, h - heapMax, bits, n)
          invariant LeafCost(order, freq, dl[..], extra, elems) == LeafCost(order, freq, old(dl[..]), extra, elems)
                  + delta
        invariant forall x | 0 <= x < dl.Length && (x >= elems || x !in order) :: dl[x] == old(dl[x])
        decreases h
      {
        SomeLeft(order, elems, dl[..], count, h - heapMax, bits, n);
        h := h - 1;
        var m := heap[h];
        assert m == order[h - heapMax];
        if m > maxCode {
          SkipOver(order, elems, dl[..], count, h + 1 - heapMax, bits, n);
          continue;
        }
        GiveLeaf(order, elems, dl[..], count, h + 1 - heapMax, bits, n);
        LeafCostUpdate(order, freq, dl[..], extra, elems, m, bits);
        if dl[m] != bits {
          delta := delta + fc[m] * (bits - dl[m]);
          dl[m] := bits;
        } else {
          assert dl[..][m := bits] == dl[..];
          assert fc[m] * (bits - dl[m]) == 0;
        }
        n := n - 1;
      }
      GoOn(order, elems, dl[..], count, h - heapMax, bits);
      bits := bits - 1;
    }
    AllGiven(order, elems, dl[..], count, h - heapMax);
  }
}
