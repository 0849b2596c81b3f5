/**
 The hash chains of the sliding window: head gives the most recent position
 with a hash, prev the position before it with the same hash.
 */
module Chains {
  import opened Bits
  import opened Hash

  const WSIZE: nat := 0x8000
  const MIN_LOOKAHEAD: nat := 262
  const MAX_DIST: nat := WSIZE - MIN_LOOKAHEAD

  /** The hash of the three bytes at position p. */
  function HashOf(bits: nat, w: seq<byte>, p: nat): (h: nat)
    requires p + 2 < |w|
    ensures h < Pow2(bits)
  {
    Hash3(bits, w[p], w[p + 1], w[p + 2])
  }

  function Slot(p: nat): (r: nat)
    ensures r < WSIZE
  {
    p % WSIZE
  }

  /** The last position before ins that has hash h, or zero if there is none; position zero does not count. */
  ghost predicate LastWith(bits: nat, w: seq<byte>, ins: nat, h: nat, p: nat)
    requires ins + 2 <= |w|
  {
    && (p == 0 || (p < ins && HashOf(bits, w, p) == h))
    && forall r: nat | 0 < r < ins && HashOf(bits, w, r) == h :: r <= p
  }

  ghost predicate HeadOk(bits: nat, w: seq<byte>, head: seq<nat>, ins: nat, h: nat)
    requires h < |head| && ins + 2 <= |w|
  {
    LastWith(bits, w, ins, h, head[h])
  }

  ghost predicate LinkOk(bits: nat, w: seq<byte>, prev: seq<nat>, p: nat)
    requires |prev| == WSIZE && p + 2 < |w|
  {
    LastWith(bits, w, p, HashOf(bits, w, p), prev[Slot(p)])
  }

  /**
   The strings at the positions below ins have been inserted, all of them.  Zero
   ends a chain.  The links of the last WSIZE positions are kept.
   */
  ghost predicate Linked(bits: nat, w: seq<byte>, head: seq<nat>, prev: seq<nat>, ins: nat)
  {
    && |head| == Pow2(bits) && |prev| == WSIZE && ins + 2 <= |w|
    && (forall h | 0 <= h < |head| :: HeadOk(bits, w, head, ins, h))
    && (forall p: nat | p < ins <= p + WSIZE :: LinkOk(bits, w, prev, p))
  }

  lemma SlotsDiffer(p: nat, q: nat)
    requires p < q < p + WSIZE
    ensures Slot(p) != Slot(q)
  {}

  lemma SlotSlides(p: nat)
    requires WSIZE <= p
    ensures Slot(p - WSIZE) == Slot(p)
  {}

  lemma LastGrows(bits: nat, w: seq<byte>, s: nat, h: nat, p: nat)
    requires s + 2 < |w| && LastWith(bits, w, s, h, p)
    ensures LastWith(bits, w, s + 1, h, if HashOf(bits, w, s) == h then s else p)
  {}

  /** INSERT_STRING keeps the chains, and the old head has the hash of the new string. */
  lemma InsertChains(bits: nat, w: seq<byte>, head: seq<nat>, prev: seq<nat>, s: nat)
    requires Linked(bits, w, head, prev, s) && s + 2 < |w|
    ensures var h := HashOf(bits, w, s);
            && Linked(bits, w, head[h := s], prev[Slot(s) := head[h]], s + 1)
            && (head[h] == 0 || (head[h] < s && HashOf(bits, w, head[h]) == h))
  {
    hide HashOf, Slot, Pow2;
    var h := HashOf(bits, w, s);
    var head', prev' := head[h := s], prev[Slot(s) := head[h]];
    assert HeadOk(bits, w, head, s, h);
    var next := s + 1;
    forall g | 0 <= g < |head'|
      ensures HeadOk(bits, w, head', next, g)
    {
      assert HeadOk(bits, w, head, s, g);
      LastGrows(bits, w, s, g, head[g]);
    }
    forall p: nat | p < s + 1 <= p + WSIZE
      ensures LinkOk(bits, w, prev', p)
    {
      if p < s {
        SlotsDiffer(p, s);
        assert LinkOk(bits, w, prev, p);
      }
    }
  }

  /** What longest_match relies on when it follows a chain. */
  lemma FollowChain(bits: nat, w: seq<byte>, head: seq<nat>, prev: seq<nat>, ins: nat, p: nat)
    requires Linked(bits, w, head, prev, ins) && p < ins <= p + WSIZE
    ensures LastWith(bits, w, p, HashOf(bits, w, p), prev[Slot(p)])
  {
    hide HashOf, Slot, Pow2;
    assert LinkOk(bits, w, prev, p);
  }

  /** New bytes after the inserted strings do not matter. */
  lemma SameChains(bits: nat, w: seq<byte>, w': seq<byte>, head: seq<nat>, prev: seq<nat>, ins: nat)
    requires Linked(bits, w, head, prev, ins) && |w| == |w'| && forall i | 0 <= i < ins + 2 && ins > 0 :: w[i] == w'[i]
    ensures Linked(bits, w', head, prev, ins)
  {
    hide Hash3, Slot, Pow2;
    assert forall p: nat | p < ins :: HashOf(bits, w', p) == HashOf(bits, w, p);
    hide HashOf;
    forall h | 0 <= h < |head|
      ensures HeadOk(bits, w', head, ins, h)
    {
      assert HeadOk(bits, w, head, ins, h);
    }
    forall p: nat | p < ins <= p + WSIZE
      ensures LinkOk(bits, w', prev, p)
    {
      assert LinkOk(bits, w, prev, p);
    }
  }

  // ----- sliding -----

  function SlideOne(m: nat): nat
  {
    if m >= WSIZE then m - WSIZE else 0
  }

  function SlideAll(s: seq<nat>): (r: seq<nat>)
    ensures |r| == |s| && forall i | 0 <= i < |s| :: r[i] == SlideOne(s[i])
  {
    seq(|s|, i requires 0 <= i < |s| => SlideOne(s[i]))
  }

  lemma HashSlides(bits: nat, w: seq<byte>, w': seq<byte>, ins: nat, p: nat)
    requires WSIZE <= p < ins && ins + 2 <= |w| && ins - WSIZE + 2 <= |w'|
    requires w'[..ins - WSIZE + 2] == w[WSIZE..ins + 2]
    ensures HashOf(bits, w', p - WSIZE) == HashOf(bits, w, p)
  {
    hide Hash3;
    ByteSlides(w, w', ins, p);
    ByteSlides(w, w', ins, p + 1);
    ByteSlides(w, w', ins, p + 2);
  }

  lemma ByteSlides(w: seq<byte>, w': seq<byte>, ins: nat, p: nat)
    requires WSIZE <= p < ins + 2 <= |w| && ins - WSIZE + 2 <= |w'|
    requires w'[..ins - WSIZE + 2] == w[WSIZE..ins + 2]
    ensures w'[p - WSIZE] == w[p]
  {
    assert w'[p - WSIZE] == w'[..ins - WSIZE + 2][p - WSIZE];
  }

  lemma LastSlides(bits: nat, w: seq<byte>, w': seq<byte>, ins: nat, to: nat, h: nat, p: nat)
    requires WSIZE <= to <= ins && ins + 2 <= |w| && |w'| == |w| && w'[..ins - WSIZE + 2] == w[WSIZE..ins + 2]
    requires LastWith(bits, w, to, h, p)
    ensures LastWith(bits, w', to - WSIZE, h, SlideOne(p))
  {
    hide HashOf;
    if p >= WSIZE {
      HashSlides(bits, w, w', ins, p);
    }
    var low := to - WSIZE;
    forall r: nat | 0 < r < low && HashOf(bits, w', r) == h
      ensures r <= SlideOne(p)
    {
      HashSlides(bits, w, w', ins, r + WSIZE);
    }
  }

  /** Moving the window down by half of its size moves every position in the tables. */
  lemma SlideChains(bits: nat, w: seq<byte>, w': seq<byte>, head: seq<nat>, prev: seq<nat>, ins: nat)
    requires Linked(bits, w, head, prev, ins) && WSIZE <= ins && |w'| == |w|
    requires w'[..ins - WSIZE + 2] == w[WSIZE..ins + 2]
    ensures Linked(bits, w', SlideAll(head), SlideAll(prev), ins - WSIZE)
  {
    hide HashOf, Slot, Pow2, SlideAll, LastWith;
    var head', low := SlideAll(head), ins - WSIZE;
    forall h | 0 <= h < |head|
      ensures HeadOk(bits, w', head', low, h)
    {
      assert HeadOk(bits, w, head, ins, h);
      LastSlides(bits, w, w', ins, ins, h, head[h]);
    }
    forall p: nat | p < ins - WSIZE <= p + WSIZE
      ensures LinkOk(bits, w', SlideAll(prev), p)
    {
      LinkSlides(bits, w, w', head, prev, ins, p);
    }
  }

  lemma LinkSlides(bits: nat, w: seq<byte>, w': seq<byte>, head: seq<nat>, prev: seq<nat>, ins: nat, p: nat)
    requires Linked(bits, w, head, prev, ins) && WSIZE <= ins && |w'| == |w|
    requires w'[..ins - WSIZE + 2] == w[WSIZE..ins + 2] && p < ins - WSIZE <= p + WSIZE
    ensures LinkOk(bits, w', SlideAll(prev), p)
  {
    hide HashOf, Slot, Pow2, SlideAll, LastWith;
    var q := p + WSIZE;
    FollowChain(bits, w, head, prev, ins, q);
    SlotSlides(q);
    HashSlides(bits, w, w', ins, q);
    LastSlides(bits, w, w', ins, q, HashOf(bits, w, q), prev[Slot(q)]);
  }

  /** The empty table. */
  lemma NoChains(bits: nat, w: seq<byte>, head: seq<nat>, prev: seq<nat>)
    requires |head| == Pow2(bits) && |prev| == WSIZE && 2 <= |w| && forall h | 0 <= h < |head| :: head[h] == 0
    ensures Linked(bits, w, head, prev, 0)
  {}
}
