/**
 longest_match: the search along a hash chain for the longest earlier
 occurrence of the string at strstart.
 */
module LongestMatch {
  import opened Bits
  import opened Hash
  import opened Chains
  import opened Tables

  /** The search parameters of a compression level. */
  datatype Level = Level(maxChain: nat, goodMatch: nat, niceMatch: nat)

  /** The len bytes at m and at s are equal. */
  ghost predicate MatchAt(w: seq<byte>, m: nat, s: nat, len: nat)
  {
    m < s && s + len <= |w| && w[m..m + len] == w[s..s + len]
  }

  lemma MatchByte(w: seq<byte>, m: nat, s: nat, len: nat, k: nat)
    requires MatchAt(w, m, s, len) && k < len
    ensures w[m + k] == w[s + k]
  {
    assert w[m..m + len][k] == w[s..s + len][k];
  }

  lemma MatchPrefix(w: seq<byte>, m: nat, s: nat, len: nat, k: nat)
    requires MatchAt(w, m, s, len) && k <= len
    ensures MatchAt(w, m, s, k)
  {
    assert w[m..m + k] == w[m..m + len][..k];
    assert w[s..s + k] == w[s..s + len][..k];
  }

  lemma MatchMore(w: seq<byte>, m: nat, s: nat, len: nat)
    requires MatchAt(w, m, s, len) && s + len < |w| && w[m + len] == w[s + len]
    ensures MatchAt(w, m, s, len + 1)
  {
    assert w[m..m + len + 1] == w[m..m + len] + [w[m + len]];
    assert w[s..s + len + 1] == w[s..s + len] + [w[s + len]];
  }

  /** Three bytes match if two do and the hashes are equal. */
  lemma FirstThree(bits: nat, w: seq<byte>, m: nat, s: nat)
    requires MIN_HASH_BITS <= bits && m < s && s + 2 < |w| && HashOf(bits, w, m) == HashOf(bits, w, s)
    requires w[m] == w[s] && w[m + 1] == w[s + 1]
    ensures MatchAt(w, m, s, 3)
  {
    hide Hash3;
    ThirdByte(bits, w[m], w[m + 1], w[m + 2], w[s + 2]);
    assert w[m..m + 3] == [w[m], w[m + 1], w[m + 2]];
    assert w[s..s + 3] == [w[s], w[s + 1], w[s + 2]];
  }

  /** The string at m does not match more than len bytes, of at most MAX_MATCH. */
  ghost predicate NotLonger(w: seq<byte>, m: nat, s: nat, len: nat)
  {
    len >= MAX_MATCH || !MatchAt(w, m, s, len + 1)
  }

  lemma NotLongerMono(w: seq<byte>, m: nat, s: nat, len: nat, more: nat)
    requires NotLonger(w, m, s, len) && len <= more
    ensures NotLonger(w, m, s, more)
  {
    hide MatchAt;
    if more < MAX_MATCH && MatchAt(w, m, s, more + 1) {
      MatchPrefix(w, m, s, more + 1, len + 1);
    }
  }

  lemma MismatchAt(w: seq<byte>, m: nat, s: nat, len: nat, k: nat)
    requires m < s && s + k < |w| && k <= len && w[m + k] != w[s + k]
    ensures NotLonger(w, m, s, len)
  {
    hide MatchAt;
    if len < MAX_MATCH && MatchAt(w, m, s, len + 1) {
      MatchByte(w, m, s, len + 1, k);
    }
  }

  /**
   The comparison loop: the bytes from the fourth on, at most MAX_MATCH in all.
   The last byte it reads is the one behind the match, at reach; this is also
   read when the match has the maximum length.
   */
  method Compare(window: array<byte>, m: nat, s: nat) returns (len: nat, ghost reach: nat)
    requires MatchAt(window[..], m, s, 3) && s + MAX_MATCH < window.Length
    ensures 3 <= len <= MAX_MATCH && MatchAt(window[..], m, s, len) && NotLonger(window[..], m, s, len)
            && reach == s + len
  {
    hide MatchAt, NotLonger;
    len := 3;
    MatchOrder(window[..], m, s, 3);
    while true
      invariant 3 <= len <= MAX_MATCH && MatchAt(window[..], m, s, len)
      decreases MAX_MATCH - len
    {
      var same := window[s + len] == window[m + len];
      reach := s + len;
      if len == MAX_MATCH {
        Enough(window[..], m, s, len);
        return;
      }
      if !same {
        MismatchAt(window[..], m, s, len, len);
        return;
      }
      MatchMore(window[..], m, s, len);
      len := len + 1;
    }
  }

  lemma MatchOrder(w: seq<byte>, m: nat, s: nat, len: nat)
    requires MatchAt(w, m, s, len)
    ensures m < s && s + len <= |w|
  {}

  lemma Enough(w: seq<byte>, m: nat, s: nat, len: nat)
    requires len >= MAX_MATCH
    ensures NotLonger(w, m, s, len)
  {}

  // ----- the walk along the chain -----

  /** The positions visited: each is found in prev at the one before it. */
  ghost predicate Walk(prev: seq<nat>, seen: seq<nat>)
    requires |prev| == WSIZE
  {
    forall i | 0 < i < |seen| :: seen[i] == prev[Slot(seen[i - 1])]
  }

  ghost predicate NoneLonger(w: seq<byte>, seen: seq<nat>, s: nat, len: nat)
  {
    forall i | 0 <= i < |seen| :: NotLonger(w, seen[i], s, len)
  }

  lemma NoneLongerStep(w: seq<byte>, seen: seq<nat>, s: nat, len: nat, m: nat, best: nat)
    requires NoneLonger(w, seen, s, len) && len <= best && NotLonger(w, m, s, best)
    ensures NoneLonger(w, seen + [m], s, best)
  {
    hide NotLonger;
    var all := seen + [m];
    forall i | 0 <= i < |all|
      ensures NotLonger(w, all[i], s, best)
    {
      if i < |seen| {
        NotLongerMono(w, seen[i], s, len, best);
      }
    }
  }

  /** The lowest position the search may reach. */
  function Limit(strstart: nat): nat
  {
    if strstart > MAX_DIST then strstart - MAX_DIST else 0
  }

  /** A position the search may look at. */
  ghost predicate Candidate(bits: nat, w: seq<byte>, s: nat, m: nat)
  {
    0 < m < s && s - m <= MAX_DIST && s + 2 < |w| && HashOf(bits, w, m) == HashOf(bits, w, s)
  }

  lemma NextCandidate(bits: nat, w: seq<byte>, head: seq<nat>, prev: seq<nat>, s: nat, m: nat)
    requires Linked(bits, w, head, prev, s + 1) && Candidate(bits, w, s, m)
    ensures prev[Slot(m)] > Limit(s) ==> Candidate(bits, w, s, prev[Slot(m)]) && prev[Slot(m)] < m
  {
    hide HashOf, Slot;
    FollowChain(bits, w, head, prev, s + 1, m);
  }

  /** One candidate: its length if it is better than the best so far. */
  method Try(bits: nat, window: array<byte>, s: nat, m: nat, best: nat) returns (len: nat, ghost reach: nat)
    requires MIN_HASH_BITS <= bits && s + MAX_MATCH < window.Length && Candidate(bits, window[..], s, m)
             && 1 <= best <= MAX_MATCH
    ensures len <= MAX_MATCH && NotLonger(window[..], m, s, if len > best then len else best)
    ensures len > best ==> 3 <= len && MatchAt(window[..], m, s, len)
    ensures reach == s + if len > best then len else best
  {
    hide MatchAt, NotLonger, HashOf;
    ghost var w := window[..];
    len, reach := 0, s + best;
    if window[m + best] != window[s + best] {
      MismatchAt(w, m, s, best, best);
      return;
    }
    if window[m + best - 1] != window[s + best - 1] {
      MismatchAt(w, m, s, best, best - 1);
      return;
    }
    if window[m] != window[s] {
      MismatchAt(w, m, s, best, 0);
      return;
    }
    if window[m + 1] != window[s + 1] {
      MismatchAt(w, m, s, best, 1);
      return;
    }
    FirstThree(bits, w, m, s);
    ghost var end;
    len, end := Compare(window, m, s);
    if end > reach {
      reach := end;
    }
    NotLongerMono(w, m, s, len, if len > best then len else best);
  }

  /** The positions visited before m, which are nearer, match fewer bytes. */
  ghost predicate Nearest(w: seq<byte>, seen: seq<nat>, s: nat, len: nat, m: nat)
    requires len > 0
  {
    forall i | 0 <= i < |seen| && seen[i] > m :: NotLonger(w, seen[i], s, len - 1)
  }

  /** A match of this length and more ends the search. */
  function Nice(level: Level, prevLength: nat): nat
  {
    if level.niceMatch > prevLength then level.niceMatch else prevLength + 1
  }

  /** At most the last position visited has a match that is nice. */
  ghost predicate NiceLast(level: Level, w: seq<byte>, seen: seq<nat>, s: nat, prevLength: nat)
  {
    forall i | 0 <= i < |seen| - 1 :: NotLonger(w, seen[i], s, Nice(level, prevLength) - 1)
  }

  lemma NiceStep(level: Level, w: seq<byte>, seen: seq<nat>, s: nat, prevLength: nat, len: nat, m: nat)
    requires NoneLonger(w, seen, s, len) && prevLength <= len && (len < level.niceMatch || len == prevLength)
    ensures NiceLast(level, w, seen + [m], s, prevLength)
  {
    hide NotLonger;
    var all, nice := seen + [m], Nice(level, prevLength) - 1;
    forall i | 0 <= i < |all| - 1
      ensures NotLonger(w, all[i], s, nice)
    {
      NotLongerMono(w, seen[i], s, len, nice);
    }
  }

  /** A better match is farther away than all that was visited. */
  lemma NearestBetter(w: seq<byte>, seen: seq<nat>, s: nat, best: nat, len: nat, m: nat)
    requires NoneLonger(w, seen, s, best) && best < len
    ensures Nearest(w, seen + [m], s, len, m)
  {
    hide NotLonger;
    var all, less := seen + [m], len - 1;
    forall i | 0 <= i < |all| && all[i] > m
      ensures NotLonger(w, all[i], s, less)
    {
      NotLongerMono(w, seen[i], s, best, less);
    }
  }

  lemma NearestStays(w: seq<byte>, seen: seq<nat>, s: nat, len: nat, m: nat, next: nat)
    requires len > 0 && Nearest(w, seen, s, len, m) && next < m
    ensures Nearest(w, seen + [next], s, len, m)
  {}

  /** All positions from the last one visited on that have the hash of the string at s were visited. */
  lemma {:induction false} WalkAll(bits: nat, w: seq<byte>, head: seq<nat>, prev: seq<nat>, s: nat, seen: seq<nat>,
                                   r: nat)
    requires Linked(bits, w, head, prev, s + 1) && s + 2 < |w| && seen != [] && seen[0] == prev[Slot(s)]
             && Walk(prev, seen)
    requires forall i | 0 <= i < |seen| :: Candidate(bits, w, s, seen[i])
    requires 0 < r && seen[|seen| - 1] <= r < s && HashOf(bits, w, r) == HashOf(bits, w, s)
    ensures r in seen
    decreases |seen|
  {
    hide HashOf, Slot, Pow2;
    var n := |seen| - 1;
    if n == 0 {
      FollowChain(bits, w, head, prev, s + 1, s);
    } else if seen[n - 1] <= r {
      WalkAll(bits, w, head, prev, s, seen[..n], r);
    } else {
      assert Candidate(bits, w, s, seen[n - 1]);
      FollowChain(bits, w, head, prev, s + 1, seen[n - 1]);
    }
  }

  /** Where the search ended: behind the limit, or at the last position visited. */
  ghost function Searched(prev: seq<nat>, s: nat, seen: seq<nat>): nat
    requires |prev| == WSIZE && seen != []
  {
    var last := seen[|seen| - 1];
    if prev[Slot(last)] <= Limit(s) then Limit(s) + 1 else last
  }

  /** Positions that match three bytes have the same hash. */
  lemma MatchHash(bits: nat, w: seq<byte>, m: nat, s: nat, len: nat)
    requires MatchAt(w, m, s, len) && len >= 3
    ensures s + 2 < |w| && HashOf(bits, w, m) == HashOf(bits, w, s)
  {
    hide Hash3, MatchAt;
    MatchOrder(w, m, s, len);
    MatchByte(w, m, s, len, 0);
    MatchByte(w, m, s, len, 1);
    MatchByte(w, m, s, len, 2);
  }

  /** No position that was searched, visited or not, has a longer match of three bytes or more. */
  lemma NoneMissed(bits: nat, w: seq<byte>, head: seq<nat>, prev: seq<nat>, s: nat, seen: seq<nat>, best: nat, r: nat)
    requires Linked(bits, w, head, prev, s + 1) && s + 2 < |w| && seen != [] && seen[0] == prev[Slot(s)]
             && Walk(prev, seen)
    requires forall i | 0 <= i < |seen| :: Candidate(bits, w, s, seen[i])
    requires NoneLonger(w, seen, s, best) && best >= MIN_MATCH - 1 && Searched(prev, s, seen) <= r < s
    ensures NotLonger(w, r, s, best)
  {
    hide HashOf, Slot, Pow2, Linked, MatchAt;
    PrevSize(bits, w, head, prev, s + 1);
    if HashOf(bits, w, r) == HashOf(bits, w, s) {
      var last := seen[|seen| - 1];
      assert Candidate(bits, w, s, last);
      FollowChain(bits, w, head, prev, s + 1, last);
      WalkAll(bits, w, head, prev, s, seen, r);
      VisitedShorter(w, seen, s, best, r);
    } else if MatchAt(w, r, s, best + 1) {
      MatchHash(bits, w, r, s, best + 1);
    }
  }

  lemma VisitedShorter(w: seq<byte>, seen: seq<nat>, s: nat, best: nat, r: nat)
    requires NoneLonger(w, seen, s, best) && r in seen
    ensures NotLonger(w, r, s, best)
  {
    var i :| 0 <= i < |seen| && seen[i] == r;
  }

  /** How many positions may be visited: fewer if there is a good match already. */
  function Chain(level: Level, prevLength: nat): nat
  {
    if prevLength >= level.goodMatch then level.maxChain / 4 else level.maxChain
  }

  /** Why the search ended. */
  ghost predicate Ended(level: Level, prev: seq<nat>, s: nat, seen: seq<nat>, len: nat, prevLength: nat)
    requires |prev| == WSIZE && seen != []
  {
    || (len >= level.niceMatch && len > prevLength)
    || |seen| == Chain(level, prevLength)
    || prev[Slot(seen[|seen| - 1])] <= Limit(s)
  }

  /**
   The best length among the positions visited, and where it was found.  The
   result prevLength means that none was better, and matchStart is not set.
   */
  method LongestMatch(bits: nat, level: Level, window: array<byte>, prev: array<nat>, strstart: nat, curMatch0: nat,
                      prevLength: nat, matchStart0: nat,
                      ghost head: seq<nat>)
    returns (bestLen: nat, matchStart: nat, ghost seen: seq<nat>, ghost reach: nat)
    requires MIN_HASH_BITS <= bits && level.maxChain >= 4 && strstart + MAX_MATCH < window.Length
             && 1 <= prevLength <= MAX_MATCH
    requires Linked(bits, window[..], head, prev[..], strstart + 1) && Candidate(bits, window[..], strstart, curMatch0)
    ensures prevLength <= bestLen <= MAX_MATCH
    ensures bestLen == prevLength ==> matchStart == matchStart0
    ensures bestLen > prevLength ==>
              && 3 <= bestLen && 0 < matchStart < strstart && strstart - matchStart <= MAX_DIST && matchStart in seen
              && MatchAt(window[..], matchStart, strstart, bestLen)
    ensures prev.Length == WSIZE && seen != [] && seen[0] == curMatch0 && Walk(prev[..], seen)
    ensures NoneLonger(window[..], seen, strstart, bestLen)
            && Ended(level, prev[..], strstart, seen, bestLen, prevLength)
    ensures NiceLast(level, window[..], seen, strstart, prevLength)
            && |seen| <= Chain(level, prevLength)
            && (bestLen > prevLength ==> Nearest(window[..], seen, strstart, bestLen, matchStart))
    ensures forall i | 0 <= i < |seen| :: Candidate(bits, window[..], strstart, seen[i])
    ensures reach == strstart + bestLen
  {
    hide MatchAt, NotLonger, HashOf, Linked, Slot, NoneLonger, Nearest, NiceLast;
    ghost var w := window[..];
    PrevSize(bits, w, head, prev[..], strstart + 1);
    var chainLength := level.maxChain;
    bestLen, matchStart := prevLength, matchStart0;
    if prevLength >= level.goodMatch {
      chainLength := chainLength / 4;
    }
    ghost var chain := chainLength;
    reach := strstart + bestLen;
    var curMatch: nat := curMatch0;
    seen := [];
    NothingSeen(w, strstart, bestLen);
    while true
      invariant 1 <= chainLength && chainLength + |seen| == chain && reach == strstart + bestLen
      invariant Candidate(bits, w, strstart, curMatch)
      invariant prevLength <= bestLen <= MAX_MATCH
      invariant bestLen == prevLength ==> matchStart == matchStart0
      invariant bestLen > prevLength ==>
                  && 3 <= bestLen && 0 < matchStart < strstart && strstart - matchStart <= MAX_DIST
                      && matchStart in seen
                  && MatchAt(w, matchStart, strstart, bestLen)
      invariant seen != [] ==> seen[0] == curMatch0 && curMatch == prev[Slot(seen[|seen| - 1])]
      invariant seen == [] ==> curMatch == curMatch0
      invariant Walk(prev[..], seen) && NoneLonger(w, seen, strstart, bestLen)
      invariant bestLen > prevLength ==> bestLen < level.niceMatch && Nearest(w, seen, strstart, bestLen, matchStart)
                                         && curMatch < matchStart
      invariant forall i | 0 <= i < |seen| :: Candidate(bits, w, strstart, seen[i])
      decreases chainLength
    {
      ghost var end;
      var len;
      len, end := Try(bits, window, strstart, curMatch, bestLen);
      reach := if end > reach then end else reach;
      NiceStep(level, w, seen, strstart, prevLength, bestLen, curMatch);
      if len > bestLen {
        NearestBetter(w, seen, strstart, bestLen, len, curMatch);
      } else if bestLen > prevLength {
        NearestStays(w, seen, strstart, bestLen, matchStart, curMatch);
      }
      NoneLongerStep(w, seen, strstart, bestLen, curMatch, if len > bestLen then len else bestLen);
      seen := seen + [curMatch];
      if len > bestLen {
        matchStart := curMatch;
        bestLen := len;
        if len >= level.niceMatch {
          return;
        }
      }
      NextCandidate(bits, w, head, prev[..], strstart, curMatch);
      curMatch := prev[Slot(curMatch)];
      if curMatch <= Limit(strstart) {
        return;
      }
      chainLength := chainLength - 1;
      if chainLength == 0 {
        return;
      }
    }
  }

  lemma PrevSize(bits: nat, w: seq<byte>, head: seq<nat>, prev: seq<nat>, ins: nat)
    requires Linked(bits, w, head, prev, ins)
    ensures |prev| == WSIZE
  {}

  lemma NothingSeen(w: seq<byte>, s: nat, len: nat)
    ensures NoneLonger(w, [], s, len)
  {}

  lemma AlikeMatches(w: seq<byte>, m: nat, s: nat, len: nat)
    requires m < s && s + len <= |w| && forall i | 0 <= i < |w| :: w[i] == w[0]
    ensures MatchAt(w, m, s, len)
  {
    assert w[m..m + len] == w[s..s + len];
  }

  /**
   In a window of equal bytes the search finds a match of the maximum length,
   and so reads MAX_MATCH bytes and one more.
   */
  lemma AllAlike(w: seq<byte>, seen: seq<nat>, s: nat, len: nat)
    requires seen != [] && seen[0] < s && s + MAX_MATCH <= |w| && (forall i | 0 <= i < |w| :: w[i] == w[0])
    requires NoneLonger(w, seen, s, len)
    ensures len >= MAX_MATCH
  {
    hide MatchAt;
    AlikeMatches(w, seen[0], s, if len < MAX_MATCH then len + 1 else 0);
    assert NotLonger(w, seen[0], s, len);
  }
}
