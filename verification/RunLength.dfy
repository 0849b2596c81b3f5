/**
 Run-length coding of the code lengths, section 3.2.7 of RFC 1951: scan_tree
 counts the symbols that send_tree will send, and expanding what is sent gives
 the lengths back.
 */
module RunLength {
  import opened Bits
  import opened Canonical
  import opened BitLengths
  import opened Lengths

  const REP_3_6: nat := 16
  const REPZ_3_10: nat := 17
  const REPZ_11_138: nat := 18
  const BL_CODES: nat := 19

  /** Extra bits of the code length symbols. */
  function ExtraBlBits(s: nat): nat
  {
    if s == REP_3_6 then 2 else if s == REPZ_3_10 then 3 else if s == REPZ_11_138 then 7 else 0
  }

  /** A symbol of the code length alphabet with the value of its extra bits. */
  datatype LenOp = LenOp(sym: nat, extra: nat)

  ghost predicate OpOk(op: LenOp)
  {
    op.sym < BL_CODES && op.extra < Pow2(ExtraBlBits(op.sym))
  }

  // ----- what is sent for a run -----

  /** The longest run sent at once, given the length before the run. */
  function MaxCount(prev: int, cur: nat): nat
  {
    if cur == 0 then 138 else if prev == cur then 6 else 7
  }

  function MinCount(prev: int, cur: nat): nat
  {
    if cur == 0 || prev == cur then 3 else 4
  }

  function Repeat<T>(x: T, n: nat): (s: seq<T>)
    ensures |s| == n && forall i | 0 <= i < n :: s[i] == x
  {
    seq(n, _ => x)
  }

  /** The symbols sent for count lengths cur, the last length sent being prev. */
  function Emit(prev: int, cur: nat, count: nat): seq<LenOp>
    requires 1 <= count <= MaxCount(prev, cur)
  {
    if count < MinCount(prev, cur) then Repeat(LenOp(cur, 0), count)
    else if cur != 0 then
      if cur != prev then [LenOp(cur, 0), LenOp(REP_3_6, count - 1 - 3)]
      else [LenOp(REP_3_6, count - 3)]
    else if count <= 10 then [LenOp(REPZ_3_10, count - 3)]
    else [LenOp(REPZ_11_138, count - 11)]
  }

  /** A run takes three operations at most, and a single one if it repeats the last length or is of zeros. */
  lemma RunIsShort(prev: int, cur: nat, count: nat)
    requires 1 <= count <= MaxCount(prev, cur)
    ensures 1 <= |Emit(prev, cur, count)| <= 3 && (count >= 4 ==> |Emit(prev, cur, count)| <= 2)
    ensures count >= 3 && (cur == 0 || cur == prev) ==> |Emit(prev, cur, count)| == 1
  {}

  /** The length that follows position n; the guard 0xffff stands after the last one. */
  function NextLen(lens: seq<nat>, n: nat): nat
  {
    if n + 1 < |lens| then lens[n + 1] else 0xffff
  }

  /** The symbols sent from position n on, when count equal lengths before n are pending. */
  function Ops(lens: seq<nat>, n: nat, prev: int, count: nat): seq<LenOp>
    requires n <= |lens|
    requires n < |lens| ==> count < MaxCount(prev, lens[n])
    decreases |lens| - n
  {
    if n == |lens| then []
    else
      var cur := lens[n];
      if count + 1 < MaxCount(prev, cur) && cur == NextLen(lens, n) then Ops(lens, n + 1, prev, count + 1)
      else Emit(prev, cur, count + 1) + Ops(lens, n + 1, cur, 0)
  }

  function AllOps(lens: seq<nat>): seq<LenOp>
  {
    Ops(lens, 0, -1, 0)
  }

  // ----- expanding -----

  /** What the decoder appends to out for one symbol; a repetition needs something to repeat. */
  function ExpandOne(out: seq<nat>, op: LenOp): Option<seq<nat>>
  {
    if op.sym < REP_3_6 then Some(out + [op.sym])
    else if op.sym == REP_3_6 then
      if out == [] then None else Some(out + Repeat(out[|out| - 1], 3 + op.extra))
    else if op.sym == REPZ_3_10 then Some(out + Repeat(0, 3 + op.extra))
    else if op.sym == REPZ_11_138 then Some(out + Repeat(0, 11 + op.extra))
    else None
  }

  function Expand(out: seq<nat>, ops: seq<LenOp>): Option<seq<nat>>
    decreases |ops|
  {
    if ops == [] then Some(out)
    else
      match ExpandOne(out, ops[0])
      case None => None
      case Some(r) => Expand(r, ops[1..])
  }

  lemma {:induction false} ExpandConcat(out: seq<nat>, a: seq<LenOp>, b: seq<LenOp>, mid: seq<nat>)
    requires Expand(out, a) == Some(mid)
    ensures Expand(out, a + b) == Expand(mid, b)
    decreases |a|
  {
    if a == [] {
      assert a + b == b;
    } else {
      assert (a + b)[0] == a[0] && (a + b)[1..] == a[1..] + b;
      ExpandConcat(ExpandOne(out, a[0]).value, a[1..], b, mid);
    }
  }

  lemma {:induction false} ExpandPlain(out: seq<nat>, cur: nat, count: nat)
    requires cur < REP_3_6
    ensures Expand(out, Repeat(LenOp(cur, 0), count)) == Some(out + Repeat(cur, count))
    decreases count
  {
    var ops := Repeat(LenOp(cur, 0), count);
    if count == 0 {
      assert out + Repeat(cur, 0) == out;
    } else {
      assert ops[1..] == Repeat(LenOp(cur, 0), count - 1);
      ExpandPlain(out + [cur], cur, count - 1);
      assert out + [cur] + Repeat(cur, count - 1) == out + Repeat(cur, count);
    }
  }

  /** Expanding the symbols of one run gives the run. */
  lemma ExpandEmit(out: seq<nat>, prev: int, cur: nat, count: nat)
    requires 1 <= count <= MaxCount(prev, cur) && cur < REP_3_6
    requires prev == cur ==> out != [] && out[|out| - 1] == cur
    ensures Expand(out, Emit(prev, cur, count)) == Some(out + Repeat(cur, count))
  {
    var ops := Emit(prev, cur, count);
    if count < MinCount(prev, cur) {
      ExpandPlain(out, cur, count);
    } else if cur != 0 && cur != prev {
      var rep := LenOp(REP_3_6, count - 4);
      assert ops[1..] == [rep] && [rep][1..] == [];
      assert ExpandOne(out + [cur], rep) == Some(out + [cur] + Repeat(cur, count - 1));
      assert out + [cur] + Repeat(cur, count - 1) == out + Repeat(cur, count);
      assert Expand(out + [cur], [rep]) == Some(out + Repeat(cur, count));
    } else {
      assert ops[1..] == [];
    }
  }

  /** Expanding what is sent gives the lengths back, after anything that was sent before. */
  lemma {:induction false} ExpandOps(lens: seq<nat>, n: nat, prev: int, count: nat, out: seq<nat>)
    requires n <= |lens| && count <= n && (forall i | 0 <= i < |lens| :: lens[i] <= MAX_BITS)
    requires n < |lens| ==> count < MaxCount(prev, lens[n]) && forall i | n - count <= i < n :: lens[i] == lens[n]
    requires n == |lens| ==> count == 0
    requires prev >= 0 ==> out + lens[..n - count] != [] && (out + lens[..n - count])[|out| + n - count - 1] == prev
    ensures Expand(out + lens[..n - count], Ops(lens, n, prev, count)) == Some(out + lens)
    decreases |lens| - n
  {
    hide Emit, Expand;
    if n == |lens| {
      assert lens[..n] == lens;
      ExpandNothing(out + lens);
    } else {
      var cur := lens[n];
      if count + 1 < MaxCount(prev, cur) && cur == NextLen(lens, n) {
        ExpandOps(lens, n + 1, prev, count + 1, out);
      } else {
        var here := out + lens[..n - count];
        ExpandEmit(here, prev, cur, count + 1);
        RunOfLens(lens, n, count, out);
        ExpandConcat(here, Emit(prev, cur, count + 1), Ops(lens, n + 1, cur, 0), out + lens[..n + 1]);
        ExpandOps(lens, n + 1, cur, 0, out);
      }
    }
  }

  lemma ExpandNothing(out: seq<nat>)
    ensures Expand(out, []) == Some(out)
  {}

  lemma RunOfLens(lens: seq<nat>, n: nat, count: nat, out: seq<nat>)
    requires count <= n < |lens| && forall i | n - count <= i < n :: lens[i] == lens[n]
    ensures out + lens[..n - count] + Repeat(lens[n], count + 1) == out + lens[..n + 1]
  {
    assert lens[..n + 1] == lens[..n - count] + lens[n - count..n + 1];
    assert lens[n - count..n + 1] == Repeat(lens[n], count + 1);
  }

  /** The round trip for a whole table, wherever it is appended. */
  lemma ExpandAll(lens: seq<nat>, out: seq<nat>)
    requires forall i | 0 <= i < |lens| :: lens[i] <= MAX_BITS
    ensures Expand(out, AllOps(lens)) == Some(out + lens)
  {
    assert out + lens[..0] == out;
    ExpandOps(lens, 0, -1, 0, out);
  }

  // ----- the symbols are well formed -----

  ghost predicate AllOk(ops: seq<LenOp>)
  {
    forall i | 0 <= i < |ops| :: OpOk(ops[i])
  }

  lemma EmitOk(prev: int, cur: nat, count: nat)
    requires 1 <= count <= MaxCount(prev, cur) && cur <= MAX_BITS
    ensures AllOk(Emit(prev, cur, count))
  {
    Pow2Values();
    assert Pow2(0) == 1;
  }

  lemma {:induction false} OpsOk(lens: seq<nat>, n: nat, prev: int, count: nat)
    requires n <= |lens| && (forall i | 0 <= i < |lens| :: lens[i] <= MAX_BITS)
    requires n < |lens| ==> count < MaxCount(prev, lens[n])
    ensures AllOk(Ops(lens, n, prev, count))
    decreases |lens| - n
  {
    if n < |lens| {
      var cur := lens[n];
      if count + 1 < MaxCount(prev, cur) && cur == NextLen(lens, n) {
        OpsOk(lens, n + 1, prev, count + 1);
      } else {
        EmitOk(prev, cur, count + 1);
        OpsOk(lens, n + 1, cur, 0);
      }
    }
  }

  /** A length that occurs is sent as such at least once. */
  lemma {:induction false} SentOnce(lens: seq<nat>, n: nat, prev: int, count: nat, i: nat)
    requires n - count <= i < |lens| && count <= n <= |lens| && lens[i] != 0
             && (forall i | 0 <= i < |lens| :: lens[i] <= MAX_BITS)
    requires n < |lens| ==> count < MaxCount(prev, lens[n]) && forall j | n - count <= j < n :: lens[j] == lens[n]
    requires n == |lens| ==> count == 0
    requires prev != lens[i]
    ensures exists p :: 0 <= p < |Ops(lens, n, prev, count)| && Ops(lens, n, prev, count)[p] == LenOp(lens[i], 0)
    decreases |lens| - n
  {
    var cur := lens[n];
    var ops := Ops(lens, n, prev, count);
    if count + 1 < MaxCount(prev, cur) && cur == NextLen(lens, n) {
      SentOnce(lens, n + 1, prev, count + 1, i);
    } else if i <= n {
      assert Emit(prev, cur, count + 1)[0] == LenOp(cur, 0);
      assert ops[0] == LenOp(lens[i], 0);
    } else if cur == lens[i] {
      if cur != prev {
        assert Emit(prev, cur, count + 1)[0] == LenOp(cur, 0);
        assert ops[0] == LenOp(lens[i], 0);
      }
    } else {
      SentOnce(lens, n + 1, cur, 0, i);
      var tail := Ops(lens, n + 1, cur, 0);
      var p :| 0 <= p < |tail| && tail[p] == LenOp(lens[i], 0);
      assert ops[|Emit(prev, cur, count + 1)| + p] == LenOp(lens[i], 0);
    }
  }

  // ----- counting the symbols -----

  function OpCount(ops: seq<LenOp>, s: nat): nat
  {
    if ops == [] then 0 else (if ops[0].sym == s then 1 else 0) + OpCount(ops[1..], s)
  }

  lemma {:induction false} OpCountConcat(a: seq<LenOp>, b: seq<LenOp>, s: nat)
    ensures OpCount(a + b, s) == OpCount(a, s) + OpCount(b, s)
  {
    if a == [] {
      assert a + b == b;
    } else {
      assert (a + b)[0] == a[0] && (a + b)[1..] == a[1..] + b;
      OpCountConcat(a[1..], b, s);
    }
  }

  lemma {:induction false} OpCountRepeat(op: LenOp, n: nat, s: nat)
    ensures OpCount(Repeat(op, n), s) == if op.sym == s then n else 0
  {
    if n > 0 {
      assert Repeat(op, n)[1..] == Repeat(op, n - 1);
      OpCountRepeat(op, n - 1, s);
    }
  }

  /** What scan_tree adds to the frequency of symbol s for one run. */
  function RunCount(prev: int, cur: nat, count: nat, s: nat): nat
  {
    if count < MinCount(prev, cur) then (if s == cur then count else 0)
    else if cur != 0 then (if cur != prev && s == cur then 1 else 0) + (if s == REP_3_6 then 1 else 0)
    else if count <= 10 then (if s == REPZ_3_10 then 1 else 0)
    else (if s == REPZ_11_138 then 1 else 0)
  }

  lemma EmitCount(prev: int, cur: nat, count: nat, s: nat)
    requires 1 <= count <= MaxCount(prev, cur)
    ensures OpCount(Emit(prev, cur, count), s) == RunCount(prev, cur, count, s)
  {
    var ops := Emit(prev, cur, count);
    if count < MinCount(prev, cur) {
      OpCountRepeat(LenOp(cur, 0), count, s);
    } else if cur != 0 && cur != prev {
      var rep := LenOp(REP_3_6, count - 4);
      assert ops[1..] == [rep] && [rep][1..] == [];
      assert OpCount([rep], s) == if s == REP_3_6 then 1 else 0;
    } else {
      assert ops[1..] == [];
    }
  }

  /** The frequencies so far, together with what is still to come, are those of the whole table. */
  ghost predicate Counting(freq: seq<nat>, freq0: seq<nat>, rest: seq<LenOp>, all: seq<LenOp>)
  {
    && BL_CODES <= |freq| == |freq0|
    && forall s | 0 <= s < |freq| :: freq[s] + OpCount(rest, s) == freq0[s] + OpCount(all, s)
  }

  lemma CountRun(freq: seq<nat>, freq0: seq<nat>, lens: seq<nat>, n: nat, prev: int, count: nat, freq': seq<nat>)
    requires n < |lens| && count < MaxCount(prev, lens[n])
    requires !(count + 1 < MaxCount(prev, lens[n]) && lens[n] == NextLen(lens, n))
    requires Counting(freq, freq0, Ops(lens, n, prev, count), AllOps(lens))
    requires |freq'| == |freq| && forall s | 0 <= s < |freq| ::
               freq'[s] == freq[s] + RunCount(prev, lens[n], count + 1, s)
    ensures Counting(freq', freq0, Ops(lens, n + 1, lens[n], 0), AllOps(lens))
  {
    hide AllOps, RunCount, OpCount;
    var e, rest := Emit(prev, lens[n], count + 1), Ops(lens, n + 1, lens[n], 0);
    forall s | 0 <= s < |freq|
      ensures freq'[s] + OpCount(rest, s) == freq0[s] + OpCount(AllOps(lens), s)
    {
      EmitCount(prev, lens[n], count + 1, s);
      OpCountConcat(e, rest, s);
      assert freq[s] + OpCount(Ops(lens, n, prev, count), s) == freq0[s] + OpCount(AllOps(lens), s);
    }
  }

  /** The state of the loops of scan_tree and send_tree at position n. */
  ghost predicate Scanning(lens: seq<nat>, n: nat, prev: int, count: nat, next: nat, maxCount: nat, minCount: nat)
  {
    && n <= |lens|
    && (n == |lens| ==> count == 0)
    && (n < |lens| ==>
          next == lens[n] && maxCount == MaxCount(prev, next) && minCount == MinCount(prev, next) && count < maxCount)
  }

  /** The lengths and the guard after them, as the array holds them. */
  ghost predicate Guarded(dl: seq<nat>, lens: seq<nat>)
  {
    |lens| < |dl| && dl[..|lens|] == lens && dl[|lens|] == 0xffff && forall i | 0 <= i < |lens| :: lens[i] <= MAX_BITS
  }

  lemma GuardedNext(dl: seq<nat>, lens: seq<nat>, n: nat)
    requires Guarded(dl, lens) && n < |lens|
    ensures n + 1 < |dl| && dl[n] == lens[n] <= MAX_BITS && dl[n + 1] == NextLen(lens, n)
    ensures n + 1 == |lens| ==> dl[n + 1] != lens[n]
  {
    assert dl[n] == dl[..|lens|][n];
    if n + 1 < |lens| {
      assert dl[n + 1] == dl[..|lens|][n + 1];
    }
  }

  /** scan_tree: each code that send_tree will use for these lengths is counted as often as it is used. */
  method ScanTree(dl: array<nat>, maxCode: nat, blFc: array<nat>)
    requires dl != blFc && maxCode + 1 < dl.Length && BL_CODES <= blFc.Length
    requires forall i | 0 <= i <= maxCode :: dl[i] <= MAX_BITS
    modifies dl, blFc
    ensures Guarded(dl[..], old(dl[..maxCode + 1]))
    ensures forall i | 0 <= i < dl.Length && i != maxCode + 1 :: dl[i] == old(dl[i])
    ensures forall s | 0 <= s < blFc.Length :: blFc[s] == old(blFc[s]) + OpCount(AllOps(old(dl[..maxCode + 1])), s)
  {
    hide Ops, OpCount, Counting, Guarded, RunCount;
    ghost var lens, freq0 := dl[..maxCode + 1], blFc[..];
    var n: nat, prevlen: int, nextlen: nat := 0, -1, dl[0];
    var count: nat, maxCount: nat, minCount: nat := 0, 7, 4;
    if nextlen == 0 {
      maxCount, minCount := 138, 3;
    }
    dl[maxCode + 1] := 0xffff;
    SetGuard(dl[..], lens);
    StartCounting(freq0, lens);
    while n <= maxCode
      invariant 0 <= n <= maxCode + 1 && blFc.Length == |freq0|
      invariant Guarded(dl[..], lens) && Scanning(lens, n, prevlen, count, nextlen, maxCount, minCount)
      invariant Counting(blFc[..], freq0, Ops(lens, n, prevlen, count), AllOps(lens))
      invariant forall i | 0 <= i < dl.Length && i != maxCode + 1 :: dl[i] == old(dl[i])
    {
      GuardedNext(dl[..], lens, n);
      OpsStep(lens, n, prevlen, count);
      var curlen := nextlen;
      nextlen := dl[n + 1];
      count := count + 1;
      if count < maxCount && curlen == nextlen {
        n := n + 1;
        continue;
      }
      ghost var before := blFc[..];
      AddRun(blFc, prevlen, curlen, count, minCount);
      CountRun(before, freq0, lens, n, prevlen, count - 1, blFc[..]);
      count, prevlen := 0, curlen;
      maxCount, minCount := 7, 4;
      if nextlen == 0 {
        maxCount, minCount := 138, 3;
      } else if curlen == nextlen {
        maxCount, minCount := 6, 3;
      }
      n := n + 1;
    }
    DoneCounting(blFc[..], freq0, lens, prevlen, count);
  }

  method AddRun(blFc: array<nat>, prevlen: int, curlen: nat, count: nat, minCount: nat)
    requires BL_CODES <= blFc.Length && curlen <= MAX_BITS && minCount == MinCount(prevlen, curlen)
    modifies blFc
    ensures forall s | 0 <= s < blFc.Length :: blFc[s] == old(blFc[s]) + RunCount(prevlen, curlen, count, s)
  {
    if count < minCount {
      blFc[curlen] := blFc[curlen] + count;
    } else if curlen != 0 {
      if curlen != prevlen {
        blFc[curlen] := blFc[curlen] + 1;
      }
      blFc[REP_3_6] := blFc[REP_3_6] + 1;
    } else if count <= 10 {
      blFc[REPZ_3_10] := blFc[REPZ_3_10] + 1;
    } else {
      blFc[REPZ_11_138] := blFc[REPZ_11_138] + 1;
    }
  }

  lemma SetGuard(dl: seq<nat>, lens: seq<nat>)
    requires |lens| < |dl| && dl[|lens|] == 0xffff && dl[..|lens|] == lens
             && forall i | 0 <= i < |lens| :: lens[i] <= MAX_BITS
    ensures Guarded(dl, lens)
  {}

  lemma StartCounting(freq: seq<nat>, lens: seq<nat>)
    requires BL_CODES <= |freq|
    ensures Counting(freq, freq, Ops(lens, 0, -1, 0), AllOps(lens))
  {}

  lemma DoneCounting(freq: seq<nat>, freq0: seq<nat>, lens: seq<nat>, prev: int, count: nat)
    requires Counting(freq, freq0, Ops(lens, |lens|, prev, count), AllOps(lens))
    ensures |freq| == |freq0| && forall s | 0 <= s < |freq| :: freq[s] == freq0[s] + OpCount(AllOps(lens), s)
  {}

  lemma OpsStep(lens: seq<nat>, n: nat, prev: int, count: nat)
    requires n < |lens| && count < MaxCount(prev, lens[n])
    ensures count + 1 < MaxCount(prev, lens[n]) && lens[n] == NextLen(lens, n) ==>
              Ops(lens, n, prev, count) == Ops(lens, n + 1, prev, count + 1)
    ensures !(count + 1 < MaxCount(prev, lens[n]) && lens[n] == NextLen(lens, n)) ==>
              Ops(lens, n, prev, count) == Emit(prev, lens[n], count + 1) + Ops(lens, n + 1, lens[n], 0)
  {}
}
