/**
 The dynamic trees of a block: built from the frequencies of its symbols,
 measured, and sent in the header of the block.
 */
module DynTrees {
  import opened Bits
  import opened Canonical
  import opened BitLengths
  import opened Lengths
  import opened BT = BuildTree
  import opened Optimality
  import opened RunLength
  import opened SendTree
  import opened Inflate
  import opened Tables
  import opened BlockCode
  import opened DynHeader
  import ST = StaticTrees
  import TB = TokenBuffer
  import BW = BitWriter

  const BL_EXTRA := Extra([0, 0, 0, 0, 0, 0, 0, 0, 0, 0, 0, 0, 0, 0, 0, 0, 2, 3, 7], 0)

  lemma BlExtra(s: nat)
    requires s < BL_CODES
    ensures BL_EXTRA.At(s) == ExtraBlBits(s)
  {}

  // ----- the size of the two tables of lengths -----

  ghost function OpFreqs(ops: seq<LenOp>): (f: seq<nat>)
    ensures |f| == BL_CODES && forall s | 0 <= s < BL_CODES :: f[s] == OpCount(ops, s)
  {
    seq(BL_CODES, s requires s >= 0 => OpCount(ops, s))
  }

  lemma OpFreqsStep(ops: seq<LenOp>)
    requires ops != [] && ops[0].sym < BL_CODES
    ensures OpFreqs(ops) == Increment(OpFreqs(ops[1..]), ops[0].sym)
  {}

  lemma {:induction false} OpsSize(bl: seq<nat>, ops: seq<LenOp>)
    requires |bl| == BL_CODES && Sendable(bl, ops)
    ensures |EncodeOps(bl, ops)| == Cost(OpFreqs(ops), bl, BL_EXTRA, BL_CODES)
    decreases |ops|
  {
    hide OpFreqs, Cost, ExtraBlBits, BL_EXTRA, CodeBits, BitsOf, Pow2, Increment;
    if ops == [] {
      ZeroCost(OpFreqs(ops), bl, BL_EXTRA, BL_CODES);
    } else {
      OpsSize(bl, ops[1..]);
      OpFreqsStep(ops);
      BumpCost(OpFreqs(ops[1..]), bl, BL_EXTRA, ops[0].sym, BL_CODES);
      BlExtra(ops[0].sym);
    }
  }

  lemma {:induction false} OpsTotal(ops: seq<LenOp>)
    requires forall i | 0 <= i < |ops| :: ops[i].sym < BL_CODES
    ensures Total(OpFreqs(ops), BL_CODES) == |ops|
    decreases |ops|
  {
    hide OpFreqs, Total;
    if ops == [] {
      ZeroTotal(OpFreqs(ops), BL_CODES);
    } else {
      OpsTotal(ops[1..]);
      OpFreqsStep(ops);
      var f := OpFreqs(ops[1..]);
      TotalUpdate(f, ops[0].sym, f[ops[0].sym] + 1, BL_CODES);
    }
  }

  lemma {:induction false} ZeroTotal(f: seq<nat>, n: nat)
    requires n <= |f| && forall i | 0 <= i < n :: f[i] == 0
    ensures Total(f, n) == 0
  {
    if n > 0 {
      ZeroTotal(f, n - 1);
    }
  }

  lemma {:induction false} TotalSame(f: seq<nat>, g: seq<nat>, n: nat)
    requires n <= |f| && n <= |g| && f[..n] == g[..n]
    ensures Total(f, n) == Total(g, n)
  {
    if n > 0 {
      assert f[..n - 1] == f[..n][..n - 1] && g[..n - 1] == g[..n][..n - 1];
      assert f[n - 1] == f[..n][n - 1];
      TotalSame(f, g, n - 1);
    }
  }

  lemma {:induction false} CostPrefix(f: seq<nat>, g: seq<nat>, a: seq<nat>, b: seq<nat>, extra: Extra, n: nat)
    requires n <= |f| && n <= |g| && n <= |a| && n <= |b| && f[..n] == g[..n] && a[..n] == b[..n]
    ensures Cost(f, a, extra, n) == Cost(g, b, extra, n)
  {
    if n > 0 {
      assert f[..n - 1] == f[..n][..n - 1] && g[..n - 1] == g[..n][..n - 1];
      assert a[..n - 1] == a[..n][..n - 1] && b[..n - 1] == b[..n][..n - 1];
      assert f[n - 1] == f[..n][n - 1] && a[n - 1] == a[..n][n - 1];
      CostPrefix(f, g, a, b, extra, n - 1);
    }
  }

  /** Fewer symbols are sent than there are lengths. */
  lemma OpsFew(lens: seq<nat>)
    requires forall i | 0 <= i < |lens| :: lens[i] <= MAX_BITS
    ensures |AllOps(lens)| <= |lens| && AllOk(AllOps(lens))
  {
    ExpandAll(lens, []);
    ExpandGrows([], AllOps(lens), [] + lens);
    OpsOk(lens, 0, -1, 0);
  }

  // ----- frequencies -----

  lemma {:induction false} LitTotal(tb: CodeTables, ts: seq<Token>)
    requires tb.Valid() && TokensOk(ts)
    ensures Total(LitFreqs(tb, ts), L_CODES) == |ts| + 1
    decreases |ts|
  {
    hide CodeTables.Valid, Total, TokenOk;
    if ts == [] {
      ZeroTotal(Zeros(L_CODES), L_CODES);
      TotalUpdate(Zeros(L_CODES), END_BLOCK, 1, L_CODES);
    } else {
      var front, s := ts[..|ts| - 1], LitSym(tb, ts[|ts| - 1]);
      LitTotal(tb, front);
      TotalUpdate(LitFreqs(tb, front), s, LitFreqs(tb, front)[s] + 1, L_CODES);
    }
  }

  lemma {:induction false} DistTotal(tb: CodeTables, ts: seq<Token>)
    requires tb.Valid() && TokensOk(ts)
    ensures Total(DistFreqs(tb, ts), D_CODES) <= |ts|
    decreases |ts|
  {
    hide CodeTables.Valid, Total, TokenOk;
    if ts == [] {
      ZeroTotal(Zeros(D_CODES), D_CODES);
    } else {
      var front, t := ts[..|ts| - 1], ts[|ts| - 1];
      DistTotal(tb, front);
      if t.Match? {
        var s := DistSym(tb, t);
        TotalUpdate(DistFreqs(tb, front), s, DistFreqs(tb, front)[s] + 1, D_CODES);
      }
    }
  }

  // ----- the literal and distance trees -----

  /** What the rest of the block needs of a finished tree. */
  ghost predicate TreeDone(freq: seq<nat>, fc: seq<nat>, dl: seq<nat>, elems: nat, maxCode: nat, top: nat)
  {
    && 1 <= maxCode < elems <= |dl| && elems == |freq|
    && Decodable(dl[..maxCode + 1]) && TB.CodesTo(dl[..maxCode + 1], elems, fc, dl) && Covers(freq, dl[..maxCode + 1])
    && (forall i | 0 <= i <= maxCode :: dl[i] <= top)
  }

  lemma BuiltDone(freq: seq<nat>, fc: seq<nat>, dl: seq<nat>, elems: nat, maxCode: nat, top: nat)
    requires Built(freq, fc, dl, elems, maxCode, top)
    ensures elems <= |freq| && TreeDone(freq[..elems], fc, dl, elems, maxCode, top)
  {
    hide HasCode, KraftTo, Pow2;
  }

  lemma Sized(freq: seq<nat>, fc: seq<nat>, dl: seq<nat>, elems: nat, maxCode: nat)
    requires TreeDone(freq, fc, dl, elems, maxCode, MAX_BITS)
    ensures maxCode < elems <= |dl|
  {
    hide Decodable, TB.CodesTo, Covers;
  }

  lemma FixedCovers(tb: CodeTables, ts: seq<Token>)
    requires tb.Valid() && TokensOk(ts)
    ensures CanEncode(tb, FixedLitLens(), FixedDistLens(), ts)
  {
    hide CodeTables.Valid, LitFreqs, DistFreqs, CanEncode, FixedLitLens;
    ST.FixedLens();
    CoversEnough(tb, FixedLitLens(), FixedDistLens(), ts);
  }

  /** The size of the block with the fixed codes, as computed from the static trees. */
  lemma StaticSize(tb: CodeTables, ts: seq<Token>, lf: seq<nat>, df: seq<nat>, st: ST.StaticTrees)
    requires tb.Valid() && TokensOk(ts) && st.Valid()
    requires |lf| >= L_CODES && |df| >= D_CODES && lf[..L_CODES] == LitFreqs(tb, ts)
             && df[..D_CODES] == DistFreqs(tb, ts)
    ensures CanEncode(tb, FixedLitLens(), FixedDistLens(), ts)
    ensures Cost(lf, st.lDl, LIT_EXTRA, L_CODES) + Cost(df, st.dDl, DST_EXTRA, D_CODES)
            == |EncodeBody(tb, FixedLitLens(), FixedDistLens(), ts)|
  {
    hide CodeTables.Valid, LitFreqs, DistFreqs, CanEncode, FixedLitLens, Cost, EncodeBody, HasCode, LIT_EXTRA,
         DST_EXTRA;
    ST.FixedLens();
    FixedCovers(tb, ts);
    BodySize(tb, FixedLitLens(), FixedDistLens(), ts, FixedLitLens(), FixedDistLens());
    Whole(LitFreqs(tb, ts), L_CODES);
    Whole(DistFreqs(tb, ts), D_CODES);
    CostPrefix(lf, LitFreqs(tb, ts), st.lDl, FixedLitLens(), LIT_EXTRA, L_CODES);
    Whole(st.dDl, D_CODES);
    CostPrefix(df, DistFreqs(tb, ts), st.dDl, FixedDistLens(), DST_EXTRA, D_CODES);
  }

  lemma Whole(s: seq<nat>, n: nat)
    requires |s| == n
    ensures s[..n] == s
  {}

  /** The size of the block with the dynamic codes, as computed while the trees are built. */
  lemma DynamicSize(tb: CodeTables, ts: seq<Token>, lf: seq<nat>, df: seq<nat>, lFc: seq<nat>, lDl: seq<nat>, lMax: nat,
                    dFc: seq<nat>, dDl: seq<nat>, dMax: nat)
    requires tb.Valid() && TokensOk(ts)
    requires |lf| >= L_CODES && |df| >= D_CODES && lf[..L_CODES] == LitFreqs(tb, ts)
             && df[..D_CODES] == DistFreqs(tb, ts)
    requires TreeDone(LitFreqs(tb, ts), lFc, lDl, L_CODES, lMax, MAX_BITS)
             && TreeDone(DistFreqs(tb, ts), dFc, dDl, D_CODES, dMax, MAX_BITS)
    ensures CanEncode(tb, lDl[..lMax + 1], dDl[..dMax + 1], ts) && 256 <= lMax
    ensures Cost(lf, lDl, LIT_EXTRA, L_CODES) + Cost(df, dDl, DST_EXTRA, D_CODES)
            == |EncodeBody(tb, lDl[..lMax + 1], dDl[..dMax + 1], ts)|
  {
    hide CodeTables.Valid, LitFreqs, DistFreqs, CanEncode, Cost, EncodeBody, Decodable, TB.CodesTo, LIT_EXTRA,
         DST_EXTRA;
    var ll, dd := lDl[..lMax + 1], dDl[..dMax + 1];
    EndCounted(tb, ts);
    CoversEnough(tb, ll, dd, ts);
    BodySize(tb, ll, dd, ts, lDl, dDl);
    Whole(LitFreqs(tb, ts), L_CODES);
    Whole(DistFreqs(tb, ts), D_CODES);
    CostPrefix(lf, LitFreqs(tb, ts), lDl, lDl, LIT_EXTRA, L_CODES);
    CostPrefix(df, DistFreqs(tb, ts), dDl, dDl, DST_EXTRA, D_CODES);
  }

  lemma ExtrasStart()
    ensures forall x | 0 <= x < 3 :: LIT_EXTRA.At(x) == 0 && DST_EXTRA.At(x) == 0 && BL_EXTRA.At(x) == 0
    ensures L_CODES <= Pow2(MAX_BITS) && D_CODES <= Pow2(MAX_BITS) && BL_CODES <= Pow2(7)
  {
    Pow2Values();
  }

  /** The last of the first n places of bl_order has a code, and none behind it has one. */
  ghost predicate LastSent(bl: seq<nat>, n: nat)
  {
    OrderSize();
    1 <= n <= BL_CODES == |bl| && bl[BL_ORDER[n - 1]] != 0 && forall r | n <= r < BL_CODES :: bl[BL_ORDER[r]] == 0
  }

  class Trees {
    const heap: array<nat>
    const depth: array<nat>
    const blCount: array<nat>
    const lFc: array<nat>
    const lDl: array<nat>
    const dFc: array<nat>
    const dDl: array<nat>
    const blFc: array<nat>
    const blDl: array<nat>

    ghost predicate Shape()
    {
      && heap.Length == depth.Length == lFc.Length == lDl.Length == 2 * L_CODES + 1
      && heap != depth && heap != lFc && heap != lDl && depth != lFc && depth != lDl && lFc != lDl
      && dFc.Length == dDl.Length == 2 * D_CODES + 1 && dFc != dDl
      && blFc.Length == blDl.Length == 2 * BL_CODES + 1 && blFc != blDl
      && blCount.Length == MAX_BITS + 1
    }

    ghost function Repr(): set<object>
    {
      {heap, depth, blCount, lFc, lDl, dFc, dDl, blFc, blDl}
    }

    constructor ()
      ensures Shape() && fresh(Repr())
    {
      heap := new nat[2 * L_CODES + 1](_ => 0);
      depth := new nat[2 * L_CODES + 1](_ => 0);
      blCount := new nat[MAX_BITS + 1](_ => 0);
      lFc := new nat[2 * L_CODES + 1](_ => 0);
      lDl := new nat[2 * L_CODES + 1](_ => 0);
      dFc := new nat[2 * D_CODES + 1](_ => 0);
      dDl := new nat[2 * D_CODES + 1](_ => 0);
      blFc := new nat[2 * BL_CODES + 1](_ => 0);
      blDl := new nat[2 * BL_CODES + 1](_ => 0);
    }

    /** The frequencies are those of the given tokens. */
    ghost predicate Counts(tb: CodeTables, ts: seq<Token>)
      reads lFc, dFc, blFc
    {
      && Shape() && tb.Valid() && TokensOk(ts)
      && lFc[..L_CODES] == LitFreqs(tb, ts) && dFc[..D_CODES] == DistFreqs(tb, ts)
          && blFc[..BL_CODES] == Zeros(BL_CODES)
    }

    /** The first two calls of build_tree in flush_block. */
    method BuildCodes(st: ST.StaticTrees, ghost tb: CodeTables, ghost ts: seq<Token>)
      returns (lMax: nat, dMax: nat, opt: int, stat: int)
      requires Counts(tb, ts) && st.Valid() && |ts| < 0xfffd
      modifies heap, depth, blCount, lFc, lDl, dFc, dDl
      ensures TreeDone(LitFreqs(tb, ts), lFc[..], lDl[..], L_CODES, lMax, MAX_BITS)
      ensures TreeDone(DistFreqs(tb, ts), dFc[..], dDl[..], D_CODES, dMax, MAX_BITS) && 256 <= lMax
      ensures TreeOf(LitFreqs(tb, ts), lDl[..lMax + 1], LIT_EXTRA, L_CODES, MAX_BITS)
      ensures TreeOf(DistFreqs(tb, ts), dDl[..dMax + 1], DST_EXTRA, D_CODES, MAX_BITS)
      ensures lDl[lMax] != 0 && dDl[dMax] != 0
      ensures CanEncode(tb, lDl[..lMax + 1], dDl[..dMax + 1], ts) && CanEncode(tb, FixedLitLens(), FixedDistLens(), ts)
      ensures opt == |EncodeBody(tb, lDl[..lMax + 1], dDl[..dMax + 1], ts)|
      ensures stat == |EncodeBody(tb, FixedLitLens(), FixedDistLens(), ts)|
    {
      hide CodeTables.Valid, LitFreqs, DistFreqs, CanEncode, Cost, EncodeBody, Built, TreeDone, Total, LIT_EXTRA,
           DST_EXTRA, Pow2, FixedLitLens,
           ST.StaticTrees.Valid, Outcome, TreeOf, Extra.At;
      ghost var lf, df := lFc[..], dFc[..];
      FreqsReady(tb, ts, lf, df);
      ExtrasStart();
      StaticSized(st);
      var o, s;
      ghost var j, clamped;
      lMax, opt, stat, j, clamped := BT.BuildTree(heap, lFc, lDl, depth, st.lDl, blCount, LIT_EXTRA, L_CODES, MAX_BITS);
      BuiltDone(lf, lFc[..], lDl[..], L_CODES, lMax, MAX_BITS);
      Sized(LitFreqs(tb, ts), lFc[..], lDl[..], L_CODES, lMax);
      IsTree(LitFreqs(tb, ts), lDl[..], lMax + 1, LIT_EXTRA, L_CODES, lMax, MAX_BITS, j, clamped);
      dMax, o, s, j, clamped := BT.BuildTree(heap, dFc, dDl, depth, st.dDl, blCount, DST_EXTRA, D_CODES, MAX_BITS);
      BuiltDone(df, dFc[..], dDl[..], D_CODES, dMax, MAX_BITS);
      Sized(DistFreqs(tb, ts), dFc[..], dDl[..], D_CODES, dMax);
      IsTree(DistFreqs(tb, ts), dDl[..], dMax + 1, DST_EXTRA, D_CODES, dMax, MAX_BITS, j, clamped);
      opt, stat := opt + o, stat + s;
      StaticSize(tb, ts, lf, df, st);
      DynamicSize(tb, ts, lf, df, lFc[..], lDl[..], lMax, dFc[..], dDl[..], dMax);
    }

    /** The two calls of scan_tree in build_bl_tree. */
    method ScanBoth(lMax: nat, dMax: nat, ghost ll: seq<nat>, ghost dd: seq<nat>)
      requires Shape() && lMax < L_CODES && dMax < D_CODES && ll == lDl[..lMax + 1] && dd == dDl[..dMax + 1]
      requires (forall i | 0 <= i < |ll| :: ll[i] <= MAX_BITS) && (forall i | 0 <= i < |dd| :: dd[i] <= MAX_BITS)
      requires blFc[..BL_CODES] == Zeros(BL_CODES)
      modifies lDl, dDl, blFc
      ensures Guarded(lDl[..], ll) && Guarded(dDl[..], dd) && blFc[..BL_CODES] == OpFreqs(AllOps(ll) + AllOps(dd))
    {
      hide Guarded, AllOps, OpCount;
      LensBelow(lDl[..], ll);
      ScanTree(lDl, lMax, blFc);
      LensBelow(dDl[..], dd);
      ScanTree(dDl, dMax, blFc);
      forall s: nat | s < BL_CODES
        ensures blFc[s] == OpCount(AllOps(ll) + AllOps(dd), s)
      {
        OpCountConcat(AllOps(ll), AllOps(dd), s);
      }
    }

    /** The search for the last entry of bl_order with a code. */
    method LastBl() returns (n: nat)
      requires Shape() && exists s | 0 <= s < 16 :: blDl[s] != 0
      ensures 3 <= n < BL_CODES && blDl[BL_ORDER[n]] != 0 && forall r | n < r < BL_CODES :: blDl[BL_ORDER[r]] == 0
    {
      hide BL_ORDER, Place;
      OrderSize();
      n := BL_CODES - 1;
      ghost var s: nat :| s < 16 && blDl[s] != 0;
      OrderCovers(s);
      LiteralPlace(s);
      while n >= 3
        invariant Place(s) <= n < BL_CODES
        invariant forall r | n < r < BL_CODES :: blDl[BL_ORDER[r]] == 0
      {
        if blDl[BL_ORDER[n]] != 0 {
          return;
        }
        n := n - 1;
      }
    }

    /** build_bl_tree */
    method BuildBl(lMax: nat, dMax: nat, ghost ll: seq<nat>, ghost dd: seq<nat>)
      returns (maxBlIndex: nat, opt: int, ghost bl: seq<nat>)
      requires Shape() && 256 <= lMax < L_CODES && dMax < D_CODES && ll == lDl[..lMax + 1] && dd == dDl[..dMax + 1]
      requires (forall i | 0 <= i < |ll| :: ll[i] <= MAX_BITS) && (forall i | 0 <= i < |dd| :: dd[i] <= MAX_BITS)
               && ll[END_BLOCK] > 0
      requires blFc[..BL_CODES] == Zeros(BL_CODES)
      modifies heap, depth, blCount, lDl, dDl, blFc, blDl
      ensures Guarded(lDl[..], ll) && Guarded(dDl[..], dd)
      ensures Coherent(ll, dd, bl, maxBlIndex + 1) && bl == blDl[..BL_CODES] && Codes(bl, blFc[..], blDl[..])
      ensures opt == |Header(ll, dd, bl, maxBlIndex + 1)|
      ensures TreeOf(OpFreqs(AllOps(ll) + AllOps(dd)), bl, BL_EXTRA, BL_CODES, 7) && LastSent(bl, maxBlIndex + 1)
    {
      hide Guarded, AllOps, Built, OpFreqs, Cost, Pow2, Coherent, Codes, Outcome, TreeOf, Extra.At, BL_EXTRA, Total,
           BL_ORDER, Header;
      ScanBoth(lMax, dMax, ll, dd);
      ghost var freq := blFc[..];
      BlReady(freq, ll, dd);
      ExtrasStart();
      ghost var j, clamped;
      ghost var stat, maxCode;
      maxCode, opt, stat, j, clamped := BT.BuildTree(heap, blFc, blDl, depth, [], blCount, BL_EXTRA, BL_CODES, 7);
      bl := blDl[..BL_CODES];
      IsTree(OpFreqs(AllOps(ll) + AllOps(dd)), blDl[..], BL_CODES, BL_EXTRA, BL_CODES, maxCode, 7, j, clamped);
      BlBuilt(freq, blFc[..], blDl[..], maxCode, ll, dd);
      maxBlIndex := LastBl();
      OrderSize();
      BlCoherent(ll, dd, bl, maxBlIndex + 1, freq, blDl[..]);
      opt := opt + (3 * (maxBlIndex + 1) + 5 + 5 + 4);
    }

    /** The loop of send_all_trees over the lengths of the bit length code. */
    method SendBlLens(w: BW.BitWriter, n: nat, ghost bl: seq<nat>)
      requires Shape() && w.Valid() && {w as object, w.outbuf} !! Repr()
      requires n <= BL_CODES && bl == blDl[..BL_CODES] && forall s | 0 <= s < BL_CODES :: bl[s] < 8
      modifies w, w.outbuf
      ensures w.Valid() && w.Stream() == old(w.Stream()) + BlBits(bl, n)
    {
      hide BitsOf, Pow2, BW.BitWriter.Valid, BW.BitWriter.Stream, BL_ORDER;
      OrderSize();
      Pow2Values();
      var rank := 0;
      while rank < n
        invariant 0 <= rank <= n && w.Valid() && w.Stream() == old(w.Stream()) + BlBits(bl, rank)
      {
        assert bl[BL_ORDER[rank]] == blDl[BL_ORDER[rank]];
        w.SendBits(blDl[BL_ORDER[rank]], 3);
        rank := rank + 1;
      }
    }

    method SendCounts(w: BW.BitWriter, lcodes: nat, dcodes: nat, blcodes: nat, ghost ll: seq<nat>, ghost dd: seq<nat>)
      requires w.Valid() && lcodes == |ll| && dcodes == |dd|
      requires 257 <= lcodes <= L_CODES && 1 <= dcodes <= D_CODES && 4 <= blcodes <= BL_CODES
      modifies w, w.outbuf
      ensures w.Valid() && w.Stream() == old(w.Stream()) + DynHeader.Counts(ll, dd, blcodes)
    {
      hide BitsOf, Pow2, BW.BitWriter.Valid, BW.BitWriter.Stream;
      Pow2Values();
      w.SendBits(lcodes - 257, 5);
      w.SendBits(dcodes - 1, 5);
      w.SendBits(blcodes - 4, 4);
    }

    /** send_all_trees */
    method SendAllTrees(w: BW.BitWriter, lcodes: nat, dcodes: nat, blcodes: nat, ghost ll: seq<nat>,
                        ghost dd: seq<nat>, ghost bl: seq<nat>)
      requires Shape() && w.Valid() && {w as object, w.outbuf} !! Repr()
      requires lcodes == |ll| && dcodes == |dd| && Coherent(ll, dd, bl, blcodes)
      requires bl == blDl[..BL_CODES] && Codes(bl, blFc[..], blDl[..]) && Guarded(lDl[..], ll) && Guarded(dDl[..], dd)
      modifies w, w.outbuf
      ensures w.Valid() && w.Stream() == old(w.Stream()) + Header(ll, dd, bl, blcodes)
    {
      hide BitsOf, Pow2, BW.BitWriter.Valid, BW.BitWriter.Stream, Codes, Guarded, Sendable, AllOps, DynHeader.Counts,
           BlBits, EncodeOps, BL_ORDER, Decodable;
      ghost var s := w.Stream();
      SendCounts(w, lcodes, dcodes, blcodes, ll, dd);
      SendBlLens(w, blcodes, bl);
      SendLengths(w, lDl, lcodes - 1, blFc, blDl, ll, bl);
      SendLengths(w, dDl, dcodes - 1, blFc, blDl, dd, bl);
      SendableSymbols(bl, AllOps(ll));
      SendableSymbols(bl, AllOps(dd));
      Join(s, DynHeader.Counts(ll, dd, blcodes), BlBits(bl, blcodes), EncodeOps(bl, AllOps(ll)),
          EncodeOps(bl, AllOps(dd)));
    }

    /** The part of init_block that clears the frequencies. */
    method Clear(ghost tb: CodeTables)
      requires Shape() && tb.Valid()
      modifies lFc, dFc, blFc
      ensures Counts(tb, [])
    {
      hide CodeTables.Valid;
      ZeroFirst(lFc, L_CODES);
      ZeroFirst(dFc, D_CODES);
      ZeroFirst(blFc, BL_CODES);
      lFc[END_BLOCK] := 1;
    }

    /** The part of ct_tally that counts the symbols of a token. */
    method Tally(tb: CodeTables, dist: nat, lc: byte, ghost ts: seq<Token>)
      requires Counts(tb, ts) && dist <= 0x8000 && |ts| < 0xfffe
      modifies lFc, dFc
      ensures Counts(tb, ts + [TB.TokenOf(dist, lc)])
    {
      hide CodeTables.Valid, LitFreqs, DistFreqs, LitSym, DistSym, CodeTables.DCode, Zeros;
      ghost var t := TB.TokenOf(dist, lc);
      TokenSymbols(tb, dist, lc);
      FreqsStep(tb, ts, t);
      if dist == 0 {
        lFc[lc] := U16(lFc[lc] + 1);
      } else {
        var sym := tb.lengthCode[lc] + LITERALS + 1;
        lFc[sym] := U16(lFc[sym] + 1);
        var d := tb.DCode(dist - 1);
        dFc[d] := U16(dFc[d] + 1);
      }
    }
  }

  method ZeroFirst(a: array<nat>, n: nat)
    requires n <= a.Length
    modifies a
    ensures a[..n] == Zeros(n)
  {
    var i := 0;
    while i < n
      invariant 0 <= i <= n && forall k | 0 <= k < i :: a[k] == 0
    {
      a[i] := 0;
      i := i + 1;
    }
  }

  lemma Join(s: seq<bool>, a: seq<bool>, b: seq<bool>, c: seq<bool>, d: seq<bool>)
    ensures s + a + b + c + d == s + (a + (b + (c + d)))
  {}

  lemma TokenSymbols(tb: CodeTables, dist: nat, lc: byte)
    requires tb.Valid() && dist <= 0x8000
    ensures |tb.lengthCode| == 256 && |tb.distCode| == 512
    ensures var t := TB.TokenOf(dist, lc);
            && TokenOk(t) && LitSym(tb, t) == (if dist == 0 then lc else tb.lengthCode[lc] + LITERALS + 1)
            && (dist != 0 ==> DistSym(tb, t) == tb.DCode(dist - 1))
  {
    hide CodeTables.Valid, CodeTables.DCode;
    TablesSized(tb);
  }

  lemma {:induction false} FreqBound(tb: CodeTables, ts: seq<Token>)
    requires tb.Valid() && TokensOk(ts)
    ensures forall s | 0 <= s < L_CODES :: LitFreqs(tb, ts)[s] <= |ts| + 1
    ensures forall s | 0 <= s < D_CODES :: DistFreqs(tb, ts)[s] <= |ts|
    decreases |ts|
  {
    hide CodeTables.Valid, LitSym, DistSym;
    if ts != [] {
      FreqBound(tb, ts[..|ts| - 1]);
    }
  }

  /** The counters are large enough for the symbols of a block. */
  lemma FreqsStep(tb: CodeTables, ts: seq<Token>, t: Token)
    requires tb.Valid() && TokensOk(ts) && TokenOk(t) && |ts| < 0xfffe
    ensures TokensOk(ts + [t])
    ensures var f, s := LitFreqs(tb, ts), LitSym(tb, t);
            U16(f[s] + 1) == f[s] + 1 && LitFreqs(tb, ts + [t]) == f[s := f[s] + 1]
    ensures t.Literal? ==> DistFreqs(tb, ts + [t]) == DistFreqs(tb, ts)
    ensures t.Match? ==> var f, s := DistFreqs(tb, ts), DistSym(tb, t);
                         U16(f[s] + 1) == f[s] + 1 && DistFreqs(tb, ts + [t]) == f[s := f[s] + 1]
  {
    hide CodeTables.Valid, LitSym, DistSym;
    assert (ts + [t])[..|ts|] == ts;
    FreqBound(tb, ts);
  }

  lemma LensBelow(dl: seq<nat>, lens: seq<nat>)
    requires |lens| <= |dl| && lens == dl[..|lens|] && forall i | 0 <= i < |lens| :: lens[i] <= MAX_BITS
    ensures forall i | 0 <= i < |lens| :: dl[i] <= MAX_BITS
  {
    forall i | 0 <= i < |lens|
      ensures dl[i] <= MAX_BITS
    {
      assert dl[i] == lens[i];
    }
  }

  lemma LiteralPlace(s: nat)
    requires s < 16
    ensures 3 <= Place(s)
  {}

  /** Few enough symbols are sent for the bit length tree. */
  lemma BlReady(freq: seq<nat>, ll: seq<nat>, dd: seq<nat>)
    requires BL_CODES <= |freq| && freq[..BL_CODES] == OpFreqs(AllOps(ll) + AllOps(dd)) && |ll| <= L_CODES
             && |dd| <= D_CODES
    requires (forall i | 0 <= i < |ll| :: ll[i] <= MAX_BITS) && (forall i | 0 <= i < |dd| :: dd[i] <= MAX_BITS)
    ensures Total(freq, BL_CODES) < 0xfffe
  {
    hide AllOps, OpFreqs, Total, Pow2, ExtraBlBits;
    OpsFew(ll);
    OpsFew(dd);
    var ops := AllOps(ll) + AllOps(dd);
    OpsTotal(ops);
    Whole(OpFreqs(ops), BL_CODES);
    TotalSame(freq, OpFreqs(ops), BL_CODES);
  }

  lemma {:induction false} Occurs(ops: seq<LenOp>, i: nat)
    requires i < |ops|
    ensures OpCount(ops, ops[i].sym) > 0
    decreases |ops|
  {
    if i > 0 {
      Occurs(ops[1..], i - 1);
    }
  }

  lemma OccursSendable(bl: seq<nat>, ops: seq<LenOp>)
    requires |bl| == BL_CODES && AllOk(ops)
    requires forall s | 0 <= s < BL_CODES && OpCount(ops, s) != 0 :: bl[s] > 0
    ensures Sendable(bl, ops)
  {
    hide OpCount, Pow2, ExtraBlBits;
    forall i | 0 <= i < |ops|
      ensures ops[i].sym < BL_CODES && bl[ops[i].sym] > 0
    {
      assert OpOk(ops[i]);
      Occurs(ops, i);
    }
  }

  lemma StaticSized(st: ST.StaticTrees)
    requires st.Valid()
    ensures L_CODES <= |st.lDl| && |st.dDl| == D_CODES
  {
    hide HasCode, FixedLitLens;
  }

  lemma FreqsReady(tb: CodeTables, ts: seq<Token>, lf: seq<nat>, df: seq<nat>)
    requires tb.Valid() && TokensOk(ts) && |ts| < 0xfffd
    requires |lf| >= L_CODES && |df| >= D_CODES && lf[..L_CODES] == LitFreqs(tb, ts)
             && df[..D_CODES] == DistFreqs(tb, ts)
    ensures Total(lf, L_CODES) < 0xfffe && Total(df, D_CODES) < 0xfffe
  {
    hide CodeTables.Valid, LitFreqs, DistFreqs, Total;
    LitTotal(tb, ts);
    DistTotal(tb, ts);
    Whole(LitFreqs(tb, ts), L_CODES);
    Whole(DistFreqs(tb, ts), D_CODES);
    TotalSame(lf, LitFreqs(tb, ts), L_CODES);
    TotalSame(df, DistFreqs(tb, ts), D_CODES);
  }

  /** The bit length table with the symbols after the last used one, which have no code. */
  lemma BlCodes(freq: seq<nat>, fc: seq<nat>, dl: seq<nat>, maxCode: nat)
    requires Built(freq, fc, dl, BL_CODES, maxCode, 7)
    ensures Decodable(dl[..BL_CODES]) && Codes(dl[..BL_CODES], fc, dl) && forall s | 0 <= s < BL_CODES :: dl[s] < 8
  {
    hide KraftTo, Pow2, CodeBits, BitsOf;
    var short, bl := dl[..maxCode + 1], dl[..BL_CODES];
    assert bl == short + Repeat(0, BL_CODES - 1 - maxCode);
    PadKraft(short, BL_CODES - 1 - maxCode, MAX_BITS, MAX_BITS);
    forall s | 0 <= s < BL_CODES
      ensures HasCode(bl, s, fc[s])
    {
      if s <= maxCode {
        assert HasCode(short, s, fc[s]);
        PadCodes(short, BL_CODES - 1 - maxCode, s);
      }
    }
  }

  /** Every symbol needed for the two tables has a code. */
  lemma BlSendable(freq: seq<nat>, fc: seq<nat>, dl: seq<nat>, maxCode: nat, ll: seq<nat>, dd: seq<nat>)
    requires Built(freq, fc, dl, BL_CODES, maxCode, 7) && freq[..BL_CODES] == OpFreqs(AllOps(ll) + AllOps(dd))
    requires (forall i | 0 <= i < |ll| :: ll[i] <= MAX_BITS) && (forall i | 0 <= i < |dd| :: dd[i] <= MAX_BITS)
    ensures Sendable(dl[..BL_CODES], AllOps(ll)) && Sendable(dl[..BL_CODES], AllOps(dd))
  {
    hide KraftTo, Pow2, HasCode, AllOps, Sendable, OpCount, AllOk;
    var bl, ops := dl[..BL_CODES], AllOps(ll) + AllOps(dd);
    forall s: nat | s < BL_CODES
      ensures OpCount(AllOps(ll), s) + OpCount(AllOps(dd), s) != 0 ==> bl[s] > 0
    {
      assert freq[s] == freq[..BL_CODES][s];
      OpCountConcat(AllOps(ll), AllOps(dd), s);
    }
    OpsFew(ll);
    OpsFew(dd);
    OccursSendable(bl, AllOps(ll));
    OccursSendable(bl, AllOps(dd));
  }

  /** Some length is sent as itself, so at least four entries of bl_order are sent. */
  lemma SomeLiteral(bl: seq<nat>, ll: seq<nat>)
    requires |ll| > END_BLOCK && ll[END_BLOCK] > 0 && (forall i | 0 <= i < |ll| :: ll[i] <= MAX_BITS)
             && Sendable(bl, AllOps(ll))
    ensures exists s | 0 <= s < 16 :: s < |bl| && bl[s] != 0
  {
    SentOnce(ll, 0, -1, 0, END_BLOCK);
    var p :| 0 <= p < |AllOps(ll)| && AllOps(ll)[p] == LenOp(ll[END_BLOCK], 0);
    assert bl[AllOps(ll)[p].sym] > 0;
  }

  lemma BlBuilt(freq: seq<nat>, fc: seq<nat>, dl: seq<nat>, maxCode: nat, ll: seq<nat>, dd: seq<nat>)
    requires Built(freq, fc, dl, BL_CODES, maxCode, 7) && freq[..BL_CODES] == OpFreqs(AllOps(ll) + AllOps(dd))
    requires (forall i | 0 <= i < |ll| :: ll[i] <= MAX_BITS) && (forall i | 0 <= i < |dd| :: dd[i] <= MAX_BITS)
    requires |ll| > END_BLOCK && ll[END_BLOCK] > 0
    ensures BL_CODES <= |dl|
    ensures Decodable(dl[..BL_CODES]) && Codes(dl[..BL_CODES], fc, dl) && forall s | 0 <= s < BL_CODES :: dl[s] < 8
    ensures Sendable(dl[..BL_CODES], AllOps(ll)) && Sendable(dl[..BL_CODES], AllOps(dd))
    ensures exists s | 0 <= s < 16 :: dl[s] != 0
  {
    hide KraftTo, Pow2, HasCode, AllOps, Sendable, OpFreqs;
    BlCodes(freq, fc, dl, maxCode);
    BlSendable(freq, fc, dl, maxCode, ll, dd);
    SomeLiteral(dl[..BL_CODES], ll);
    var s :| 0 <= s < 16 && s < BL_CODES && dl[..BL_CODES][s] != 0;
    assert dl[s] != 0;
  }

  lemma BlCoherent(ll: seq<nat>, dd: seq<nat>, bl: seq<nat>, n: nat, freq: seq<nat>, dl: seq<nat>)
    requires 257 <= |ll| <= L_CODES && 1 <= |dd| <= D_CODES && 4 <= n <= BL_CODES <= |dl| && bl == dl[..BL_CODES]
             && BL_CODES <= |freq|
    requires (forall i | 0 <= i < |ll| :: ll[i] <= MAX_BITS) && (forall i | 0 <= i < |dd| :: dd[i] <= MAX_BITS)
    requires (forall s | 0 <= s < BL_CODES :: dl[s] < 8)
             && (forall r | n <= r < BL_CODES :: BL_ORDER[r] < |dl| && dl[BL_ORDER[r]] == 0)
    requires Decodable(bl) && Sendable(bl, AllOps(ll)) && Sendable(bl, AllOps(dd))
    requires freq[..BL_CODES] == OpFreqs(AllOps(ll) + AllOps(dd))
    ensures Coherent(ll, dd, bl, n)
    ensures Cost(freq, dl, BL_EXTRA, BL_CODES) + 3 * n + 14 == |Header(ll, dd, bl, n)|
  {
    hide Decodable, Sendable, AllOps, OpFreqs, Cost, BL_EXTRA, LensBits, BL_ORDER, BlBits, Counts;
    OrderSize();
    var ops := AllOps(ll) + AllOps(dd);
    BothSendable(ll, dd, bl);
    OpsSize(bl, ops);
    Whole(OpFreqs(ops), BL_CODES);
    Whole(bl, BL_CODES);
    CostPrefix(freq, OpFreqs(ops), dl, bl, BL_EXTRA, BL_CODES);
  }
}
