/**
 flush_block: the choice between the three kinds of block, the block itself and
 the running count of compressed bits; ct_tally, which decides when a block ends.
 */
module FlushBlock {
  import opened Bits
  import opened Canonical
  import opened BitLengths
  import opened Lengths
  import opened RunLength
  import opened SendTree
  import opened Inflate
  import opened Tables
  import opened BlockCode
  import opened DynHeader
  import opened BlockChoice
  import opened Blocks
  import BT = BuildTree
  import opened DynTrees
  import ST = StaticTrees
  import TB = TokenBuffer
  import CB = CompressBlock
  import BW = BitWriter

  const U32: nat := 0x1_0000_0000

  // ----- the count of compressed bits -----

  /** compressed_len is the number of bits written since start, as a 32-bit number. */
  ghost predicate Tracks(len: nat, stream: seq<bool>, start: nat)
  {
    start <= |stream| && start % 8 == 0 && len == (|stream| - start) % U32
  }

  lemma ModSum(a: nat, b: nat)
    ensures (a % U32 + b) % U32 == (a + b) % U32
  {}

  lemma TracksTrees(len: nat, stream: seq<bool>, start: nat, after: seq<bool>, n: nat)
    requires Tracks(len, stream, start) && |after| == |stream| + n
    ensures Tracks((len + n) % U32, after, start)
  {
    ModSum(|stream| - start, n);
  }

  lemma RoundUpMod(n: nat)
    ensures RoundUp(n) % U32 == RoundUp(n % U32) % U32
  {
    var q, r := n / U32, n % U32;
    assert n == q * U32 + r;
    assert RoundUp(n) == q * U32 + RoundUp(r);
    Multiple(q, RoundUp(r));
  }

  lemma Multiple(q: nat, r: nat)
    ensures (q * U32 + r) % U32 == r % U32
  {}

  lemma TracksStored(len: nat, stream: seq<bool>, start: nat, after: seq<bool>, storedLen: nat)
    requires Tracks(len, stream, start) && |after| == RoundUp(|stream| + 3) + 32 + 8 * storedLen
    ensures Tracks((RoundUp((len + 3) % U32) % U32 + 8 * (storedLen + 4)) % U32, after, start)
  {
    hide RoundUp;
    var n := |stream| - start;
    ModSum(n, 3);
    RoundUpMod(n + 3);
    ModSum(RoundUp(n + 3), 8 * (storedLen + 4));
    RoundUpShift(|stream| + 3, start);
  }

  lemma RoundUpShift(n: nat, start: nat)
    requires start <= n && start % 8 == 0
    ensures RoundUp(n) == RoundUp(n - start) + start
  {}

  /** The value flush_block returns at the end of the input: the number of bytes. */
  lemma TracksEnd(len: nat, stream: seq<bool>, start: nat, after: seq<bool>)
    requires Tracks(len, stream, start) && |after| == RoundUp(|stream|)
    ensures (len + 7) % U32 / 8 == (|after| - start) / 8 % 0x2000_0000
  {
    hide RoundUp;
    var n := |stream| - start;
    ModSum(n, 7);
    RoundUpShift(|stream|, start);
    Eighth(n + 7);
    RoundUpEighth(n);
  }

  lemma Eighth(n: nat)
    ensures n % U32 / 8 == n / 8 % 0x2000_0000
  {}

  lemma RoundUpEighth(n: nat)
    ensures RoundUp(n) / 8 == (n + 7) / 8
  {}

  lemma RoundUpMore(n: nat)
    ensures n <= RoundUp(n)
  {}

  lemma AlignLength(s: seq<bool>)
    ensures |BW.Align(s)| == RoundUp(|s|)
  {}

  // ----- the choice -----

  /** The dynamic codes of a block. */
  datatype Plan = Plan(ll: seq<nat>, dd: seq<nat>, bl: seq<nat>, n: nat)

  ghost predicate PlanOk(p: Plan, tb: CodeTables, ts: seq<Token>)
  {
    Coherent(p.ll, p.dd, p.bl, p.n) && Decodable(p.ll) && Decodable(p.dd) && CanEncode(tb, p.ll, p.dd, ts)
  }

  ghost function DynamicBits(p: Plan, tb: CodeTables, ts: seq<Token>): seq<bool>
    requires PlanOk(p, tb, ts)
  {
    Header(p.ll, p.dd, p.bl, p.n) + EncodeBody(tb, p.ll, p.dd, ts)
  }

  /** The lengths of a code, up to the last symbol that has one. */
  ghost predicate LastUsed(lens: seq<nat>)
  {
    lens != [] && lens[|lens| - 1] != 0 && forall i | 0 <= i < |lens| :: lens[i] <= MAX_BITS
  }

  /** The codes are the ones that build_tree makes for the tokens, and for the lengths of those. */
  ghost predicate PlanBuilt(p: Plan, tb: CodeTables, ts: seq<Token>)
  {
    && tb.Valid() && TokensOk(ts) && LastUsed(p.ll) && LastUsed(p.dd)
    && BT.TreeOf(LitFreqs(tb, ts), p.ll, LIT_EXTRA, L_CODES, MAX_BITS)
    && BT.TreeOf(DistFreqs(tb, ts), p.dd, DST_EXTRA, D_CODES, MAX_BITS)
    && BT.TreeOf(OpFreqs(AllOps(p.ll) + AllOps(p.dd)), p.bl, BL_EXTRA, BL_CODES, 7) && LastSent(p.bl, p.n)
  }

  /** The sizes flush_block compares. */
  ghost function SizesOf(p: Plan, tb: CodeTables, ts: seq<Token>, hasBuf: bool, storedLen: nat): Sizes
    requires PlanOk(p, tb, ts) && CanEncode(tb, FixedLitLens(), FixedDistLens(), ts)
  {
    Sizes(hasBuf, storedLen, |EncodeBody(tb, FixedLitLens(), FixedDistLens(), ts)|, |DynamicBits(p, tb, ts)|)
  }

  /**
   The block ends where the chosen form ends.  No other form would have ended in
   an earlier byte, exactly if the choice is fair, and never more than two bytes
   earlier.
   */
  ghost predicate WellChosen(before: nat, after: nat, s: Sizes)
  {
    && after == EndOf(Chosen(s), before, s) && (Shortest(before, s) <==> Fair(before, s))
    && forall f | Available(f, s) :: EndBytes(Chosen(s), before, s) <= EndBytes(f, before, s) + Loss(Chosen(s))
  }

  lemma ChosenWell(before: nat, s: Sizes)
    ensures WellChosen(before, EndOf(Chosen(s), before, s), s)
  {
    hide EndBytes, Chosen, Loss, Fair, Shortest, EndOf;
    ShortestIff(before, s);
    forall f | Available(f, s)
      ensures EndBytes(Chosen(s), before, s) <= EndBytes(f, before, s) + Loss(Chosen(s))
    {
      AtMostLoss(before, s, f);
    }
  }

  class Coder {
    const w: BW.BitWriter
    const t: Trees
    const b: TB.TokenBuffer
    const tb: CodeTables
    const st: ST.StaticTrees
    var compressedLen: nat

    ghost function Output(): set<object>
    {
      {w, w.outbuf}
    }

    ghost function Repr(): set<object>
    {
      {this} + Output() + t.Repr() + b.Repr()
    }

    ghost predicate Apart()
    {
      && Output() !! t.Repr() && Output() !! b.Repr() && t.Repr() !! b.Repr()
      && this !in Output() && this !in t.Repr() && this !in b.Repr()
    }

    ghost predicate Ready()
    {
      Apart() && tb.Valid() && st.Valid() && t.Shape() && b.Shape() && b.litSize <= 0x8000
    }

    ghost predicate Valid()
      reads Repr()
    {
      Ready() && w.Valid() && b.Valid() && t.Counts(tb, b.tokens) && |b.tokens| < b.litSize
    }

    /** The lengths of the plan are those in the trees. */
    ghost predicate InTrees(p: Plan)
      reads t.lDl, t.dDl, t.blDl
    {
      p.ll <= t.lDl[..] && p.dd <= t.dDl[..] && p.bl <= t.blDl[..] && |p.bl| == BL_CODES
    }

    /** ct_init and the first init_block. */
    constructor (w: BW.BitWriter, litSize: nat, litAlloc: nat, distSize: nat)
      requires w.Valid() && 8 <= litSize <= litAlloc && litSize % 8 == 0 && litSize <= 0x8000
      ensures Valid() && this.w == w && fresh(Repr() - {w, w.outbuf}) && b.tokens == [] && compressedLen == 0
      ensures b.litSize == litSize && b.dBuf.Length == distSize
    {
      hide CodeTables.Valid, ST.StaticTrees.Valid, TB.TokenBuffer.Valid, BW.BitWriter.Valid, Trees.Counts;
      this.w := w;
      var tables := InitTables();
      tb := tables;
      var fixed := ST.InitStatic();
      st := fixed;
      t := new Trees();
      b := new TB.TokenBuffer(litSize, litAlloc, distSize);
      compressedLen := 0;
      new;
      InitBlock();
    }

    /** The trees of the block, and its size with them and with the fixed codes. */
    method Prepare() returns (lMax: nat, dMax: nat, maxBlIndex: nat, opt: int, stat: int, ghost p: Plan)
      requires Valid()
      modifies t.Repr(), b.flagBuf
      ensures PlanOk(p, tb, b.tokens) && PlanBuilt(p, tb, b.tokens) && opt == |DynamicBits(p, tb, b.tokens)|
      ensures CanEncode(tb, FixedLitLens(), FixedDistLens(), b.tokens)
              && stat == |EncodeBody(tb, FixedLitLens(), FixedDistLens(), b.tokens)|
      ensures |p.ll| == lMax + 1 && |p.dd| == dMax + 1 && p.n == maxBlIndex + 1
      ensures TB.CodesTo(p.ll, L_CODES, t.lFc[..], t.lDl[..]) && TB.CodesTo(p.dd, D_CODES, t.dFc[..], t.dDl[..])
      ensures Guarded(t.lDl[..], p.ll) && Guarded(t.dDl[..], p.dd)
      ensures p.bl == t.blDl[..BL_CODES] && Codes(p.bl, t.blFc[..], t.blDl[..])
      ensures TB.FlagsDone(TB.MatchBits(b.tokens), b.flagBuf[..]) && TB.Stored(b.tokens, b.lBuf[..], b.dBuf[..])
    {
      hide CodeTables.Valid, ST.StaticTrees.Valid, TB.Stored, TB.FlagState, TB.FlagsDone, TB.CodesTo,
           BW.BitWriter.Valid, LitFreqs, DistFreqs, CanEncode,
           EncodeBody, Header, Coherent, Decodable, Guarded, Codes, FixedLitLens, Covers, TB.MatchBits, TB.Dists,
               TokenOk,
           BT.TreeOf, LastSent, OpFreqs, AllOps;
      b.SaveFlags();
      ghost var ts := b.tokens;
      lMax, dMax, opt, stat := t.BuildCodes(st, tb, ts);
      ghost var ll, dd := t.lDl[..lMax + 1], t.dDl[..dMax + 1];
      EndHasCode(tb, ll, dd, ts);
      LensBounded(LitFreqs(tb, ts), t.lFc[..], t.lDl[..], L_CODES, lMax, ll);
      LensBounded(DistFreqs(tb, ts), t.dFc[..], t.dDl[..], D_CODES, dMax, dd);
      ghost var lDl, dDl := t.lDl[..], t.dDl[..];
      var o;
      ghost var bl;
      maxBlIndex, o, bl := t.BuildBl(lMax, dMax, ll, dd);
      KeepCodes(ll, L_CODES, t.lFc[..], lDl, t.lDl[..]);
      KeepCodes(dd, D_CODES, t.dFc[..], dDl, t.dDl[..]);
      opt := opt + o;
      p := Plan(ll, dd, bl, maxBlIndex + 1);
    }

    method SendType(kind: nat, eof: bool)
      requires w.Valid() && kind < 3
      modifies Output()
      ensures w.Valid() && w.Stream() == old(w.Stream()) + TypeBits(kind, eof)
    {
      hide BitsOf, Pow2, BW.BitWriter.Valid, BW.BitWriter.Stream;
      Pow2Values();
      w.SendBits(2 * kind + (if eof then 1 else 0), 3);
    }

    method WriteStored(buf: array<byte>, from: nat, storedLen: nat, eof: bool, ghost start: nat)
      requires Apart() && w.Valid() && buf !in Repr() && from + storedLen <= buf.Length && storedLen < 0x10000
      requires Tracks(compressedLen, w.Stream(), start)
      modifies Output(), this
      ensures w.Valid() && w.Stream() == BW.Align(old(w.Stream()) + TypeBits(STORED_BLOCK, eof))
              + StoredField(buf[from..from + storedLen])
      ensures Tracks(compressedLen, w.Stream(), start)
              && |w.Stream()| == RoundUp(|old(w.Stream())| + 3) + 32 + 8 * storedLen
      ensures old(w.Stream()) <= w.Stream()
    {
      hide BitsOf, BW.BitWriter.Valid, BW.BitWriter.Stream, BytesBits, TypeBits, RoundUp, Tracks;
      ghost var s, data := w.Stream(), buf[from..from + storedLen];
      SendType(STORED_BLOCK, eof);
      compressedLen := RoundUp((compressedLen + 3) % U32) % U32;
      compressedLen := (compressedLen + 8 * (storedLen + 4)) % U32;
      w.CopyBlock(buf, from, storedLen);
      TypeSplit(STORED_BLOCK, eof);
      AlignLength(s + TypeBits(STORED_BLOCK, eof));
      StoredSize(data);
      TracksStored(old(compressedLen), s, start, w.Stream(), storedLen);
    }

    method WriteStatic(eof: bool, stat: nat, ghost start: nat)
      requires Ready() && w.Valid() && Tracks(compressedLen, w.Stream(), start)
      requires CanEncode(tb, FixedLitLens(), FixedDistLens(), b.tokens)
               && stat == |EncodeBody(tb, FixedLitLens(), FixedDistLens(), b.tokens)|
      requires b.lastLit == |b.tokens| && TB.FlagsDone(TB.MatchBits(b.tokens), b.flagBuf[..])
               && TB.Stored(b.tokens, b.lBuf[..], b.dBuf[..])
      modifies Output(), this
      ensures w.Valid()
      ensures w.Stream() == old(w.Stream()) + TypeBits(STATIC_TREES, eof)
              + EncodeBody(tb, FixedLitLens(), FixedDistLens(), b.tokens)
      ensures Tracks(compressedLen, w.Stream(), start) && |w.Stream()| == |old(w.Stream())| + 3 + stat
    {
      hide BitsOf, BW.BitWriter.Valid, BW.BitWriter.Stream, TypeBits, Tracks, CodeTables.Valid, ST.StaticTrees.Valid,
           CanEncode, EncodeBody, FixedLitLens, FixedDistLens,
           TB.Stored, TB.FlagsDone, TB.CodesTo, TB.MatchBits;
      ghost var s := w.Stream();
      SendType(STATIC_TREES, eof);
      StaticCodes(st);
      CB.CompressBlock(b, w, tb, st.lFc, st.lDl, st.dFc, st.dDl, FixedLitLens(), FixedDistLens());
      compressedLen := (compressedLen + 3 + stat) % U32;
      TypeSplit(STATIC_TREES, eof);
      TracksTrees(old(compressedLen), s, start, w.Stream(), 3 + stat);
    }

    method WriteDynamic(eof: bool, lMax: nat, dMax: nat, maxBlIndex: nat, opt: nat, ghost p: Plan, ghost start: nat)
      requires Ready() && w.Valid() && Tracks(compressedLen, w.Stream(), start)
      requires PlanOk(p, tb, b.tokens) && opt == |DynamicBits(p, tb, b.tokens)|
      requires |p.ll| == lMax + 1 && |p.dd| == dMax + 1 && p.n == maxBlIndex + 1
      requires TB.CodesTo(p.ll, L_CODES, t.lFc[..], t.lDl[..]) && TB.CodesTo(p.dd, D_CODES, t.dFc[..], t.dDl[..])
      requires Guarded(t.lDl[..], p.ll) && Guarded(t.dDl[..], p.dd)
      requires p.bl == t.blDl[..BL_CODES] && Codes(p.bl, t.blFc[..], t.blDl[..])
      requires b.lastLit == |b.tokens| && TB.FlagsDone(TB.MatchBits(b.tokens), b.flagBuf[..])
               && TB.Stored(b.tokens, b.lBuf[..], b.dBuf[..])
      modifies Output(), this
      ensures w.Valid() && w.Stream() == old(w.Stream()) + TypeBits(DYN_TREES, eof) + DynamicBits(p, tb, b.tokens)
      ensures Tracks(compressedLen, w.Stream(), start) && |w.Stream()| == |old(w.Stream())| + 3 + opt
    {
      hide BitsOf, BW.BitWriter.Valid, BW.BitWriter.Stream, TypeBits, Tracks, CodeTables.Valid, ST.StaticTrees.Valid,
           CanEncode, EncodeBody, Header, Coherent, Decodable,
           TB.Stored, TB.FlagsDone, TB.CodesTo, TB.MatchBits, Guarded, Codes;
      ghost var s := w.Stream();
      SendType(DYN_TREES, eof);
      t.SendAllTrees(w, lMax + 1, dMax + 1, maxBlIndex + 1, p.ll, p.dd, p.bl);
      CB.CompressBlock(b, w, tb, t.lFc[..], t.lDl[..], t.dFc[..], t.dDl[..], p.ll, p.dd);
      compressedLen := (compressedLen + 3 + opt) % U32;
      TypeSplit(DYN_TREES, eof);
      TracksTrees(old(compressedLen), s, start, w.Stream(), 3 + opt);
    }

    /** The encoding of the block: the choice of flush_block and its output. */
    method WriteBlock(buf: array<byte>, hasBuf: bool, from: nat, storedLen: nat, eof: bool, ghost start: nat,
                      ghost out: seq<byte>, ghost res: seq<byte>)
      returns (ghost p: Plan)
      requires Valid() && Tracks(compressedLen, w.Stream(), start) && buf !in Repr()
      requires ExpandTokens(out, b.tokens) == Some(res) && |out| + storedLen == |res|
      requires hasBuf ==>
                 storedLen < 0x10000 && from + storedLen <= buf.Length && out + buf[from..from + storedLen] == res
      modifies Output(), this, t.Repr(), b.flagBuf
      ensures w.Valid() && Tracks(compressedLen, w.Stream(), start)
      ensures old(w.Stream()) <= w.Stream() && Block(old(w.Stream()), w.Stream(), eof, out, res)
      ensures PlanOk(p, tb, b.tokens) && PlanBuilt(p, tb, b.tokens) && InTrees(p)
      ensures CanEncode(tb, FixedLitLens(), FixedDistLens(), b.tokens)
      ensures WellChosen(|old(w.Stream())|, |w.Stream()|, SizesOf(p, tb, b.tokens, hasBuf, storedLen))
    {
      hide PlanBuilt, WellChosen, BW.BitWriter.Valid, BW.BitWriter.Stream, TypeBits, Tracks, CodeTables.Valid,
           ST.StaticTrees.Valid, CanEncode, EncodeBody, Header, Coherent, Decodable,
           TB.Stored, TB.FlagsDone, TB.FlagState, TB.CodesTo, TB.MatchBits, Guarded, Codes, Block, StoredField,
               FixedLitLens, FixedDistLens, ExpandTokens, RoundUp,
           LitFreqs, DistFreqs, BW.Align;
      var lMax, dMax, maxBlIndex, opt, stat;
      ghost var s := w.Stream();
      lMax, dMax, maxBlIndex, opt, stat, p := Prepare();
      PlanHeld(t.lDl[..], t.dDl[..], p);
      ChosenWell(|s|, Sizes(hasBuf, storedLen, stat, opt));
      var optLenb, staticLenb := (opt + 3 + 7) / 8, (stat + 3 + 7) / 8;
      if staticLenb <= optLenb {
        optLenb := staticLenb;
      }
      if storedLen + 4 <= optLenb && hasBuf {
        StoredBlock(s, eof, buf[from..from + storedLen], out);
        WriteStored(buf, from, storedLen, eof, start);
      } else if staticLenb == optLenb {
        StaticBlock(s, eof, tb, b.tokens, out, res);
        WriteStatic(eof, stat, start);
      } else {
        DynamicBlock(s, eof, tb, p.ll, p.dd, p.bl, p.n, b.tokens, out, res);
        WriteDynamic(eof, lMax, dMax, maxBlIndex, opt, p, start);
      }
    }

    /**
     flush_block: the tokens collected so far become one block.  The result is
     the number of bytes written since start, of which 29 bits are kept.
     */
    method FlushBlock(buf: array<byte>, hasBuf: bool, from: nat, storedLen: nat, eof: bool, ghost start: nat,
                      ghost out: seq<byte>, ghost res: seq<byte>)
      returns (total: nat, ghost after: seq<bool>, ghost p: Plan)
      requires Valid() && Tracks(compressedLen, w.Stream(), start) && buf !in Repr()
      requires ExpandTokens(out, b.tokens) == Some(res) && |out| + storedLen == |res|
      requires hasBuf ==>
                 storedLen < 0x10000 && from + storedLen <= buf.Length && out + buf[from..from + storedLen] == res
      modifies Repr()
      ensures Valid() && b.tokens == []
      ensures old(w.Stream()) <= after && Block(old(w.Stream()), after, eof, out, res)
      ensures w.Stream() == (if eof then BW.Align(after) else after) && (eof ==> w.biValid == 0)
      ensures !eof ==> Tracks(compressedLen, w.Stream(), start)
      ensures start <= |w.Stream()| && total == (|w.Stream()| - start) / 8 % 0x2000_0000
      ensures PlanOk(p, tb, old(b.tokens)) && PlanBuilt(p, tb, old(b.tokens)) && InTrees(p)
      ensures CanEncode(tb, FixedLitLens(), FixedDistLens(), old(b.tokens))
      ensures WellChosen(|old(w.Stream())|, |after|, SizesOf(p, tb, old(b.tokens), hasBuf, storedLen))
    {
      hide BW.BitWriter.Valid, BW.BitWriter.Stream, CodeTables.Valid, ST.StaticTrees.Valid, CanEncode, EncodeBody,
           PlanOk, PlanBuilt, DynamicBits, WellChosen,
           TB.Stored, TB.FlagState, TB.MatchBits, Block, FixedLitLens, FixedDistLens, ExpandTokens, RoundUp, LitFreqs,
               DistFreqs, BW.Align, BytesBits,
           Tracks;
      p := WriteBlock(buf, hasBuf, from, storedLen, eof, start, out, res);
      after := w.Stream();
      InitBlock();
      total := Finish(eof, start);
    }

    /** init_block */
    method InitBlock()
      requires Ready()
      modifies t.lFc, t.dFc, t.blFc, b
      ensures t.Counts(tb, b.tokens) && b.Valid() && b.tokens == []
    {
      hide CodeTables.Valid, ST.StaticTrees.Valid, TB.Stored, TB.FlagState, TB.MatchBits, LitFreqs, DistFreqs;
      t.Clear(tb);
      b.Clear();
    }

    /** The end of flush_block. */
    method Finish(eof: bool, ghost start: nat) returns (total: nat)
      requires Apart() && w.Valid() && Tracks(compressedLen, w.Stream(), start)
      modifies Output(), this
      ensures w.Valid() && w.Stream() == (if eof then BW.Align(old(w.Stream())) else old(w.Stream()))
              && (eof ==> w.biValid == 0)
      ensures !eof ==> Tracks(compressedLen, w.Stream(), start)
      ensures start <= |w.Stream()| && total == (|w.Stream()| - start) / 8 % 0x2000_0000
    {
      hide BW.BitWriter.Valid, BW.BitWriter.Stream, RoundUp, BW.Align, BytesBits;
      ghost var after := w.Stream();
      Eighth(|after| - start);
      AlignLength(after);
      TracksEnd(compressedLen, after, start, BW.Align(after));
      RoundUpMore(|after|);
      if eof {
        w.BiWindup();
        compressedLen := (compressedLen + 7) % U32;
      }
      total := compressedLen / 8;
    }

    /** There is room for one more token. */
    ghost predicate Room()
      reads b
    {
      |b.tokens| + 1 < b.litSize && TokensOk(b.tokens) && |TB.Dists(b.tokens)| < b.dBuf.Length
    }

    /** The upper bound of the compressed size that ct_tally computes, in bits. */
    method Guess() returns (out: nat)
      requires Valid()
      ensures out == 8 * |b.tokens| + Cost(DistFreqs(tb, b.tokens), FixedDistLens(), DST_EXTRA, D_CODES)
    {
      hide CodeTables.Valid, ST.StaticTrees.Valid, TB.Stored, TB.FlagState, BW.BitWriter.Valid, LitFreqs, DistFreqs,
           Extra.At;
      out := b.lastLit * 8;
      var dcode := 0;
      while dcode < D_CODES
        invariant 0 <= dcode <= D_CODES
        invariant out == 8 * |b.tokens| + Cost(DistFreqs(tb, b.tokens), FixedDistLens(), DST_EXTRA, dcode)
      {
        assert t.dFc[dcode] == t.dFc[..D_CODES][dcode];
        out := out + t.dFc[dcode] * (5 + DST_EXTRA.At(dcode));
        dcode := dcode + 1;
      }
    }

    /** ct_tally: save a literal or a reference and say whether the block should end here. */
    method CtTally(dist: nat, lc: byte, inLength: nat) returns (flush: bool)
      requires Valid() && Room() && dist <= 0x8000
      modifies t.Repr(), b.Repr()
      ensures Valid() && b.tokens == old(b.tokens) + [TB.TokenOf(dist, lc)]
      ensures w.Stream() == old(w.Stream()) && compressedLen == old(compressedLen)
      ensures !flush ==> Room()
      ensures flush <==> ShouldFlush(tb, b.tokens, inLength, b.litSize, b.dBuf.Length)
    {
      hide CodeTables.Valid, ST.StaticTrees.Valid, TB.Stored, TB.FlagState, BW.BitWriter.Valid, LitFreqs, DistFreqs,
           Cost, FixedDistLens, TB.Dists, TB.TokenOf, TokenOk,
           TB.MatchBits;
      t.Tally(tb, dist, lc, b.tokens);
      b.Save(dist, lc);
      DistsGrow(old(b.tokens), TB.TokenOf(dist, lc));
      if b.lastLit % 0x1000 == 0 {
        var out := Guess();
        if b.lastDist < b.lastLit / 2 && out / 8 < inLength / 2 {
          return true;
        }
      }
      return b.lastLit == b.litSize - 1 || b.lastDist == b.dBuf.Length;
    }
  }

  /**
   When ct_tally ends the block: it is full, or every 4096 tokens when the
   block has become less than half its size.
   */
  ghost predicate ShouldFlush(tb: CodeTables, ts: seq<Token>, inLength: nat, litSize: nat, distSize: nat)
    requires tb.Valid() && TokensOk(ts)
  {
    || |ts| == litSize - 1 || |TB.Dists(ts)| == distSize
    || (|ts| % 0x1000 == 0 && |TB.Dists(ts)| < |ts| / 2
        && (8 * |ts| + Cost(DistFreqs(tb, ts), FixedDistLens(), DST_EXTRA, D_CODES)) / 8 < inLength / 2)
  }

  lemma DistsGrow(ts: seq<Token>, t: Token)
    requires TokensOk(ts) && TokensOk(ts + [t])
    ensures |TB.Dists(ts + [t])| <= |TB.Dists(ts)| + 1
  {
    assert (ts + [t])[|ts|] == t;
    TB.DistsAppend(ts, t);
  }

  lemma StaticCodes(st: ST.StaticTrees)
    requires st.Valid()
    ensures TB.CodesTo(FixedLitLens(), L_CODES, st.lFc, st.lDl) && TB.CodesTo(FixedDistLens(), D_CODES, st.dFc, st.dDl)
  {
    hide HasCode, FixedLitLens;
    ST.FixedLens();
  }

  lemma PlanHeld(lDl: seq<nat>, dDl: seq<nat>, p: Plan)
    requires Guarded(lDl, p.ll) && Guarded(dDl, p.dd)
    ensures p.ll <= lDl && p.dd <= dDl
  {}

  lemma EndHasCode(tb: CodeTables, ll: seq<nat>, dd: seq<nat>, ts: seq<Token>)
    requires CanEncode(tb, ll, dd, ts)
    ensures END_BLOCK < |ll| && ll[END_BLOCK] > 0
  {
    hide HasCodes;
  }

  lemma LensBounded(freq: seq<nat>, fc: seq<nat>, dl: seq<nat>, elems: nat, maxCode: nat, lens: seq<nat>)
    requires TreeDone(freq, fc, dl, elems, maxCode, MAX_BITS) && lens == dl[..maxCode + 1]
    ensures forall i | 0 <= i < |lens| :: lens[i] <= MAX_BITS
  {
    hide Decodable, TB.CodesTo, Covers;
  }

  /** The guard put after the lengths does not disturb the codes. */
  lemma KeepCodes(lens: seq<nat>, n: nat, fc: seq<nat>, dl: seq<nat>, guarded: seq<nat>)
    requires TB.CodesTo(lens, n, fc, dl) && Guarded(guarded, lens) && n <= |guarded|
    ensures TB.CodesTo(lens, n, fc, guarded)
  {
    hide HasCode;
    forall s | 0 <= s < |lens| && s < n
      ensures guarded[s] == lens[s]
    {
      assert guarded[s] == guarded[..|lens|][s];
    }
  }
}
