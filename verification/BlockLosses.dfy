/**
 Blocks for which flush_block does not take the shortest form: fifteen bytes that
 are stored although the fixed codes would need fewer bytes, and a block in the
 fixed codes that would be shorter with its own.
 */
module BlockLosses {
  import opened Bits
  import opened Canonical
  import opened BitLengths
  import opened Lengths
  import opened BuildTree
  import opened RunLength
  import opened SendTree
  import opened Inflate
  import opened Tables
  import opened BlockCode
  import opened DynHeader
  import opened DynTrees
  import opened BlockChoice
  import opened FlushBlock
  import opened SizeBounds
  import ST = StaticTrees
  import TB = TokenBuffer
  import BW = BitWriter
  import Deflate

  ghost predicate Literals(ts: seq<Token>)
  {
    forall i | 0 <= i < |ts| :: ts[i].Literal?
  }

  /** The symbols that occur are the literals and the end of the block. */
  lemma {:induction false} LiteralsCounted(tb: CodeTables, ts: seq<Token>, x: nat)
    requires tb.Valid() && Literals(ts) && x < L_CODES
    ensures TokensOk(ts) && (LitFreqs(tb, ts)[x] != 0 <==> x == END_BLOCK || (x < END_BLOCK && Literal(x) in ts))
    decreases |ts|
  {
    hide CodeTables.Valid;
    if ts != [] {
      var front, t := ts[..|ts| - 1], ts[|ts| - 1];
      LiteralsCounted(tb, front, x);
      assert ts == front + [t];
    }
  }

  lemma {:induction false} NoDistances(tb: CodeTables, ts: seq<Token>)
    requires tb.Valid() && Literals(ts)
    ensures TokensOk(ts) && DistFreqs(tb, ts) == Zeros(D_CODES)
    decreases |ts|
  {
    hide CodeTables.Valid;
    if ts != [] {
      NoDistances(tb, ts[..|ts| - 1]);
    }
  }

  lemma NoTokens(tb: CodeTables, ll: seq<nat>, dd: seq<nat>)
    requires CanEncode(tb, ll, dd, [])
    ensures |EncodeBody(tb, ll, dd, [])| == ll[END_BLOCK]
  {
    CodeSize(ll, END_BLOCK);
  }

  lemma OneTimesMore(k: nat, n: nat)
    requires n > 0
    ensures k * n == k * (n - 1) + k
  {}

  lemma LiteralSize(tb: CodeTables, ll: seq<nat>, dd: seq<nat>, b: byte)
    requires HasCodes(tb, ll, dd, Literal(b))
    ensures b < |ll| && |EncodeToken(tb, ll, dd, Literal(b))| == ll[b]
  {
    CodeSize(ll, b);
  }

  /** Literals that all have codes of k bits, and the end of the block. */
  lemma {:induction false} LiteralsSize(tb: CodeTables, ll: seq<nat>, dd: seq<nat>, ts: seq<Token>, k: nat)
    requires CanEncode(tb, ll, dd, ts) && Literals(ts) && forall i | 0 <= i < |ts| :: ts[i].b < |ll| && ll[ts[i].b] == k
    ensures END_BLOCK < |ll| && |EncodeBody(tb, ll, dd, ts)| == k * |ts| + ll[END_BLOCK]
    decreases |ts|
  {
    hide CodeTables.Valid, CanEncode, EncodeTokens, EncodeToken;
    EndHasCode(tb, ll, dd, ts);
    if ts == [] {
      NoTokens(tb, ll, dd);
    } else {
      HeadAndRest(tb, ll, dd, ts);
      LiteralsSize(tb, ll, dd, ts[1..], k);
      LiteralSize(tb, ll, dd, ts[0].b);
      OneTimesMore(k, |ts|);
    }
  }

  // ----- a stored block that is too long -----

  /** Bytes with nine bits in the fixed code, seven apart. */
  function Spread(n: nat): (ts: seq<Token>)
    requires n <= 15
    ensures |ts| == n && forall i | 0 <= i < n :: ts[i] == Literal(144 + 7 * i)
  {
    seq(n, i requires 0 <= i < n => Literal(144 + 7 * i))
  }

  /** What the lengths of a code for these bytes look like. */
  ghost predicate SpreadLens(ll: seq<nat>)
  {
    && END_BLOCK < |ll| && ll[END_BLOCK] != 0 && (forall x | 0 <= x < |ll| :: ll[x] <= MAX_BITS)
    && (forall x | 0 <= x < END_BLOCK :: ll[x] != 0 <==> 144 <= x <= 242 && (x - 144) % 7 == 0)
  }

  lemma SpreadOccurs(x: nat)
    requires x < END_BLOCK
    ensures Literal(x) in Spread(15) <==> 144 <= x <= 242 && (x - 144) % 7 == 0
  {
    if 144 <= x <= 242 && (x - 144) % 7 == 0 {
      assert Spread(15)[(x - 144) / 7] == Literal(x);
    }
  }

  lemma SpreadPlan(p: Plan, tb: CodeTables)
    requires PlanOk(p, tb, Spread(15)) && PlanBuilt(p, tb, Spread(15))
    ensures SpreadLens(p.ll)
  {
    hide TreeOf, ForcedFor, LitFreqs, CodeTables.Valid, Decodable, Spread;
    var ts := Spread(15);
    var freq := LitFreqs(tb, ts);
    LiteralsCounted(tb, ts, 144);
    SpreadOccurs(144);
    LiteralsCounted(tb, ts, END_BLOCK);
    NoForced(freq, L_CODES, 144, END_BLOCK);
    TreeSupport(freq, p.ll, LIT_EXTRA, L_CODES, MAX_BITS);
    forall x: nat | x < END_BLOCK
      ensures p.ll[x] != 0 <==> 144 <= x <= 242 && (x - 144) % 7 == 0
    {
      LiteralsCounted(tb, ts, x);
      SpreadOccurs(x);
    }
  }

  lemma {:induction false} SpreadParts(ll: seq<nat>, i: nat)
    requires SpreadLens(ll) && i < 15
    ensures Parts(ll[..144 + 7 * i + 1]) == 5 + 5 * i
  {
    hide Parts;
    if i == 0 {
      PartsStart(ll, 144);
    } else {
      SpreadParts(ll, i - 1);
      PartsGap(ll, 144 + 7 * (i - 1), 144 + 7 * i);
    }
  }

  /** The lengths need 80 bits. */
  lemma SpreadHeader(ll: seq<nat>)
    requires SpreadLens(ll)
    ensures Parts(ll) >= 80
  {
    hide Parts;
    SpreadParts(ll, 14);
    PartsGap(ll, 242, END_BLOCK);
    PartsPrefix(ll, END_BLOCK + 1);
  }

  /** The end of the lengths of the first i bytes. */
  function EndOfSpread(i: nat): nat
  {
    if i == 0 then 0 else 144 + 7 * (i - 1) + 1
  }

  lemma {:induction false} SpreadTokens(tb: CodeTables, ll: seq<nat>, dd: seq<nat>, i: nat)
    requires CanEncode(tb, ll, dd, Spread(15)) && SpreadLens(ll) && i <= 15
    ensures CanEncode(tb, ll, dd, Spread(i))
    ensures 2048 * |EncodeTokens(tb, ll, dd, Spread(i))| + Shares(ll[..EndOfSpread(i)]) >= 5 * 2048 * i
  {
    hide Shares, Share, CodeTables.Valid, EncodeTokens, EncodeToken;
    if i == 0 {
      assert Spread(0) == [];
    } else {
      var x := 144 + 7 * (i - 1);
      SpreadTokens(tb, ll, dd, i - 1);
      assert Spread(i) == Spread(i - 1) + [Literal(x)];
      assert Spread(15)[i - 1] == Literal(x);
      TokensAppend(tb, ll, dd, Spread(i - 1), Literal(x));
      LiteralSize(tb, ll, dd, x);
      ShareOrLength(ll[x]);
      SharesNext(ll, EndOfSpread(i - 1), x);
    }
  }

  lemma SpreadEnd(ll: seq<nat>)
    requires SpreadLens(ll)
    ensures END_BLOCK < |ll| && 1 <= ll[END_BLOCK] <= MAX_BITS
  {}

  /** The sixteen symbols need 64 bits. */
  lemma SpreadBody(tb: CodeTables, ll: seq<nat>, dd: seq<nat>)
    requires CanEncode(tb, ll, dd, Spread(15)) && SpreadLens(ll) && Decodable(ll)
    ensures |EncodeBody(tb, ll, dd, Spread(15))| >= 64
  {
    hide Shares, Share, CodeTables.Valid, EncodeTokens, CanEncode, Spread, SpreadLens, KraftTo, Pow2;
    assert END_BLOCK < |ll| && 1 <= ll[END_BLOCK] <= MAX_BITS by { SpreadEnd(ll); }
    SpreadTokens(tb, ll, dd, 15);
    CodeSize(ll, END_BLOCK);
    ShareOrLength(ll[END_BLOCK]);
    SharesNext(ll, EndOfSpread(15), END_BLOCK);
    SharesPrefix(ll, END_BLOCK + 1);
    KraftIsShares(ll);
    Pow2Values();
  }

  /** With its own codes the block needs 170 bits at least. */
  lemma SpreadDynamic(p: Plan, tb: CodeTables)
    requires PlanOk(p, tb, Spread(15)) && PlanBuilt(p, tb, Spread(15))
    ensures |DynamicBits(p, tb, Spread(15))| >= 170
  {
    hide Spread, CanEncode, EncodeBody, PlanBuilt, Decodable, SpreadLens, Parts, AllOps, Sendable, BL_ORDER;
    SpreadPlan(p, tb);
    SpreadHeader(p.ll);
    LensCost(p.bl, p.ll);
    SpreadBody(tb, p.ll, p.dd);
  }

  /** In the fixed code it needs 142 bits. */
  lemma SpreadFixed(tb: CodeTables)
    requires CanEncode(tb, FixedLitLens(), FixedDistLens(), Spread(15))
    ensures |EncodeBody(tb, FixedLitLens(), FixedDistLens(), Spread(15))| == 142
  {
    hide FixedLitLens, CanEncode, EncodeBody;
    ST.FixedLens();
    LiteralsSize(tb, FixedLitLens(), FixedDistLens(), Spread(15), 9);
  }

  /**
   The fifteen bytes are stored, whatever was in the output before; one byte is
   lost if they start at a byte, and two if six bits of the last byte are in use.
   */
  lemma StoredLoses(p: Plan, tb: CodeTables, before: nat)
    requires PlanOk(p, tb, Spread(15)) && PlanBuilt(p, tb, Spread(15))
    requires CanEncode(tb, FixedLitLens(), FixedDistLens(), Spread(15))
    ensures var s := SizesOf(p, tb, Spread(15), true, 15);
            && Chosen(s) == Stored
            && (before % 8 == 0 ==> EndBytes(Stored, before, s) == EndBytes(Fixed, before, s) + 1)
            && (before % 8 == 6 ==> EndBytes(Stored, before, s) == EndBytes(Fixed, before, s) + 2)
            && (before % 8 == 0 || before % 8 == 6 ==> !Shortest(before, s))
  {
    hide Spread, CanEncode, EncodeBody, PlanBuilt, PlanOk, DynamicBits, FixedLitLens, FixedDistLens;
    SpreadFixed(tb);
    SpreadDynamic(p, tb);
    var s := SizesOf(p, tb, Spread(15), true, 15);
    StoredBytes(before, s);
    TreeBytes(before, s.fixed);
    assert Available(Fixed, s);
  }

  /** The plan for the fifteen bytes, the form taken and the bytes it ends in. */
  ghost predicate TwentyStored(p: Plan, tb: CodeTables)
  {
    && PlanOk(p, tb, Spread(15)) && PlanBuilt(p, tb, Spread(15))
    && CanEncode(tb, FixedLitLens(), FixedDistLens(), Spread(15))
    && var s := SizesOf(p, tb, Spread(15), true, 15);
       Chosen(s) == Stored && EndBytes(Stored, 0, s) == 20 && EndBytes(Fixed, 0, s) == 19
  }

  lemma NothingExpanded()
    ensures ExpandTokens([], []) == Some([])
  {}

  lemma {:induction false} SpreadBytes(n: nat, bytes: seq<byte>)
    requires n <= |bytes| <= 15 && forall i | 0 <= i < |bytes| :: bytes[i] == 144 + 7 * i
    ensures ExpandTokens([], Spread(n)) == Some(bytes[..n])
  {
    hide ExpandTokens;
    if n == 0 {
      assert Spread(0) == [] && bytes[..0] == [];
      assert ExpandTokens([], []) == Some([]) by { NothingExpanded(); }
    } else {
      SpreadBytes(n - 1, bytes);
      assert Spread(n) == Spread(n - 1) + [Literal(144 + 7 * (n - 1))];
      Deflate.ExpandAppend([], Spread(n - 1), Literal(144 + 7 * (n - 1)), bytes[..n - 1]);
      assert bytes[..n] == bytes[..n - 1] + [bytes[n - 1]];
    }
  }

  /** The fifteen bytes are saved. */
  method SaveSpread(c: Coder)
    requires c.Valid() && c.Room() && c.b.tokens == [] && c.b.litSize == 0x2000 && c.b.dBuf.Length == 0x2000
    modifies c.t.Repr(), c.b.Repr()
    ensures c.Valid() && c.b.tokens == Spread(15)
    ensures c.w.Stream() == old(c.w.Stream()) && c.compressedLen == old(c.compressedLen)
  {
    hide Coder.Valid, BW.BitWriter.Stream, BW.BitWriter.Valid, Cost;
    assert Spread(0) == [];
    Deflate.TallyFacts(c);
    for i := 0 to 15
      invariant c.Valid() && c.w.Valid() && c.Room() && c.b.tokens == Spread(i)
      invariant c.w.Stream() == old(c.w.Stream()) && c.compressedLen == old(c.compressedLen)
    {
      var flush := c.CtTally(0, 144 + 7 * i, i + 1);
      assert Spread(i + 1) == Spread(i) + [Literal(144 + 7 * i)];
      Deflate.TallyFacts(c);
    }
  }

  lemma StoredTotal(after: seq<bool>, s: Sizes, total: nat)
    requires s.stored == 15 && |after| == EndOf(Stored, 0, s) && total == |BW.Align(after)| / 8 % 0x2000_0000
    ensures total == 20 == EndBytes(Stored, 0, s)
  {
    AlignLength(after);
    StoredBytes(0, s);
  }

  /**
   They are written as a block of twenty bytes, where the fixed codes would have
   needed nineteen; p is the plan that flush_block made.
   */
  method FlushSpread(c: Coder, buf: array<byte>) returns (total: nat, ghost p: Plan)
    requires c.Valid() && c.b.tokens == Spread(15) && c.w.Stream() == [] && c.compressedLen == 0 && buf !in c.Repr()
    requires buf.Length == 15 && forall i | 0 <= i < 15 :: buf[i] == 144 + 7 * i
    modifies c.Repr()
    ensures total == 20 && TwentyStored(p, c.tb)
  {
    hide Coder.Valid, BW.BitWriter.Stream, BW.BitWriter.Valid, BW.Align, PlanOk, PlanBuilt, CanEncode, Spread,
         ExpandTokens, EncodeBody, DynamicBits, FixedLitLens, FixedDistLens, Blocks.Block, Coder.InTrees,
         Shortest, Fair, Chosen, EndBytes, EndOf;
    ghost var tb, bytes := c.tb, buf[..];
    SpreadBytes(15, bytes);
    assert bytes[..15] == bytes && [] + buf[0..15] == bytes;
    Deflate.TallyFacts(c);
    ghost var after;
    total, after, p := c.FlushBlock(buf, true, 0, 15, true, 0, [], bytes);
    StoredLoses(p, tb, 0);
    StoredTotal(after, SizesOf(p, tb, Spread(15), true, 15), total);
  }

  /** A new coder that writes to an empty file gets the fifteen bytes. */
  method WriteSpread(w: BW.BitWriter, buf: array<byte>) returns (c: Coder, total: nat, ghost p: Plan)
    requires w.Valid() && w.Stream() == [] && buf != w.outbuf
    requires buf.Length == 15 && forall i | 0 <= i < 15 :: buf[i] == 144 + 7 * i
    modifies w, w.outbuf
    ensures total == 20 && TwentyStored(p, c.tb)
  {
    hide Coder.Valid, BW.BitWriter.Stream, BW.BitWriter.Valid, Spread, TwentyStored;
    c := new Coder(w, 0x2000, 0x2000, 0x2000);
    Deflate.RoomAfter(c);
    SaveSpread(c);
    total, p := FlushSpread(c, buf);
  }

  // ----- a fixed block that is too long -----

  /** The same byte thirteen times. */
  function Same(): (ts: seq<Token>)
    ensures |ts| == 13 && forall i | 0 <= i < 13 :: ts[i] == Literal(65)
  {
    Repeat(Literal(65), 13)
  }

  lemma SameLens(p: Plan, tb: CodeTables)
    requires PlanOk(p, tb, Same()) && PlanBuilt(p, tb, Same())
    ensures p.ll == Repeat(0, 65) + [1] + Repeat(0, 190) + [1] && p.dd == [1, 1]
  {
    hide TreeOf, ForcedFor, LitFreqs, DistFreqs, CodeTables.Valid, Decodable, Same;
    var ts := Same();
    var freq, none := LitFreqs(tb, ts), DistFreqs(tb, ts);
    forall x: nat | x < L_CODES
      ensures freq[x] != 0 <==> x == 65 || x == END_BLOCK
    {
      LiteralsCounted(tb, ts, x);
      assert ts[0] == Literal(65);
    }
    NoForced(freq, L_CODES, 65, END_BLOCK);
    TwoCodes(freq, p.ll, LIT_EXTRA, L_CODES, MAX_BITS, 65, END_BLOCK);
    NoDistances(tb, ts);
    TwoForced(none, D_CODES);
    TwoCodes(none, p.dd, DST_EXTRA, D_CODES, MAX_BITS, 0, 1);
  }

  /** A run of zeros that ends is sent at once, if it is not too long. */
  lemma {:induction false} ZeroRun(lens: seq<nat>, n: nat, k: nat, c: nat, prev: int)
    requires c < k <= 138 && n + k < |lens| && (k < 138 ==> lens[n + k] != 0)
    requires forall i | n <= i < n + k :: lens[i] == 0
    ensures Ops(lens, n + c, prev, c) == Emit(prev, 0, k) + Ops(lens, n + k, 0, 0)
    decreases k - c
  {
    hide Emit;
    OpsStep(lens, n + c, prev, c);
    if c + 1 < k {
      ZeroRun(lens, n, k, c + 1, prev);
    }
  }

  lemma OneLength(lens: seq<nat>, n: nat, prev: int)
    requires n < |lens| && lens[n] != 0 && NextLen(lens, n) != lens[n]
    ensures Ops(lens, n, prev, 0) == [LenOp(lens[n], 0)] + Ops(lens, n + 1, lens[n], 0)
  {}

  lemma LitOps(ll: seq<nat>)
    requires ll == Repeat(0, 65) + [1] + Repeat(0, 190) + [1]
    ensures AllOps(ll) == [LenOp(REPZ_11_138, 54), LenOp(1, 0), LenOp(REPZ_11_138, 127), LenOp(REPZ_11_138, 41),
            LenOp(1, 0)]
  {
    hide Ops;
    assert |ll| == 257 && ll[65] == 1 && ll[256] == 1 && forall i | 0 <= i < 256 && i != 65 :: ll[i] == 0;
    ZeroRun(ll, 0, 65, 0, -1);
    OneLength(ll, 65, 0);
    ZeroRun(ll, 66, 138, 0, 1);
    ZeroRun(ll, 204, 52, 0, 0);
    OneLength(ll, 256, 0);
    OpsEnd(ll, 1, 0);
  }

  lemma DistOps(dd: seq<nat>)
    requires dd == [1, 1]
    ensures AllOps(dd) == [LenOp(1, 0), LenOp(1, 0)]
  {
    hide Ops;
    OpsStep(dd, 0, -1, 0);
    OpsStep(dd, 1, -1, 1);
    OpsEnd(dd, 1, 0);
  }

  /** What is sent for the two lists of lengths. */
  lemma SameOps(ll: seq<nat>, dd: seq<nat>)
    requires ll == Repeat(0, 65) + [1] + Repeat(0, 190) + [1] && dd == [1, 1]
    ensures AllOps(ll) == [LenOp(REPZ_11_138, 54), LenOp(1, 0), LenOp(REPZ_11_138, 127), LenOp(REPZ_11_138, 41),
            LenOp(1, 0)]
    ensures AllOps(dd) == [LenOp(1, 0), LenOp(1, 0)]
  {
    LitOps(ll);
    DistOps(dd);
  }

  lemma OneOp(bl: seq<nat>, op: LenOp, rest: seq<LenOp>)
    requires op.sym < |bl| && forall i | 0 <= i < |rest| :: rest[i].sym < |bl|
    ensures forall i | 0 <= i < |[op] + rest| :: ([op] + rest)[i].sym < |bl|
    ensures |EncodeOps(bl, [op] + rest)| == bl[op.sym] + ExtraBlBits(op.sym) + |EncodeOps(bl, rest)|
  {
    assert ([op] + rest)[1..] == rest;
    CodeSize(bl, op.sym);
  }

  lemma {:induction false} OpsBits(bl: seq<nat>, ops: seq<LenOp>)
    requires |bl| == BL_CODES && bl[1] == bl[REPZ_11_138] == 1
    requires forall i | 0 <= i < |ops| :: ops[i].sym == 1 || ops[i].sym == REPZ_11_138
    ensures |EncodeOps(bl, ops)| == OpCount(ops, 1) + 8 * OpCount(ops, REPZ_11_138)
  {
    if ops != [] {
      OpsBits(bl, ops[1..]);
      OneOp(bl, ops[0], ops[1..]);
      assert [ops[0]] + ops[1..] == ops;
    }
  }

  lemma {:induction false} NotCounted(ops: seq<LenOp>, s: nat)
    requires forall i | 0 <= i < |ops| :: ops[i].sym != s
    ensures OpCount(ops, s) == 0
  {
    if ops != [] {
      NotCounted(ops[1..], s);
    }
  }

  lemma CountOne(op: LenOp, rest: seq<LenOp>, s: nat)
    ensures OpCount([op] + rest, s) == (if op.sym == s then 1 else 0) + OpCount(rest, s)
  {
    assert ([op] + rest)[1..] == rest;
  }

  /** How often the two operations occur in the two lists. */
  lemma SameCounts(a: LenOp, b: LenOp, c: LenOp, one: LenOp, s: nat)
    requires a.sym == b.sym == c.sym == REPZ_11_138 && one.sym == 1
    ensures OpCount([a, one, b, c, one], s) == if s == 1 then 2 else if s == REPZ_11_138 then 3 else 0
    ensures OpCount([one, one], s) == if s == 1 then 2 else 0
  {
    hide OpCount;
    assert OpCount([], s) == 0 by { NotCounted([], s); }
    CountOne(one, [], s);
    CountOne(one, [one], s);
    CountOne(c, [one], s);
    CountOne(b, [c, one], s);
    CountOne(one, [b, c, one], s);
    CountOne(a, [one, b, c, one], s);
    assert [one] + [] == [one] && [one] + [one] == [one, one] && [c] + [one] == [c, one];
    assert [b] + [c, one] == [b, c, one] && [one] + [b, c, one] == [one, b, c, one];
    assert [a] + [one, b, c, one] == [a, one, b, c, one];
  }

  lemma LastPlace(bl: seq<nat>, n: nat)
    requires LastSent(bl, n) && forall x: nat | x < BL_CODES :: bl[x] != 0 <==> x == 1 || x == REPZ_11_138
    ensures n == 18
  {
    assert BL_ORDER[17] == 1 && BL_ORDER[18] == 15;
  }

  /** The bit length code: two symbols of one bit, the last of them at the eighteenth place. */
  lemma SameBl(p: Plan, tb: CodeTables)
    requires PlanOk(p, tb, Same()) && PlanBuilt(p, tb, Same())
    ensures |p.bl| == BL_CODES && p.bl[1] == p.bl[REPZ_11_138] == 1 && p.n == 18
  {
    hide TreeOf, ForcedFor, LitFreqs, DistFreqs, CodeTables.Valid, Decodable, Same, AllOps, OpCount, OpFreqs, Sendable,
         CanEncode, BL_ORDER;
    SameLens(p, tb);
    SameOps(p.ll, p.dd);
    var ops := AllOps(p.ll) + AllOps(p.dd);
    var freq := OpFreqs(ops);
    forall x: nat | x < BL_CODES
      ensures freq[x] != 0 <==> x == 1 || x == REPZ_11_138
    {
      OpCountConcat(AllOps(p.ll), AllOps(p.dd), x);
      SameCounts(LenOp(REPZ_11_138, 54), LenOp(REPZ_11_138, 127), LenOp(REPZ_11_138, 41), LenOp(1, 0), x);
    }
    NoForced(freq, BL_CODES, 1, REPZ_11_138);
    TwoCodes(freq, p.bl, BL_EXTRA, BL_CODES, 7, 1, REPZ_11_138);
    LastPlace(p.bl, p.n);
  }

  /** With its own codes the block needs 110 bits. */
  lemma SameDynamic(p: Plan, tb: CodeTables)
    requires PlanOk(p, tb, Same()) && PlanBuilt(p, tb, Same())
    ensures |DynamicBits(p, tb, Same())| == 110
  {
    hide Same, CanEncode, EncodeBody, PlanBuilt, Decodable, AllOps, Sendable, BL_ORDER, OpCount, EncodeOps;
    SameLens(p, tb);
    SameOps(p.ll, p.dd);
    SameBl(p, tb);
    OpsBits(p.bl, AllOps(p.ll));
    OpsBits(p.bl, AllOps(p.dd));
    var one := LenOp(1, 0);
    SameCounts(LenOp(REPZ_11_138, 54), LenOp(REPZ_11_138, 127), LenOp(REPZ_11_138, 41), one, 1);
    SameCounts(LenOp(REPZ_11_138, 54), LenOp(REPZ_11_138, 127), LenOp(REPZ_11_138, 41), one, REPZ_11_138);
    LiteralsSize(tb, p.ll, p.dd, Same(), 1);
  }

  /** In the fixed code it needs 111. */
  lemma SameFixed(tb: CodeTables)
    requires CanEncode(tb, FixedLitLens(), FixedDistLens(), Same())
    ensures |EncodeBody(tb, FixedLitLens(), FixedDistLens(), Same())| == 111
  {
    hide FixedLitLens, CanEncode, EncodeBody;
    ST.FixedLens();
    LiteralsSize(tb, FixedLitLens(), FixedDistLens(), Same(), 8);
  }

  /**
   Thirteen times the same byte, with seven bits of the last byte in use: the
   fixed codes are taken, and a byte is lost.
   */
  lemma FixedLoses(p: Plan, tb: CodeTables, before: nat, hasBuf: bool)
    requires PlanOk(p, tb, Same()) && PlanBuilt(p, tb, Same())
    requires CanEncode(tb, FixedLitLens(), FixedDistLens(), Same()) && before % 8 == 7
    ensures var s := SizesOf(p, tb, Same(), hasBuf, 13);
            && Chosen(s) == Fixed && !Shortest(before, s)
            && EndBytes(Fixed, before, s) == EndBytes(Dynamic, before, s) + 1
  {
    hide Same, CanEncode, EncodeBody, PlanBuilt, PlanOk, DynamicBits, FixedLitLens, FixedDistLens;
    SameFixed(tb);
    SameDynamic(p, tb);
    var s := SizesOf(p, tb, Same(), hasBuf, 13);
    TreeBytes(before, s.fixed);
    TreeBytes(before, s.dyn);
    assert Available(Dynamic, s);
  }
}
