/**
 deflate: the search for matches with lazy evaluation, the tokens it produces
 and the blocks they are written in.
 */
module Deflate {
  import opened Bits
  import opened Canonical
  import opened Hash
  import opened Chains
  import opened Inflate
  import opened Tables
  import opened BlockCode
  import opened Blocks
  import FB = FlushBlock
  import TB = TokenBuffer
  import BW = BitWriter
  import LM = LongestMatch
  import SW = SlidingWindow

  // ----- tokens and the bytes they stand for -----

  /** The tokens turn the first `from` bytes into the first k bytes. */
  ghost predicate Coded(all: seq<byte>, from: int, ts: seq<Token>, k: int)
  {
    0 <= from <= k <= |all| && ExpandTokens(all[..from], ts) == Some(all[..k])
  }

  lemma {:induction false} ExpandAppend(out: seq<byte>, ts: seq<Token>, t: Token, mid: seq<byte>)
    requires ExpandTokens(out, ts) == Some(mid)
    ensures ExpandTokens(out, ts + [t]) == ExpandToken(mid, t)
    decreases |ts|
  {
    hide ExpandToken;
    var all := ts + [t];
    if ts == [] {
      assert all[1..] == [];
    } else {
      assert all[0] == ts[0] && all[1..] == ts[1..] + [t];
      ExpandAppend(ExpandToken(out, ts[0]).value, ts[1..], t, mid);
    }
  }

  /** The len bytes at pos repeat what stands dist bytes before them. */
  ghost predicate Repeats(all: seq<byte>, pos: int, len: nat, dist: nat)
  {
    && 1 <= dist <= MAX_DIST && dist <= pos && pos + len <= |all|
    && all[pos - dist..pos - dist + len] == all[pos..pos + len]
  }

  lemma RepeatsTail(all: seq<byte>, pos: nat, len: nat, dist: nat)
    requires Repeats(all, pos, len, dist) && len > 0
    ensures all[pos] == all[pos - dist] && Repeats(all, pos + 1, len - 1, dist)
  {
    var a, b := all[pos - dist..pos - dist + len], all[pos..pos + len];
    assert a[0] == b[0];
    var next := pos + 1;
    assert all[next - dist..next - dist + (len - 1)] == a[1..];
    assert all[next..next + (len - 1)] == b[1..];
  }

  /** Copying byte by byte, so that a copy may run into itself, gives the repetition. */
  lemma {:induction false} CopyRepeats(all: seq<byte>, pos: nat, len: nat, dist: nat)
    requires Repeats(all, pos, len, dist)
    ensures Copy(all[..pos], dist, len) == all[..pos + len]
    decreases len
  {
    hide Repeats;
    RepeatsRange(all, pos, len, dist);
    if len > 0 {
      RepeatsTail(all, pos, len, dist);
      assert all[..pos] + [all[pos]] == all[..pos + 1];
      CopyRepeats(all, pos + 1, len - 1, dist);
    }
  }

  lemma RepeatsRange(all: seq<byte>, pos: int, len: nat, dist: nat)
    requires Repeats(all, pos, len, dist)
    ensures 1 <= dist <= pos && dist <= MAX_DIST && pos + len <= |all|
  {}

  lemma CodedLiteral(all: seq<byte>, from: int, ts: seq<Token>, k: int)
    requires Coded(all, from, ts, k) && k < |all|
    ensures Coded(all, from, ts + [TB.TokenOf(0, all[k])], k + 1)
  {
    hide ExpandTokens;
    ExpandAppend(all[..from], ts, Literal(all[k]), all[..k]);
    assert all[..k] + [all[k]] == all[..k + 1];
  }

  lemma CodedMatch(all: seq<byte>, from: int, ts: seq<Token>, k: int, len: nat, dist: nat)
    requires Coded(all, from, ts, k) && Repeats(all, k, len, dist) && MIN_MATCH <= len <= MAX_MATCH
    ensures Coded(all, from, ts + [TB.TokenOf(dist, len - MIN_MATCH)], k + len)
  {
    hide ExpandTokens, Copy;
    ExpandAppend(all[..from], ts, Match(len, dist), all[..k]);
    CopyRepeats(all, k, len, dist);
  }

  lemma CodedMore(all: seq<byte>, all': seq<byte>, from: int, ts: seq<Token>, k: int)
    requires Coded(all, from, ts, k) && all <= all'
    ensures Coded(all', from, ts, k)
  {
    hide ExpandTokens;
    assert all'[..from] == all[..from] && all'[..k] == all[..k];
  }

  lemma CodedNone(all: seq<byte>, k: int)
    requires 0 <= k <= |all|
    ensures Coded(all, k, [], k)
  {}

  lemma RepeatsMore(all: seq<byte>, all': seq<byte>, pos: int, len: nat, dist: nat)
    requires Repeats(all, pos, len, dist) && all <= all'
    ensures Repeats(all', pos, len, dist)
  {
    assert all'[pos - dist..pos - dist + len] == all[pos - dist..pos - dist + len];
    assert all'[pos..pos + len] == all[pos..pos + len];
  }

  /** A match in the window is a repetition in the input, as far as the input goes. */
  lemma MatchRepeats(w: seq<byte>, all: seq<byte>, base: nat, end: nat, m: nat, s: nat, len: nat, cut: nat)
    requires SW.Holds(w, all, base, end) && LM.MatchAt(w, m, s, len) && cut <= len && s + cut <= end
             && s - m <= MAX_DIST
    ensures Repeats(all, base + s, cut, s - m)
  {
    hide SW.Holds, LM.MatchAt;
    SW.HoldsSize(w, all, base, end);
    LM.MatchPrefix(w, m, s, len, cut);
    LM.MatchOrder(w, m, s, cut);
    SW.HoldsSlice(w, all, base, end, m, m + cut);
    SW.HoldsSlice(w, all, base, end, s, s + cut);
    SameSlices(w, m, s, cut);
  }

  lemma SameSlices(w: seq<byte>, m: nat, s: nat, len: nat)
    requires LM.MatchAt(w, m, s, len)
    ensures s + len <= |w| && m < s && w[m..m + len] == w[s..s + len]
  {}

  /** The distance from the byte before strstart to matchStart, in 32-bit arithmetic. */
  function Back(strstart: nat, matchStart: nat): nat
  {
    (strstart + SW.U32 - 1 - matchStart) % SW.U32
  }

  lemma BackIs(strstart: nat, matchStart: nat)
    requires 1 <= strstart < SW.U32 && matchStart < strstart
    ensures Back(strstart, matchStart) == strstart - 1 - matchStart
  {}

  /** Sliding the window does not change the distance. */
  lemma BackKept(base: nat, s: nat, m: nat, base': nat, s': nat, m': nat)
    requires m < SW.U32 && m' < SW.U32 && base + s == base' + s' && (base + m) % SW.U32 == (base' + m') % SW.U32
    ensures Back(s, m) == Back(s', m')
  {
    var a, b := base + m, base' + m';
    var t := base + s + SW.U32 - 1;
    Difference(t, a);
    Difference(t, b);
    assert t - a == s + SW.U32 - 1 - m && t - b == s' + SW.U32 - 1 - m';
    SameDifference(t, a, b);
  }

  lemma Difference(t: int, a: nat)
    ensures (t - a) % SW.U32 == (t - a % SW.U32) % SW.U32
  {}

  lemma SameDifference(t: int, a: nat, b: nat)
    requires a % SW.U32 == b % SW.U32
    ensures (t - a) % SW.U32 == (t - b) % SW.U32
  {
    Difference(t, a);
    Difference(t, b);
  }

  ghost predicate Ends(tokens: seq<Token>, ts: seq<Token>)
  {
    |ts| <= |tokens| && tokens[|tokens| - |ts|..] == ts
  }

  lemma EndsMore(tokens: seq<Token>, ts: seq<Token>, t: Token)
    requires Ends(tokens, ts)
    ensures Ends(tokens + [t], ts + [t])
  {
    var k := |tokens| - |ts|;
    assert (tokens + [t])[k..] == tokens[k..] + [t];
  }

  lemma EndsNone(tokens: seq<Token>)
    ensures Ends(tokens, [])
  {}

  /** A search: where it began, the best length, the positions visited, the length used and its position. */
  datatype Find = Find(hashHead: nat, best: nat, seen: seq<nat>, len: nat, m: nat)

  /** The tokens emitted, whether a byte is held back, the length of the match held back, and the input position. */
  datatype Parse = Parse(tokens: seq<Token>, held: bool, len: nat, pos: int)

  /**
   Lazy evaluation: the match held back, at the distance dist, is taken if the
   one found at pos is no longer; otherwise the byte held back becomes a literal
   and what was found is held back.
   */
  ghost function Lazy(p: Parse, dist: nat, lit: byte, found: nat): Parse
  {
    if p.len >= MIN_MATCH && found <= p.len then
      Parse(p.tokens + [Match(p.len, dist)], false, MIN_MATCH - 1, p.pos + p.len - 1)
    else Parse(p.tokens + (if p.held then [Literal(lit)] else []), true, found, p.pos + 1)
  }

  lemma LazyMoves(p: Parse, dist: nat, lit: byte, found: nat)
    ensures Lazy(p, dist, lit, found).pos > p.pos
  {}

  class Deflater {
    const win: SW.SlidingWindow
    const coder: FB.Coder
    const level: LM.Level
    const maxLazy: nat
    const tooFar: nat
    ghost const head: seq<bool>
    ghost const start: nat
    var matchLength: nat
    var prevLength: nat
    var matchAvailable: bool
    /** The tokens of the whole run. */
    ghost var tokens: seq<Token>

    constructor (win: SW.SlidingWindow, coder: FB.Coder, level: LM.Level, maxLazy: nat, tooFar: nat,
        ghost head: seq<bool>)
      ensures this.head == head && this.start == |head| && this.win == win && this.coder == coder
              && this.level == level && this.maxLazy == maxLazy && this.tooFar == tooFar
      ensures matchLength == MIN_MATCH - 1 && !matchAvailable && tokens == []
    {
      tokens := [];
      this.win, this.coder, this.level, this.maxLazy, this.tooFar := win, coder, level, maxLazy, tooFar;
      matchLength, prevLength, matchAvailable := MIN_MATCH - 1, 0, false;
      this.head, this.start := head, |head|;
    }

    ghost predicate Apart()
    {
      win.Repr() !! coder.Repr() && this !in win.Repr() && this !in coder.Repr()
    }

    ghost function Repr(): set<object>
    {
      {this} + win.Repr() + coder.Repr()
    }

    ghost function Parts(): set<object>
    {
      win.Repr() + coder.Repr()
    }

    ghost predicate Sound()
      reads Parts()
    {
      Apart() && level.maxChain >= 4 && coder.b.dBuf.Length > 0 && win.Valid() && coder.Valid()
    }

    /** The input position of a window position. */
    ghost function Abs(p: int): int
      reads win
    {
      win.base + p
    }

    /**
     The blocks written and the tokens of the current block stand for the first k
     bytes of the input, and so do the tokens of the whole run, which end with those
     of the current block.
     */
    ghost predicate Emitted(k: int)
      reads this`tokens, Parts()
    {
      && Ends(tokens, coder.b.tokens) && win.inPos <= |win.input| && Coded(win.All(), 0, tokens, k)
      && Coded(win.All(), Abs(win.blockStart), coder.b.tokens, k)
      && coder.w.Valid() && Decoded(start, coder.w.Stream(), win.All()[..Abs(win.blockStart)])
      && FB.Tracks(coder.compressedLen, coder.w.Stream(), start) && head <= coder.w.Stream()
    }

    ghost function State(): Parse
      reads this, win
    {
      Parse(tokens, matchAvailable, matchLength, Abs(win.strstart))
    }

    /** The byte before strstart. */
    ghost function Before(): byte
      reads win, win.window
    {
      if 1 <= win.strstart <= win.window.Length then win.window[win.strstart - 1] else 0
    }

    /** The tokens of the current block after one more, for n bytes of input: none if ct_tally ends the block. */
    ghost function Grown(ts: seq<Token>, t: Token, n: int): seq<Token>
    {
      if n >= 0 && coder.tb.Valid() && TokensOk(ts + [t])
          && FB.ShouldFlush(coder.tb, ts + [t], n, coder.b.litSize, coder.b.dBuf.Length) then []
      else ts + [t]
    }

    /** A block ends when ct_tally says so and not before. */
    ghost predicate BlockIs(was: seq<Token>, block: seq<Token>, n: int)
      reads this`tokens, coder.b
    {
      coder.b.tokens == if |tokens| <= |was| then block else Grown(block, tokens[|tokens| - 1], n)
    }

    /** FLUSH_BLOCK(0) and what follows it. */
    method Flush()
      requires Sound() && win.strstart < SW.WINDOW_SIZE && Emitted(Abs(win.strstart))
      modifies coder.Repr(), win`blockStart
      ensures Sound() && coder.Room() && win.blockStart == win.strstart && Emitted(Abs(win.strstart))
      ensures coder.b.tokens == []
    {
      hide SW.Wrap, SW.Holds, Linked, FB.Coder.Apart, FB.Coder.Valid, FB.Coder.Room, FB.Tracks, Decoded, ExpandTokens,
           BW.BitWriter.Stream, BW.BitWriter.Valid, FB.WellChosen, FB.PlanBuilt, FB.PlanOk, FB.DynamicBits,
           CanEncode, EncodeBody, FixedLitLens, FixedDistLens, Block, CodeTables.Valid, BW.Align, Ends;
      EndsNone(tokens);
      ghost var out, res, stream := win.All()[..Abs(win.blockStart)], win.All()[..Abs(win.strstart)], coder.w.Stream();
      BlockBytes(win.window[..], win.All(), win.base, win.strstart + win.lookahead, win.blockStart, win.strstart);
      var total;
      ghost var after, p;
      total, after, p := coder.FlushBlock(win.window, win.blockStart >= 0,
          if win.blockStart >= 0 then win.blockStart else 0,
                                          win.strstart - win.blockStart, false, start, out, res);
      OneMore(start, stream, after, out, res);
      win.blockStart := win.strstart;
      CodedNone(win.All(), Abs(win.strstart));
      RoomAfter(coder);
    }

    /** Tally the byte before strstart as a literal. */
    method PutLiteral()
      requires Sound() && coder.Room() && 1 <= win.strstart < SW.WINDOW_SIZE && Emitted(Abs(win.strstart) - 1)
      modifies coder.Repr(), win`blockStart, this`tokens
      ensures Sound() && coder.Room() && Emitted(Abs(win.strstart))
      ensures tokens == old(tokens) + [Literal(Before())]
      ensures BlockIs(old(tokens), old(coder.b.tokens), old(win.strstart - win.blockStart))
    {
      hide SW.Wrap, SW.Holds, Linked, FB.Coder.Valid, FB.Coder.Room, FB.Tracks, Decoded, ExpandTokens,
           BW.BitWriter.Stream, BW.BitWriter.Valid, FB.ShouldFlush, CodeTables.Valid, Ends;
      var lc := win.window[win.strstart - 1];
      SW.HoldsSize(win.window[..], win.All(), win.base, win.strstart + win.lookahead);
      SW.HoldsAt(win.window[..], win.All(), win.base, win.strstart + win.lookahead, win.strstart - 1);
      CodedLiteral(win.All(), Abs(win.blockStart), coder.b.tokens, Abs(win.strstart) - 1);
      CodedLiteral(win.All(), 0, tokens, Abs(win.strstart) - 1);
      EndsMore(tokens, coder.b.tokens, Literal(lc));
      TallyFacts(coder);
      var flush := coder.CtTally(0, lc, win.strstart - win.blockStart);
      TallyFacts(coder);
      tokens := tokens + [Literal(lc)];
      if flush {
        Flush();
      }
    }

    /** Tally a reference for the bytes from the one before strstart on. */
    method PutMatch(len: nat, dist: nat) returns (flush: bool)
      requires Sound() && coder.Room() && Emitted(Abs(win.strstart) - 1)
      requires MIN_MATCH <= len <= MAX_MATCH && Repeats(win.All(), Abs(win.strstart) - 1, len, dist)
      modifies coder.Repr(), this`tokens
      ensures Sound() && (!flush ==> coder.Room()) && Emitted(Abs(win.strstart) - 1 + len)
      ensures tokens == old(tokens) + [Match(len, dist)] && coder.b.tokens == old(coder.b.tokens) + [Match(len, dist)]
      ensures flush <==> Grown(old(coder.b.tokens), Match(len, dist), win.strstart - win.blockStart) == []
    {
      hide SW.Wrap, SW.Holds, Linked, FB.Coder.Valid, FB.Coder.Room, FB.Tracks, Decoded, ExpandTokens,
           BW.BitWriter.Stream, BW.BitWriter.Valid, FB.ShouldFlush, CodeTables.Valid, Repeats, Ends;
      RepeatsRange(win.All(), Abs(win.strstart) - 1, len, dist);
      CodedMatch(win.All(), Abs(win.blockStart), coder.b.tokens, Abs(win.strstart) - 1, len, dist);
      CodedMatch(win.All(), 0, tokens, Abs(win.strstart) - 1, len, dist);
      EndsMore(tokens, coder.b.tokens, Match(len, dist));
      TallyFacts(coder);
      flush := coder.CtTally(dist, len - MIN_MATCH, win.strstart - win.blockStart);
      TallyFacts(coder);
      tokens := tokens + [Match(len, dist)];
    }

    /** What is held back: the byte before strstart, and the match found there. */
    ghost predicate Held()
      reads Repr()
    {
      && Emitted(Abs(win.strstart) - (if matchAvailable then 1 else 0)) && (matchAvailable ==> 1 <= win.strstart)
      && 1 <= matchLength <= MAX_MATCH
      && (matchLength >= MIN_MATCH ==>
            matchAvailable && Repeats(win.All(), Abs(win.strstart) - 1, matchLength,
                Back(win.strstart, win.matchStart)))
    }

    /** The state between two steps; every string before strstart is in the hash chains. */
    ghost predicate Between(ahead: nat)
      reads Repr()
    {
      && Sound() && coder.Room() && win.strstart + 1 < win.window.Length && win.ins == win.strstart
      && (win.lookahead > 0 ==> win.Hashed()) && (win.eofile || ahead <= win.lookahead) && Held()
    }

    /** The string at strstart has been inserted. */
    ghost predicate Inside()
      reads Parts()
    {
      && Sound() && coder.Room() && 1 <= win.lookahead && win.strstart + 2 < win.window.Length && win.Inserted()
      && (win.eofile || MIN_LOOKAHEAD <= win.lookahead)
    }

    /** Step over the match of prevLength bytes that has been emitted. */
    method SkipHeld()
      requires Sound() && 1 <= win.strstart && win.strstart + 2 < win.window.Length && win.Inserted()
      requires MIN_MATCH <= prevLength <= MAX_MATCH && prevLength - 1 <= win.lookahead
               && (win.eofile || MIN_LOOKAHEAD <= win.lookahead) && Emitted(Abs(win.strstart) - 1 + prevLength)
      modifies win.Repr()
      ensures Sound() && Emitted(Abs(win.strstart)) && coder.b.tokens == old(coder.b.tokens)
      ensures coder.Room() == old(coder.Room())
      ensures win.strstart < SW.WINDOW_SIZE && win.strstart + 1 < win.window.Length && win.Hashed()
              && (win.eofile || 2 <= win.lookahead)
      ensures Abs(win.strstart) == old(Abs(win.strstart)) + prevLength - 1
    {
      hide SW.Holds, Linked, FB.Coder.Valid, FB.Coder.Room, Pow2, SW.Wrap, SW.HashReady, FB.Tracks, Decoded,
           BW.BitWriter.Stream, BW.BitWriter.Valid, Coded, Ends;
      win.SkipMatch(prevLength);
    }

    /** The reference for the previous match, and the strings it covers. */
    method EmitMatch(prevMatch: nat) returns (flush: bool)
      requires Inside() && 1 <= win.strstart && Emitted(Abs(win.strstart) - 1) && MIN_MATCH <= prevLength <= MAX_MATCH
               && prevMatch < SW.U32
      requires Repeats(win.All(), Abs(win.strstart) - 1, prevLength, Back(win.strstart, prevMatch))
      modifies Parts(), this`tokens
      ensures Sound() && (!flush ==> coder.Room()) && Emitted(Abs(win.strstart))
      ensures tokens == old(tokens) + [Match(prevLength, Back(old(win.strstart), prevMatch))]
      ensures coder.b.tokens == old(coder.b.tokens) + [tokens[|tokens| - 1]]
      ensures flush <==> Grown(old(coder.b.tokens), tokens[|tokens| - 1], old(win.strstart - win.blockStart)) == []
      ensures win.strstart < SW.WINDOW_SIZE && win.strstart + 1 < win.window.Length && win.Hashed()
              && (win.eofile || 2 <= win.lookahead)
      ensures Abs(win.strstart) == old(Abs(win.strstart)) + prevLength - 1
    {
      hide SW.Holds, Linked, FB.Coder.Valid, FB.Coder.Room, Repeats, Pow2, SW.Wrap, SW.HashReady, FB.Tracks, Decoded,
           BW.BitWriter.Stream, BW.BitWriter.Valid, Coded, Back, Ends, Grown;
      RepeatsRange(win.All(), Abs(win.strstart) - 1, prevLength, Back(win.strstart, prevMatch));
      SW.HoldsSize(win.window[..], win.All(), win.base, win.strstart + win.lookahead);
      flush := PutMatch(prevLength, Back(win.strstart, prevMatch));
      SkipHeld();
    }

    /** The previous match is taken. */
    method TakeMatch(prevMatch: nat)
      requires Inside() && 1 <= win.strstart && Emitted(Abs(win.strstart) - 1) && MIN_MATCH <= prevLength <= MAX_MATCH
               && prevMatch < SW.U32
      requires Repeats(win.All(), Abs(win.strstart) - 1, prevLength, Back(win.strstart, prevMatch))
      modifies Parts(), this`tokens, this`matchAvailable, this`matchLength
      ensures Between(2) && !matchAvailable && matchLength == MIN_MATCH - 1
      ensures tokens == old(tokens) + [Match(prevLength, Back(old(win.strstart), prevMatch))]
      ensures BlockIs(old(tokens), old(coder.b.tokens), old(win.strstart - win.blockStart))
      ensures Abs(win.strstart) == old(Abs(win.strstart)) + prevLength - 1
    {
      hide SW.Holds, Linked, FB.Coder.Valid, FB.Coder.Room, Repeats, Pow2, SW.Wrap, SW.HashReady, FB.Tracks, Decoded,
           BW.BitWriter.Stream, BW.BitWriter.Valid, Coded, Back, Emitted, Sound, Inside, FB.ShouldFlush,
           CodeTables.Valid, SW.SlidingWindow.Repr, FB.Coder.Repr;
      ApartInside(this);
      var flush := EmitMatch(prevMatch);
      matchAvailable := false;
      matchLength := MIN_MATCH - 1;
      if flush {
        Flush();
      }
    }

    /** The match found at strstart, if its length says that there is one. */
    ghost predicate Found()
      reads this, win
    {
      && win.inPos <= |win.input| && 1 <= matchLength <= MAX_MATCH
      && (matchLength >= MIN_MATCH ==>
            win.matchStart < win.strstart && Repeats(win.All(), Abs(win.strstart), matchLength,
                win.strstart - win.matchStart))
    }

    /** Everything before strstart is emitted: hold back the byte at strstart and the match found there. */
    method HoldBack()
      requires Inside() && Emitted(Abs(win.strstart)) && Found()
      modifies this`matchAvailable, win.Repr()
      ensures Between(2) && matchAvailable && Abs(win.strstart) == old(Abs(win.strstart)) + 1
      ensures Abs(win.matchStart) == old(Abs(win.matchStart)) && coder.b.tokens == old(coder.b.tokens)
    {
      hide SW.Holds, Linked, FB.Coder.Valid, FB.Coder.Room, Repeats, Pow2, SW.Wrap, SW.HashReady, FB.Tracks, Decoded,
           BW.BitWriter.Stream, BW.BitWriter.Valid, Coded, Back, Ends;
      if matchLength >= MIN_MATCH {
        BackIs(win.strstart + 1, win.matchStart);
      }
      matchAvailable := true;
      win.Advance();
    }

    /** There was no better match before: the byte held back is a literal. */
    method TakeLiteral()
      requires Inside() && 1 <= win.strstart && Emitted(Abs(win.strstart) - 1) && Found()
      modifies Parts(), this`tokens, this`matchAvailable
      ensures Between(2) && matchAvailable && Abs(win.strstart) == old(Abs(win.strstart)) + 1
      ensures Abs(win.matchStart) == old(Abs(win.matchStart))
      ensures tokens == old(tokens) + [Literal(old(Before()))]
      ensures BlockIs(old(tokens), old(coder.b.tokens), old(win.strstart - win.blockStart))
    {
      hide SW.Holds, Linked, FB.Coder.Valid, FB.Coder.Room, Repeats, Pow2, SW.Wrap, SW.HashReady, FB.Tracks, Decoded,
           BW.BitWriter.Stream, BW.BitWriter.Valid, Coded, Back, Emitted, Grown, FB.ShouldFlush, CodeTables.Valid;
      PutLiteral();
      HoldBack();
    }

    /** Insert the string at strstart. */
    method Insert() returns (hashHead: nat)
      requires Between(MIN_LOOKAHEAD) && win.lookahead > 0
      modifies win`insH, win`ins, win.prev, win.head
      ensures Inside() && Held()
      ensures Newest(win.bits, win.window[..], old(win.head[..]), win.strstart, hashHead)
      ensures win.window[..] == old(win.window[..])
      ensures |old(win.prev[..])| == WSIZE && win.prev[..] == old(win.prev[..])[Slot(win.strstart) := hashHead]
    {
      hide SW.Holds, Linked, FB.Coder.Valid, FB.Coder.Room, Repeats, Pow2, SW.Wrap, SW.HashReady, FB.Tracks, Decoded,
           BW.BitWriter.Stream, BW.BitWriter.Valid, Coded, Back, HashOf, Ends, Slot;
      hashHead := win.InsertString(win.strstart);
    }

    /** Look for a match at strstart. */
    method Probe(hashHead: nat) returns (len: nat, m: nat, ghost f: Find)
      requires Inside() && Held() && win.prev.Length == WSIZE && hashHead == win.prev[Slot(win.strstart)]
      ensures Inside() && Held() && 1 <= len <= MAX_MATCH && m < SW.U32
      ensures len >= MIN_MATCH && len > matchLength ==>
                m < win.strstart && Repeats(win.All(), Abs(win.strstart), len, win.strstart - m)
      ensures f.hashHead == hashHead && f.len == len && f.m == m
      ensures SearchIs(f, level, maxLazy, tooFar, win.window[..], win.prev[..], win.strstart, win.lookahead,
                       matchLength, win.matchStart)
    {
      hide SW.Holds, Linked, FB.Coder.Valid, FB.Coder.Room, Repeats, Pow2, SW.Wrap, SW.HashReady, FB.Tracks, Decoded,
           BW.BitWriter.Stream, BW.BitWriter.Valid, Coded, Back, HashOf, Ends, Slot, SearchIs;
      len, m, f := FindMatch(win, level, maxLazy, tooFar, hashHead, matchLength);
    }

    /** The match held back, of prevLength bytes, and the match found at strstart. */
    ghost predicate Poised(prevMatch: nat)
      reads Repr()
    {
      && Inside() && 1 <= prevLength <= MAX_MATCH && prevMatch < SW.U32
      && Emitted(Abs(win.strstart) - (if matchAvailable then 1 else 0)) && (matchAvailable ==> 1 <= win.strstart)
      && (prevLength >= MIN_MATCH ==>
            matchAvailable && Repeats(win.All(), Abs(win.strstart) - 1, prevLength, Back(win.strstart, prevMatch)))
      && (!(prevLength >= MIN_MATCH && matchLength <= prevLength) ==> Found())
    }

    /** The old match becomes the previous one. */
    method Note(len: nat, m: nat) returns (prevMatch: nat)
      requires Inside() && Held() && 1 <= len <= MAX_MATCH && m < SW.U32
      requires len >= MIN_MATCH && len > matchLength ==>
                 m < win.strstart && Repeats(win.All(), Abs(win.strstart), len, win.strstart - m)
      modifies this`matchLength, this`prevLength, win`matchStart
      ensures Poised(prevMatch) && prevLength == old(matchLength) && matchLength == len
      ensures prevMatch == old(win.matchStart) && win.matchStart == m
    {
      hide SW.Holds, Linked, FB.Coder.Valid, FB.Coder.Room, Repeats, Pow2, SW.Wrap, SW.HashReady, FB.Tracks, Decoded,
           BW.BitWriter.Stream, BW.BitWriter.Valid, Coded, Back, HashOf, Ends, SW.SlidingWindow.Valid;
      WindowFacts(this);
      prevLength := matchLength;
      prevMatch := win.matchStart;
      matchLength := len;
      win.SetMatchStart(m);
    }

    /** Insert the string at strstart and look for a match there; prevMatch and prevLength are the match held back. */
    method Look() returns (prevMatch: nat, ghost f: Find)
      requires Between(MIN_LOOKAHEAD) && win.lookahead > 0
      modifies this`matchLength, this`prevLength, win.Repr()
      ensures Poised(prevMatch) && Before() == old(Before())
      ensures win.strstart == old(win.strstart) && win.base == old(win.base) && win.blockStart == old(win.blockStart)
      ensures prevLength == old(matchLength) && prevMatch == old(win.matchStart)
      ensures matchLength == f.len && win.matchStart == f.m
      ensures old(Looked(f, win.prev[..], win.head[..], matchLength, win.matchStart))
    {
      hide Between, Inside, Held, Emitted, Found, Repeats, SW.SlidingWindow.Valid, SW.SlidingWindow.Inserted, HashOf,
           Back, SearchIs, Newest, Slot, Poised;
      var hashHead := Insert();
      InsideFacts(this);
      var len, m;
      len, m, f := Probe(hashHead);
      prevMatch := Note(len, m);
    }

    /** The search at strstart, before the string there is inserted and with a match of prevLength held back. */
    ghost predicate Looked(f: Find, prev: seq<nat>, heads: seq<nat>, prevLength: nat, prevMatch: nat)
      reads win, win.window
    {
      && |prev| == WSIZE && win.strstart + 2 < win.window.Length
      && Newest(win.bits, win.window[..], heads, win.strstart, f.hashHead)
      && SearchIs(f, level, maxLazy, tooFar, win.window[..], prev[Slot(win.strstart) := f.hashHead], win.strstart,
                  win.lookahead, prevLength, prevMatch)
    }

    /** The loop at the end of a step. */
    method Refill()
      requires Between(2)
      modifies win.Repr()
      ensures Between(MIN_LOOKAHEAD) && Abs(win.strstart) == old(Abs(win.strstart))
      ensures Abs(win.matchStart) % SW.U32 == old(Abs(win.matchStart)) % SW.U32
    {
      hide SW.Holds, Linked, FB.Coder.Valid, FB.Coder.Room, Repeats, Pow2, SW.Wrap, SW.HashReady, FB.Tracks, Decoded,
           BW.BitWriter.Stream, BW.BitWriter.Valid, Coded, Back, Ends;
      ghost var all, s, m := win.All(), win.strstart, win.matchStart;
      win.EnoughLookahead();
      CodedMore(all, win.All(), Abs(win.blockStart), coder.b.tokens,
          Abs(win.strstart) - (if matchAvailable then 1 else 0));
      CodedMore(all, win.All(), 0, tokens, Abs(win.strstart) - (if matchAvailable then 1 else 0));
      CodedFrom(all, Abs(win.blockStart), coder.b.tokens, Abs(win.strstart) - (if matchAvailable then 1 else 0));
      assert win.All()[..Abs(win.blockStart)] == all[..Abs(win.blockStart)];
      BackKept(old(win.base), s, m, win.base, win.strstart, win.matchStart);
      if matchLength >= MIN_MATCH {
        RepeatsMore(all, win.All(), Abs(win.strstart) - 1, matchLength, Back(s, m));
      }
    }

    /** The match held back is emitted unless there is a longer one; else the byte held back, if there is one. */
    method Decide(prevMatch: nat)
      requires Poised(prevMatch)
      modifies Parts(), this`tokens, this`matchAvailable, this`matchLength
      ensures Between(2)
      ensures State() == Lazy(old(State()).(len := prevLength), Back(old(win.strstart), prevMatch), old(Before()),
                              old(matchLength))
      ensures BlockIs(old(tokens), old(coder.b.tokens), old(win.strstart - win.blockStart))
      ensures matchAvailable ==> Abs(win.matchStart) == old(Abs(win.matchStart))
    {
      hide Inside, Emitted, Repeats, Back, Found, Between, Before, Grown, SW.SlidingWindow.Repr, FB.Coder.Repr;
      assert Apart() by { ApartInside(this); }
      if prevLength >= MIN_MATCH && matchLength <= prevLength {
        TakeMatch(prevMatch);
      } else if matchAvailable {
        TakeLiteral();
      } else {
        HoldBack();
      }
    }

    /**
     One iteration of the main loop of deflate: the match held back is emitted if
     the search at strstart finds no longer one; otherwise the byte held back is
     emitted, if there is one, and what was found is held back.
     */
    method Step() returns (ghost f: Find)
      requires Between(MIN_LOOKAHEAD) && win.lookahead > 0
      modifies Repr()
      ensures Between(MIN_LOOKAHEAD) && Abs(win.strstart) > old(Abs(win.strstart))
      ensures old(Looked(f, win.prev[..], win.head[..], matchLength, win.matchStart))
      ensures State() == Lazy(old(State()), Back(old(win.strstart), old(win.matchStart)), old(Before()), f.len)
      ensures matchAvailable ==> Abs(win.matchStart) % SW.U32 == old(Abs(f.m)) % SW.U32
      ensures BlockIs(old(tokens), old(coder.b.tokens), old(win.strstart - win.blockStart))
    {
      hide Back, Between, Looked, Poised, Before, Lazy, Grown, SW.SlidingWindow.Repr, FB.Coder.Repr;
      ApartBetween(this);
      var prevMatch;
      prevMatch, f := Look();
      LazyMoves(old(State()), Back(win.strstart, prevMatch), Before(), f.len);
      Decide(prevMatch);
      Refill();
    }

    /** The literal left over at the end of the input. */
    method LastLiteral()
      requires Between(MIN_LOOKAHEAD) && win.lookahead == 0
      modifies coder.Repr(), this`tokens
      ensures tokens == old(tokens) + (if matchAvailable then [Literal(Before())] else [])
      ensures Sound() && Emitted(Abs(win.strstart)) && win.strstart < SW.WINDOW_SIZE
      ensures win.inPos <= |win.input| && |win.All()| == Abs(win.strstart) && (win.failed || win.All() == win.input)
      ensures win.isize == SW.Wrap(|win.All()|)
    {
      hide SW.Wrap, SW.Holds, Linked, FB.Coder.Valid, FB.Coder.Room, FB.Tracks, Decoded, ExpandTokens,
           BW.BitWriter.Stream, BW.BitWriter.Valid, FB.ShouldFlush, CodeTables.Valid,
           Repeats, Back, SW.HashReady, Ends;
      SW.HoldsSize(win.window[..], win.All(), win.base, win.strstart);
      if matchAvailable {
        var lc := win.window[win.strstart - 1];
        SW.HoldsAt(win.window[..], win.All(), win.base, win.strstart, win.strstart - 1);
        CodedLiteral(win.All(), Abs(win.blockStart), coder.b.tokens, Abs(win.strstart) - 1);
        CodedLiteral(win.All(), 0, tokens, Abs(win.strstart) - 1);
        EndsMore(tokens, coder.b.tokens, Literal(lc));
        TallyFacts(coder);
        var _ := coder.CtTally(0, lc, win.strstart - win.blockStart);
        TallyFacts(coder);
        tokens := tokens + [Literal(lc)];
      }
    }

    /** FLUSH_BLOCK(1) */
    method FlushLast() returns (total: nat, ghost end: nat)
      requires Sound() && win.strstart < SW.WINDOW_SIZE && Emitted(Abs(win.strstart))
               && |win.All()| == Abs(win.strstart)
      modifies coder.Repr()
      ensures coder.w.Valid() && coder.w.biValid == 0 && head <= coder.w.Stream()
              && start <= end <= |coder.w.Stream()| < end + 8
      ensures Completed(coder.w.Stream(), start, win.All(), end)
      ensures total == (|coder.w.Stream()| - start) / 8 % 0x2000_0000
    {
      hide SW.Wrap, SW.Holds, Linked, FB.Coder.Apart, FB.Coder.Valid, FB.Coder.Room, FB.Tracks, Decoded, ExpandTokens,
           BW.BitWriter.Stream, BW.BitWriter.Valid, FB.WellChosen, FB.PlanBuilt, FB.PlanOk, FB.DynamicBits,
           CanEncode, EncodeBody, FixedLitLens, FixedDistLens, Block, CodeTables.Valid, BW.Padding, Completed;
      ghost var out, res, stream := win.All()[..Abs(win.blockStart)], win.All()[..Abs(win.strstart)], coder.w.Stream();
      BlockBytes(win.window[..], win.All(), win.base, win.strstart + win.lookahead, win.blockStart, win.strstart);
      StartBefore(start, stream, out);
      ghost var after, p;
      total, after, p := coder.FlushBlock(win.window, win.blockStart >= 0,
          if win.blockStart >= 0 then win.blockStart else 0,
                                          win.strstart - win.blockStart, true, start, out, res);
      TallyFacts(coder);
      end := |after|;
      assert res == win.All();
      AllDone(start, stream, after, out, res, coder.w.Stream());
    }

    /** The main loop of deflate. */
    method Loop()
      requires Between(MIN_LOOKAHEAD)
      modifies Repr()
      ensures Between(MIN_LOOKAHEAD) && win.lookahead == 0
    {
      hide Between;
      WithinInput(this);
      while win.lookahead != 0
        invariant Between(MIN_LOOKAHEAD) && Abs(win.strstart) <= |win.input|
        decreases |win.input| - Abs(win.strstart)
      {
        ghost var _ := Step();
        WithinInput(this);
      }
    }

    /** deflate: the whole input becomes one compressed stream. */
    method Run() returns (total: nat, ghost end: nat)
      requires Between(MIN_LOOKAHEAD)
      modifies Repr()
      ensures win.inPos <= |win.input| && (win.failed || win.All() == win.input) && win.isize == SW.Wrap(|win.All()|)
      ensures ExpandTokens([], tokens) == Some(win.All())
      ensures coder.w.Valid() && coder.w.biValid == 0 && head <= coder.w.Stream()
              && start <= end <= |coder.w.Stream()| < end + 8
      ensures Completed(coder.w.Stream(), start, win.All(), end)
      ensures total == (|coder.w.Stream()| - start) / 8 % 0x2000_0000
    {
      hide Between, Emitted, SW.SlidingWindow.Valid, FB.Coder.Valid, BW.BitWriter.Stream, BW.BitWriter.Valid,
           Completed, SW.Wrap;
      Loop();
      LastLiteral();
      AllTokens(this);
      total, end := FlushLast();
    }

    /** lm_init brings the window into the state deflate starts from. */
    method Begin()
      requires Apart() && level.maxChain >= 4 && coder.b.dBuf.Length > 0 && win.Valid() && win.Fresh() && coder.Valid()
      requires coder.b.tokens == [] && coder.compressedLen == 0 && start == |head| && head == coder.w.Stream()
               && start % 8 == 0
      requires matchLength == MIN_MATCH - 1 && !matchAvailable && tokens == []
      modifies win.Repr()
      ensures Between(MIN_LOOKAHEAD)
    {
      hide SW.Wrap, SW.Holds, Linked, FB.Coder.Valid, FB.Coder.Room, Decoded, BW.BitWriter.Stream, BW.BitWriter.Valid,
           Coded, SW.HashReady;
      RoomAfter(coder);
      win.LmInit();
      CodedNone(win.All(), 0);
      NoBlocks(coder.w.Stream());
      assert win.All()[..0] == [];
    }
  }

  /** The stream, whatever follows it, is decoded to res and ends at the given bit. */
  ghost predicate Completed(stream: seq<bool>, start: nat, res: seq<byte>, end: nat)
    requires start <= |stream|
  {
    forall bits | stream <= bits :: DecodeStream(bits, start, []) == Some((res, end))
  }

  lemma AllDone(start: nat, before: seq<bool>, after: seq<bool>, out: seq<byte>, res: seq<byte>, stream: seq<bool>)
    requires Decoded(start, before, out) && before <= after <= stream && Block(before, after, true, out, res)
             && start <= |stream|
    ensures Completed(stream, start, res, |after|)
  {
    hide DecodeStream, Decoded, Block;
    forall bits | stream <= bits
      ensures DecodeStream(bits, start, []) == Some((res, |after|))
    {
      LastOne(start, before, after, out, res, bits);
    }
  }

  lemma AllTokens(d: Deflater)
    requires d.Emitted(d.Abs(d.win.strstart)) && d.win.inPos <= |d.win.input|
             && |d.win.All()| == d.Abs(d.win.strstart)
    ensures ExpandTokens([], d.tokens) == Some(d.win.All())
  {
    hide ExpandTokens, FB.Tracks, Decoded, BW.BitWriter.Stream, BW.BitWriter.Valid, Ends;
    var all := d.win.All();
    assert all[..0] == [] && all[..|all|] == all;
  }

  lemma StartBefore(start: nat, stream: seq<bool>, out: seq<byte>)
    requires Decoded(start, stream, out)
    ensures start <= |stream|
  {
    hide DecodeStream;
  }

  lemma WithinInput(d: Deflater)
    requires d.Between(MIN_LOOKAHEAD)
    ensures d.Abs(d.win.strstart) <= |d.win.input|
  {
    hide FB.Coder.Valid, FB.Coder.Room, Linked, SW.Wrap, Repeats, Coded, SW.Holds;
    SW.HoldsSize(d.win.window[..], d.win.All(), d.win.base, d.win.strstart + d.win.lookahead);
  }

  lemma CodedFrom(all: seq<byte>, from: int, ts: seq<Token>, k: int)
    requires Coded(all, from, ts, k)
    ensures 0 <= from <= k <= |all|
  {}

  /** A search is made unless the match held back is good enough or the chain is empty or too far away. */
  predicate WorthIt(maxLazy: nat, s: nat, hashHead: nat, prevLength: nat)
  {
    hashHead != 0 && prevLength < maxLazy && s - hashHead <= MAX_DIST
  }

  /**
   The outcome of a search: the chain is followed as far as the level says; no
   position searched has a longer match, and the match is the nearest of its
   length.  If none is longer than the one held back its position stays.
   */
  ghost predicate Best(level: LM.Level, w: seq<byte>, prev: seq<nat>, s: nat, prevLength: nat, prevMatch: nat, f: Find)
  {
    && |prev| == WSIZE && f.seen != [] && f.seen[0] == f.hashHead && LM.Walk(prev, f.seen)
    && LM.NoneLonger(w, f.seen, s, f.best) && LM.Ended(level, prev, s, f.seen, f.best, prevLength)
    && LM.NiceLast(level, w, f.seen, s, prevLength) && |f.seen| <= LM.Chain(level, prevLength)
    && NoneAround(w, LM.Searched(prev, s, f.seen), s, f.best)
    && prevLength <= f.best && (f.best == prevLength ==> f.m == prevMatch)
    && (f.best > prevLength ==>
          f.m in f.seen && LM.MatchAt(w, f.m, s, f.best) && LM.Nearest(w, f.seen, s, f.best, f.m))
  }

  /** No string between from and s matches more bytes; what is too short for a match does not count. */
  ghost predicate NoneAround(w: seq<byte>, from: nat, s: nat, best: nat)
  {
    best >= MIN_MATCH - 1 ==> forall r: nat | from <= r < s :: LM.NotLonger(w, r, s, best)
  }

  /** The most recent string with the hash of the one at s. */
  ghost predicate Newest(bits: nat, w: seq<byte>, heads: seq<nat>, s: nat, p: nat)
  {
    s + 2 < |w| && HashOf(bits, w, s) < |heads| && p == heads[HashOf(bits, w, s)]
  }

  /** What is found at strstart and what is used of it. */
  ghost predicate SearchIs(f: Find, level: LM.Level, maxLazy: nat, tooFar: nat, w: seq<byte>, prev: seq<nat>, s: nat,
                           lookahead: nat, prevLength: nat, prevMatch: nat)
  {
    && f.m < SW.U32
    && if WorthIt(maxLazy, s, f.hashHead, prevLength) then
      && Best(level, w, prev, s, prevLength, prevMatch, f)
      && f.len == Usable(f.best, lookahead, SW.Wrap(s + SW.U32 - f.m), tooFar)
    else f.len == MIN_MATCH - 1 && f.m == prevMatch
  }

  /** What is used of the length found: no more than there is input, and no short match that is too far away. */
  function Usable(best: nat, lookahead: nat, dist: nat, tooFar: nat): nat
  {
    var len := if best > lookahead then lookahead else best;
    if len == MIN_MATCH && dist > tooFar then len - 1 else len
  }

  /** A match found by longest_match repeats the input, as far as the lookahead goes. */
  method Search(win: SW.SlidingWindow, level: LM.Level, hashHead: nat, prevLength: nat) returns (len: nat, m: nat,
                ghost f: Find)
    requires win.Valid() && 1 <= win.lookahead && win.strstart + 2 < win.window.Length && win.Inserted()
    requires level.maxChain >= 4 && 1 <= prevLength <= MAX_MATCH && win.prev.Length == WSIZE
    requires 0 < hashHead == win.prev[Slot(win.strstart)] && win.strstart - hashHead <= MAX_DIST
    ensures prevLength <= len <= MAX_MATCH && m < SW.U32 && f.hashHead == hashHead && f.best == len && f.m == m
    ensures Best(level, win.window[..], win.prev[..], win.strstart, prevLength, win.matchStart, f)
    ensures len > prevLength ==>
              && 3 <= len && m < win.strstart
              && Repeats(win.All(), win.base + win.strstart, if len > win.lookahead then win.lookahead else len,
                  win.strstart - m)
  {
    hide SW.Holds, Linked, Repeats, HashOf, LM.MatchAt, LM.NoneLonger, LM.Walk, LM.Ended, LM.NiceLast, LM.Nearest,
         Pow2, SW.Wrap, SW.HashReady, Slot, NoneAround, LM.Searched, LM.NotLonger;
    ghost var reach, seen;
    FollowChain(win.bits, win.window[..], win.head[..], win.prev[..], win.strstart + 1, win.strstart);
    len, m, seen, reach := LM.LongestMatch(win.bits, level, win.window, win.prev, win.strstart, hashHead, prevLength,
        win.matchStart, win.head[..]);
    f := Find(hashHead, len, seen, len, m);
    AllSearched(win.bits, win.window[..], win.head[..], win.prev[..], win.strstart, seen, len);
    if len > prevLength {
      MatchRepeats(win.window[..], win.All(), win.base, win.strstart + win.lookahead, m, win.strstart, len,
                   if len > win.lookahead then win.lookahead else len);
    }
  }

  lemma AllSearched(bits: nat, w: seq<byte>, head: seq<nat>, prev: seq<nat>, s: nat, seen: seq<nat>, best: nat)
    requires Linked(bits, w, head, prev, s + 1) && s + 2 < |w| && |prev| == WSIZE && seen != []
             && seen[0] == prev[Slot(s)] && LM.Walk(prev, seen) && LM.NoneLonger(w, seen, s, best)
    requires forall i | 0 <= i < |seen| :: LM.Candidate(bits, w, s, seen[i])
    ensures NoneAround(w, LM.Searched(prev, s, seen), s, best)
  {
    hide Linked, LM.Walk, LM.NoneLonger, LM.Candidate, LM.NotLonger, LM.Searched, Slot;
    if best >= MIN_MATCH - 1 {
      forall r: nat | LM.Searched(prev, s, seen) <= r < s
        ensures LM.NotLonger(w, r, s, best)
      {
        LM.NoneMissed(bits, w, head, prev, s, seen, best, r);
      }
    }
  }

  /** The part of deflate that looks for a match at strstart: its length and position. */
  method FindMatch(win: SW.SlidingWindow, level: LM.Level, maxLazy: nat, tooFar: nat, hashHead: nat, prevLength: nat)
    returns (len: nat, m: nat, ghost f: Find)
    requires win.Valid() && 1 <= win.lookahead && win.strstart + 2 < win.window.Length && win.Inserted()
    requires level.maxChain >= 4 && 1 <= prevLength <= MAX_MATCH
    requires win.prev.Length == WSIZE && hashHead == win.prev[Slot(win.strstart)]
    ensures 1 <= len <= MAX_MATCH && m < SW.U32
    ensures len >= MIN_MATCH && len > prevLength ==>
              m < win.strstart && Repeats(win.All(), win.base + win.strstart, len, win.strstart - m)
    ensures f.hashHead == hashHead && f.len == len && f.m == m
    ensures SearchIs(f, level, maxLazy, tooFar, win.window[..], win.prev[..], win.strstart, win.lookahead, prevLength,
                     win.matchStart)
  {
    hide SW.Holds, Linked, Repeats, HashOf, Pow2, SW.Wrap, SW.HashReady, Best, Slot;
    len, m := MIN_MATCH - 1, win.matchStart;
    f := Find(hashHead, 0, [], len, m);
    if hashHead != 0 && prevLength < maxLazy && win.strstart - hashHead <= MAX_DIST {
      len, m, f := Search(win, level, hashHead, prevLength);
      if len > win.lookahead {
        len := win.lookahead;
      }
      if len == MIN_MATCH && SW.Wrap(win.strstart + SW.U32 - m) > tooFar {
        len := len - 1;
      }
      BestUsed(level, win.window[..], win.prev[..], win.strstart, prevLength, win.matchStart, f, len);
      f := f.(len := len);
    }
  }

  lemma BestUsed(level: LM.Level, w: seq<byte>, prev: seq<nat>, s: nat, prevLength: nat, prevMatch: nat, f: Find,
                 len: nat)
    requires Best(level, w, prev, s, prevLength, prevMatch, f)
    ensures Best(level, w, prev, s, prevLength, prevMatch, f.(len := len))
  {
    hide LM.Walk, LM.NoneLonger, LM.Ended, LM.NiceLast, LM.Nearest, LM.MatchAt, NoneAround, LM.Searched;
  }

  lemma ApartInside(d: Deflater)
    requires d.Inside()
    ensures d.Apart() && d.Sound() && d.win in d.win.Repr() && d.coder.Repr() !! {d.win, d.win.window}
  {
    hide FB.Coder.Valid, FB.Coder.Room, SW.SlidingWindow.Valid;
  }

  lemma ApartBetween(d: Deflater)
    requires d.Between(MIN_LOOKAHEAD)
    ensures d.Apart() && d.coder.b !in d.win.Repr()
  {
    hide FB.Coder.Valid, FB.Coder.Room, SW.SlidingWindow.Valid, Deflater.Held;
  }

  lemma InsideFacts(d: Deflater)
    requires d.Inside()
    ensures d.win.Valid() && d.win.inPos <= |d.win.input| && 1 <= d.win.lookahead
            && d.win.strstart + 2 < d.win.window.Length && d.win.Inserted()
    ensures d.level.maxChain >= 4 && (d.Held() ==> 1 <= d.matchLength <= MAX_MATCH)
  {
    hide FB.Coder.Valid, FB.Coder.Room, Linked, SW.Holds, SW.Wrap, Repeats, Coded;
  }

  lemma WindowFacts(d: Deflater)
    requires d.Sound()
    ensures d.win.matchStart < SW.U32 && d.win.inPos <= |d.win.input|
  {
    hide FB.Coder.Valid, FB.Coder.Room, Linked, SW.Holds, SW.Wrap;
  }

  lemma TallyFacts(c: FB.Coder)
    requires c.Valid()
    ensures c.w.Valid() && c.tb.Valid() && TokensOk(c.b.tokens)
  {
    hide CodeTables.Valid, TB.Stored, TB.FlagState, BW.BitWriter.Valid, LitFreqs, DistFreqs;
  }

  lemma RoomAfter(c: FB.Coder)
    requires c.Valid() && c.b.tokens == [] && c.b.dBuf.Length > 0
    ensures c.Room() && c.w.Valid()
  {
    hide CodeTables.Valid, TB.Stored, TB.FlagState, BW.BitWriter.Valid;
  }

  /** The bytes of the current block, if they are still in the window. */
  lemma BlockBytes(w: seq<byte>, all: seq<byte>, base: nat, end: nat, from: int, to: nat)
    requires SW.Holds(w, all, base, end) && 0 <= base + from && from <= to <= end
    ensures base + to <= |all| && to <= |w| && |all[..base + from]| + (to - from) == |all[..base + to]|
    ensures from >= 0 ==> all[..base + from] + w[from..to] == all[..base + to]
  {
    hide SW.Holds;
    SW.HoldsSize(w, all, base, end);
    if from >= 0 {
      SW.HoldsSlice(w, all, base, end, from, to);
    }
  }
}
