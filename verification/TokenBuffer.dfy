/**
 The buffers in which ct_tally collects the literals and references of a block
 and from which compress_block sends them.
 */
module TokenBuffer {
  import opened Bits
  import opened Canonical
  import opened Inflate
  import opened Tables
  import opened BlockCode

  // ----- what the buffers hold -----

  ghost function LitByte(t: Token): byte
    requires TokenOk(t)
  {
    match t
    case Literal(b) => b
    case Match(len, _) => len - MIN_MATCH
  }

  ghost function LitBytes(ts: seq<Token>): (s: seq<byte>)
    requires TokensOk(ts)
    ensures |s| == |ts|
  {
    seq(|ts|, i requires 0 <= i < |ts| => LitByte(ts[i]))
  }

  /** The distances minus one of the references. */
  ghost function Dists(ts: seq<Token>): (s: seq<nat>)
    requires TokensOk(ts)
    ensures |s| <= |ts| && forall i | 0 <= i < |s| :: s[i] < 0x8000
  {
    if ts == [] then []
    else
      var t := ts[|ts| - 1];
      Dists(ts[..|ts| - 1]) + (if t.Match? then [t.dist - 1] else [])
  }

  ghost function MatchBits(ts: seq<Token>): (s: seq<bool>)
    ensures |s| == |ts|
  {
    seq(|ts|, i requires 0 <= i < |ts| => ts[i].Match?)
  }

  /** The flags of the eight tokens from 8 * k on, fewer at the end. */
  function ByteBits(m: seq<bool>, k: nat): seq<bool>
    requires 8 * k <= |m|
  {
    if 8 * k + 8 <= |m| then m[8 * k..8 * k + 8] else m[8 * k..]
  }

  ghost predicate FlagState(m: seq<bool>, buf: seq<byte>, lastFlags: nat, flags: nat, flagBit: nat)
  {
    && 8 * lastFlags <= |m| < 8 * lastFlags + 8 && lastFlags < |buf|
    && (forall k | 0 <= k < lastFlags :: buf[k] == ValueOf(ByteBits(m, k)))
    && flags == ValueOf(m[8 * lastFlags..]) && flagBit == Pow2(|m| - 8 * lastFlags)
  }

  lemma {:induction false} ValueOfSnoc(s: seq<bool>, b: bool)
    ensures ValueOf(s + [b]) == ValueOf(s) + (if b then Pow2(|s|) else 0)
    decreases |s|
  {
    if s == [] {
      assert (s + [b])[1..] == [];
    } else {
      assert (s + [b])[1..] == s[1..] + [b];
      ValueOfSnoc(s[1..], b);
    }
  }

  /** Setting the flag of one more token. */
  lemma FlagOr(s: seq<bool>, b: bool)
    requires |s| < 8
    ensures ValueOf(s) < 256 && Pow2(|s|) < 256
    ensures ValueOf(s + [b]) == if b then Or(ValueOf(s), Pow2(|s|)) else ValueOf(s)
    ensures ValueOf(s + [b]) < 256
    ensures |s| < 7 ==> Pow2(|s|) * 2 % 256 == Pow2(|s| + 1)
  {
    hide Or, ValueOf, Shl, Pow2;
    ValueOfSnoc(s, b);
    Pow2Next(|s|);
    OrDisjoint(ValueOf(s), 1, |s|);
    ShlOne(|s|);
    Pow2Mono(|s| + 1, 8);
    Pow2Values();
    if |s| < 7 {
      Pow2Mono(|s| + 1, 7);
    }
  }

  lemma Pow2Next(n: nat)
    ensures Pow2(n + 1) == 2 * Pow2(n)
  {}

  lemma ShlOne(n: nat)
    ensures Shl(1, n) == Pow2(n)
  {}

  lemma ByteBitsSnoc(m: seq<bool>, b: bool, k: nat)
    requires 8 * k + 8 <= |m|
    ensures ByteBits(m + [b], k) == ByteBits(m, k)
  {}

  lemma ByteBitsLast(m: seq<bool>, k: nat)
    requires 8 * k <= |m| <= 8 * k + 8
    ensures ByteBits(m, k) == m[8 * k..]
  {}

  lemma FlagsKept(m: seq<bool>, b: bool, buf: seq<byte>, n: nat)
    requires 8 * n <= |m| && n <= |buf| && forall k | 0 <= k < n :: buf[k] == ValueOf(ByteBits(m, k))
    ensures forall k | 0 <= k < n :: buf[k] == ValueOf(ByteBits(m + [b], k))
  {
    hide ValueOf, ByteBits;
    forall k | 0 <= k < n
      ensures buf[k] == ValueOf(ByteBits(m + [b], k))
    {
      ByteBitsSnoc(m, b, k);
    }
  }

  /** The flags of ct_tally after one more token. */
  lemma FlagStep(m: seq<bool>, buf: seq<byte>, lastFlags: nat, flags: nat, flagBit: nat, b: bool)
    requires FlagState(m, buf, lastFlags, flags, flagBit)
    ensures flags < 256 && flagBit < 256
    ensures var f := if b then Or(flags, flagBit) else flags;
            && f < 256
            && ((|m| + 1) % 8 != 0 ==> FlagState(m + [b], buf, lastFlags, f, flagBit * 2 % 256))
            && ((|m| + 1) % 8 == 0 && lastFlags + 1 < |buf| ==>
                FlagState(m + [b], buf[lastFlags := f], lastFlags + 1, 0, 1))
  {
    hide ValueOf, ByteBits, Pow2, Or;
    var s := m[8 * lastFlags..];
    FlagOr(s, b);
    assert (m + [b])[8 * lastFlags..] == s + [b];
    FlagsKept(m, b, buf, lastFlags);
    ByteBitsLast(m + [b], lastFlags);
    if (|m| + 1) % 8 == 0 {
      EmptyFlags();
      assert (m + [b])[8 * (lastFlags + 1)..] == [];
    }
  }

  lemma EmptyFlags()
    ensures ValueOf([]) == 0 && Pow2(0) == 1
  {}

  lemma DistsAppend(ts: seq<Token>, t: Token)
    requires TokensOk(ts) && TokenOk(t)
    ensures TokensOk(ts + [t]) && Dists(ts + [t]) == Dists(ts) + (if t.Match? then [t.dist - 1] else [])
  {
    assert (ts + [t])[..|ts|] == ts;
  }

  /** The distance of a reference is found at the place given by the number of references before it. */
  lemma {:induction false} DistAt(ts: seq<Token>, i: nat)
    requires TokensOk(ts) && i < |ts|
    ensures TokensOk(ts[..i]) && TokensOk(ts[..i + 1])
    ensures |Dists(ts[..i + 1])| == |Dists(ts[..i])| + (if ts[i].Match? then 1 else 0)
    ensures ts[i].Match? ==> |Dists(ts[..i])| < |Dists(ts)| && Dists(ts)[|Dists(ts[..i])|] == ts[i].dist - 1
    decreases |ts|
  {
    hide TokenOk;
    assert ts[..i + 1][..i] == ts[..i];
    if i == |ts| - 1 {
      assert ts[..i + 1] == ts;
    } else {
      var front := ts[..|ts| - 1];
      DistAt(front, i);
      assert front[..i] == ts[..i] && front[..i + 1] == ts[..i + 1];
    }
  }

  // ----- reading the flags -----

  lemma FlagLow(s: seq<bool>)
    requires s != []
    ensures ValueOf(s) % 2 == (if s[0] then 1 else 0) && ValueOf(s) / 2 == ValueOf(s[1..])
  {}

  /** The flags not yet used of the byte that holds the flag of token lx. */
  lemma FlagRest(m: seq<bool>, lx: nat, k: nat)
    requires 8 * k <= lx < |m| && lx < 8 * k + 8
    ensures ByteBits(m, k) != [] && lx - 8 * k < |ByteBits(m, k)|
    ensures ByteBits(m, k)[lx - 8 * k..][0] == m[lx]
    ensures ByteBits(m, k)[lx - 8 * k..][1..] == ByteBits(m, k)[lx + 1 - 8 * k..]
    ensures ByteBits(m, k)[0..] == ByteBits(m, k)
  {}

  /** Every flag byte of the block is in place. */
  ghost predicate FlagsDone(m: seq<bool>, buf: seq<byte>)
  {
    |m| < 8 * |buf| && forall k | 0 <= k < |buf| && 8 * k < |m| :: buf[k] == ValueOf(ByteBits(m, k))
  }

  lemma FlagsSaved(m: seq<bool>, buf: seq<byte>, lastFlags: nat, flags: nat, flagBit: nat)
    requires FlagState(m, buf, lastFlags, flags, flagBit) && flags < 256
    ensures FlagsDone(m, buf[lastFlags := flags])
  {
    hide ValueOf, ByteBits, Pow2;
    ByteBitsLast(m, lastFlags);
  }

  lemma FlagSmall(m: seq<bool>, buf: seq<byte>, lastFlags: nat, flags: nat, flagBit: nat)
    requires FlagState(m, buf, lastFlags, flags, flagBit)
    ensures flags < 256
  {
    hide ValueOf, ByteBits, Pow2;
    FlagOr(m[8 * lastFlags..], true);
  }

  function TokenOf(dist: nat, lc: byte): Token
  {
    if dist == 0 then Literal(lc) else Match(lc + MIN_MATCH, dist)
  }

  /** The codes and lengths of the first n symbols, as a tree holds them. */
  ghost predicate CodesTo(lens: seq<nat>, n: nat, fc: seq<nat>, dl: seq<nat>)
  {
    && n <= |fc| && n <= |dl|
    && forall s | 0 <= s < |lens| && s < n :: dl[s] == lens[s] <= MAX_BITS && HasCode(lens, s, fc[s])
  }

  /** The contents of the buffers, as values. */
  ghost predicate Stored(ts: seq<Token>, l: seq<byte>, d: seq<nat>)
  {
    && TokensOk(ts) && |ts| <= |l| && l[..|ts|] == LitBytes(ts)
    && |Dists(ts)| <= |d| && d[..|Dists(ts)|] == Dists(ts)
  }

  lemma StoredStep(ts: seq<Token>, l: seq<byte>, d: seq<nat>, dist: nat, lc: byte)
    requires Stored(ts, l, d) && |ts| < |l| && dist <= 0x8000 && (dist > 0 ==> |Dists(ts)| < |d|)
    ensures var ts' := ts + [TokenOf(dist, lc)];
            && TokensOk(ts')
            && Stored(ts', l[|ts| := lc], if dist > 0 then d[|Dists(ts)| := dist - 1] else d)
            && |Dists(ts')| == |Dists(ts)| + (if dist > 0 then 1 else 0)
            && MatchBits(ts') == MatchBits(ts) + [dist > 0]
  {
    hide Dists;
    var t := TokenOf(dist, lc);
    DistsAppend(ts, t);
    assert LitBytes(ts + [t]) == LitBytes(ts) + [lc];
  }

  /** What compress_block reads for token i. */
  lemma StoredAt(ts: seq<Token>, l: seq<byte>, d: seq<nat>, i: nat)
    requires Stored(ts, l, d) && i < |ts|
    ensures TokensOk(ts[..i]) && TokensOk(ts[..i + 1]) && TokenOk(ts[i])
    ensures i < |l| && l[i] == LitByte(ts[i])
    ensures |Dists(ts[..i + 1])| == |Dists(ts[..i])| + (if ts[i].Match? then 1 else 0)
    ensures ts[i].Match? ==> |Dists(ts[..i])| < |d| && d[|Dists(ts[..i])|] == ts[i].dist - 1
  {
    hide Dists;
    DistAt(ts, i);
    assert l[i] == l[..|ts|][i];
    if ts[i].Match? {
      assert d[|Dists(ts[..i])|] == d[..|Dists(ts)|][|Dists(ts[..i])|];
    }
  }

  class TokenBuffer {
    const litSize: nat
    const lBuf: array<byte>
    const dBuf: array<nat>
    const flagBuf: array<byte>
    var lastLit: nat
    var lastDist: nat
    var lastFlags: nat
    var flags: nat
    var flagBit: nat
    ghost var tokens: seq<Token>

    ghost predicate Valid()
      reads this, lBuf, dBuf, flagBuf
    {
      && Shape()
      && lastLit == |tokens| && Stored(tokens, lBuf[..], dBuf[..]) && lastDist == |Dists(tokens)|
      && FlagState(MatchBits(tokens), flagBuf[..], lastFlags, flags, flagBit)
    }

    ghost predicate Shape()
    {
      8 <= litSize <= lBuf.Length && litSize == 8 * flagBuf.Length && lBuf != flagBuf
    }

    ghost function Repr(): set<object>
    {
      {this, lBuf, dBuf, flagBuf}
    }

    constructor (litSize: nat, litAlloc: nat, distSize: nat)
      requires 8 <= litSize <= litAlloc && litSize % 8 == 0
      ensures Valid() && fresh(Repr()) && tokens == [] && this.litSize == litSize && dBuf.Length == distSize
    {
      this.litSize := litSize;
      lBuf := new byte[litAlloc](_ => 0);
      dBuf := new nat[distSize](_ => 0);
      flagBuf := new byte[litSize / 8](_ => 0);
      lastLit, lastDist, lastFlags, flags, flagBit := 0, 0, 0, 0, 1;
      tokens := [];
    }

    /** The part of init_block that empties the buffers. */
    method Clear()
      requires Shape()
      modifies this
      ensures Valid() && tokens == []
    {
      hide Pow2, ValueOf;
      EmptyFlags();
      lastLit, lastDist, lastFlags, flags, flagBit := 0, 0, 0, 0, 1;
      tokens := [];
    }

    /** The flags of ct_tally. */
    method SaveFlag(matched: bool, ghost m: seq<bool>)
      requires Shape() && FlagState(m, flagBuf[..], lastFlags, flags, flagBit) && |m| + 1 < litSize
               && lastLit == |m| + 1
      modifies this`flags, this`flagBit, this`lastFlags, flagBuf
      ensures FlagState(m + [matched], flagBuf[..], lastFlags, flags, flagBit)
    {
      hide Pow2, ValueOf, Or, FlagState;
      FlagRoom(m, flagBuf[..], lastFlags, flags, flagBit);
      FlagStep(m, flagBuf[..], lastFlags, flags, flagBit, matched);
      if matched {
        flags := Or(flags, flagBit);
      }
      flagBit := flagBit * 2 % 256;
      if lastLit % 8 == 0 {
        flagBuf[lastFlags] := flags;
        lastFlags := lastFlags + 1;
        flags := 0;
        flagBit := 1;
      }
    }

    /** The part of ct_tally that saves a literal (dist 0) or a reference. */
    method Save(dist: nat, lc: byte)
      requires Valid() && |tokens| + 1 < litSize && dist <= 0x8000 && (dist > 0 ==> |Dists(tokens)| < dBuf.Length)
      modifies Repr()
      ensures Valid() && tokens == old(tokens) + [TokenOf(dist, lc)]
    {
      hide Pow2, ValueOf, FlagState, Stored, TokenOf, MatchBits;
      StoredStep(tokens, lBuf[..], dBuf[..], dist, lc);
      lBuf[lastLit] := lc;
      lastLit := lastLit + 1;
      if dist != 0 {
        dBuf[lastDist] := dist - 1;
        lastDist := lastDist + 1;
      }
      SaveFlag(dist != 0, MatchBits(tokens));
      tokens := tokens + [TokenOf(dist, lc)];
    }

    /** The first step of flush_block: save the flags of the last tokens. */
    method SaveFlags()
      requires Valid()
      modifies flagBuf
      ensures FlagsDone(MatchBits(tokens), flagBuf[..])
    {
      hide Pow2, ValueOf, FlagState, Stored, FlagsDone;
      FlagSmall(MatchBits(tokens), flagBuf[..], lastFlags, flags, flagBit);
      FlagsSaved(MatchBits(tokens), flagBuf[..], lastFlags, flags, flagBit);
      FlagRoom(MatchBits(tokens), flagBuf[..], lastFlags, flags, flagBit);
      flagBuf[lastFlags] := flags;
    }
  }

  lemma FlagRoom(m: seq<bool>, buf: seq<byte>, lastFlags: nat, flags: nat, flagBit: nat)
    requires FlagState(m, buf, lastFlags, flags, flagBit)
    ensures lastFlags < |buf| && lastFlags == |m| / 8
  {}
}
