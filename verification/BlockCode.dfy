/**
 The body of a compressed block: the bits written for literals and references,
 their number, and reading them back.
 */
module BlockCode {
  import opened Bits
  import opened Canonical
  import opened RunLength
  import opened BitLengths
  import opened Lengths
  import opened Inflate
  import opened Tables

  const L_CODES: nat := 286

  const LIT_EXTRA := Extra(LEN_EXTRA, 257)
  const DST_EXTRA := Extra(DIST_EXTRA, 0)

  ghost predicate TokenOk(t: Token)
  {
    t.Match? ==> MIN_MATCH <= t.len <= MAX_MATCH && 1 <= t.dist <= 0x8000
  }

  ghost predicate TokensOk(ts: seq<Token>)
  {
    forall i | 0 <= i < |ts| :: TokenOk(ts[i])
  }

  /** The symbol of a token in the literal and length alphabet. */
  ghost function LitSym(tb: CodeTables, t: Token): (s: nat)
    requires tb.Valid() && TokenOk(t)
    ensures s < L_CODES && s != END_BLOCK && (t.Literal? <==> s < END_BLOCK)
  {
    match t
    case Literal(b) => b
    case Match(len, _) =>
      LenBitsMean(tb, len - MIN_MATCH);
      tb.lengthCode[len - MIN_MATCH] + LITERALS + 1
  }

  /** The symbol of a reference in the distance alphabet. */
  ghost function DistSym(tb: CodeTables, t: Token): (s: nat)
    requires tb.Valid() && TokenOk(t) && t.Match?
    ensures s < D_CODES
  {
    DistBitsMean(tb, t.dist - 1);
    tb.DCode(t.dist - 1)
  }

  /** The extra bits of a length. */
  function LenBits(tb: CodeTables, lc: nat): seq<bool>
    requires lc < 256 && |tb.lengthCode| == 256 && |tb.baseLength| == LENGTH_CODES
  {
    var c := tb.lengthCode[lc];
    if c < LENGTH_CODES && LEN_EXTRA[c] != 0 && lc >= tb.baseLength[c] then BitsOf(lc - tb.baseLength[c], LEN_EXTRA[c])
        else []
  }

  /** The extra bits of a distance minus one. */
  function DistBits(tb: CodeTables, d: nat): seq<bool>
    requires d < 0x8000 && |tb.distCode| == 512 && |tb.baseDist| == D_CODES
  {
    var c := tb.DCode(d);
    if c < D_CODES && DIST_EXTRA[c] != 0 && d >= tb.baseDist[c] then BitsOf(d - tb.baseDist[c], DIST_EXTRA[c]) else []
  }

  /** The symbols of a token have codes. */
  ghost predicate HasCodes(tb: CodeTables, ll: seq<nat>, dd: seq<nat>, t: Token)
  {
    && tb.Valid() && TokenOk(t)
    && LitSym(tb, t) < |ll| && ll[LitSym(tb, t)] > 0
    && (t.Match? ==> DistSym(tb, t) < |dd| && dd[DistSym(tb, t)] > 0)
  }

  ghost function EncodeToken(tb: CodeTables, ll: seq<nat>, dd: seq<nat>, t: Token): seq<bool>
    requires HasCodes(tb, ll, dd, t)
  {
    match t
    case Literal(b) => CodeBits(ll, b)
    case Match(len, dist) =>
      CodeBits(ll, LitSym(tb, t))
      + (LenBits(tb, len - MIN_MATCH) + (CodeBits(dd, DistSym(tb, t)) + DistBits(tb, dist - 1)))
  }

  /** Every token can be sent, and so can the end of the block. */
  ghost predicate CanEncode(tb: CodeTables, ll: seq<nat>, dd: seq<nat>, ts: seq<Token>)
  {
    && END_BLOCK < |ll| && ll[END_BLOCK] > 0
    && forall i | 0 <= i < |ts| :: HasCodes(tb, ll, dd, ts[i])
  }

  ghost function EncodeTokens(tb: CodeTables, ll: seq<nat>, dd: seq<nat>, ts: seq<Token>): seq<bool>
    requires CanEncode(tb, ll, dd, ts)
  {
    if ts == [] then [] else EncodeToken(tb, ll, dd, ts[0]) + EncodeTokens(tb, ll, dd, ts[1..])
  }

  ghost function EncodeBody(tb: CodeTables, ll: seq<nat>, dd: seq<nat>, ts: seq<Token>): seq<bool>
    requires CanEncode(tb, ll, dd, ts)
  {
    EncodeTokens(tb, ll, dd, ts) + CodeBits(ll, END_BLOCK)
  }

  // ----- extra bits -----

  lemma LenBitsMean(tb: CodeTables, lc: nat)
    requires tb.Valid() && lc < 256
    ensures var c := tb.lengthCode[lc];
            && c < LENGTH_CODES && |LEN_BASE| == |LEN_EXTRA| == LENGTH_CODES && |LenBits(tb, lc)| == LEN_EXTRA[c]
            && LEN_BASE[c] + ValueOf(LenBits(tb, lc)) == lc + MIN_MATCH
  {
    hide LenStart, Pow2, LenExtra;
    var c := tb.lengthCode[lc];
    LenTable(c);
    if lc < 255 {
      assert LenIn(c, lc);
      if LEN_EXTRA[c] != 0 {
        ValueOfBitsOf(lc - tb.baseLength[c], LEN_EXTRA[c]);
      } else {
        PowZero();
      }
    }
  }

  lemma TablesSized(tb: CodeTables)
    requires tb.Valid()
    ensures |tb.lengthCode| == 256 && |tb.baseLength| == LENGTH_CODES && |tb.distCode| == 512
            && |tb.baseDist| == D_CODES
  {}

  lemma PowZero()
    ensures Pow2(0) == 1
  {}

  lemma DistEntry(tb: CodeTables, d: nat)
    requires tb.Valid() && d < 0x8000
    ensures |tb.distCode| == 512 && |tb.baseDist| == D_CODES
    ensures var c := tb.DCode(d);
            DistIn(c, d) && c < D_CODES && tb.baseDist[c] == DistStart(c)
  {
    hide CodeTables.DCode, DistStart, Pow2, DistExtra;
    assert DistIn(tb.DCode(d), d);
  }

  lemma DistBitsMean(tb: CodeTables, d: nat)
    requires tb.Valid() && d < 0x8000
    ensures var c := tb.DCode(d);
            && c < D_CODES && |DIST_BASE| == |DIST_EXTRA| == D_CODES && |DistBits(tb, d)| == DIST_EXTRA[c]
            && DIST_BASE[c] + ValueOf(DistBits(tb, d)) == d + 1
  {
    hide DistStart, Pow2, DistExtra, CodeTables.Valid, CodeTables.DCode, DIST_BASE, DIST_EXTRA;
    TablesSized(tb);
    DistEntry(tb, d);
    var c := tb.DCode(d);
    DistTable(c);
    if DIST_EXTRA[c] != 0 {
      ValueOfBitsOf(d - tb.baseDist[c], DIST_EXTRA[c]);
    } else {
      PowZero();
    }
  }

  lemma ReadValue(bits: seq<bool>, pos: nat, f: seq<bool>)
    requires FieldAt(bits, pos, f)
    ensures ReadBits(bits, pos, |f|) == Some(ValueOf(f))
  {
    hide ValueOf;
  }

  lemma ReadField(bits: seq<bool>, pos: nat, f: seq<bool>, base: nat)
    requires FieldAt(bits, pos, f)
    ensures ReadExtra(bits, pos, base, |f|) == Some((base + ValueOf(f), pos + |f|))
  {
    hide ValueOf, ReadBits, FieldAt;
    ReadValue(bits, pos, f);
  }

  // ----- reading back -----

  lemma ReadDistanceSent(tb: CodeTables, dd: seq<nat>, t: Token, bits: seq<bool>, pos: nat)
    requires Decodable(dd) && tb.Valid() && TokenOk(t) && t.Match? && DistSym(tb, t) < |dd| && dd[DistSym(tb, t)] > 0
    requires FieldAt(bits, pos, CodeBits(dd, DistSym(tb, t)) + DistBits(tb, t.dist - 1))
    ensures ReadDistance(dd, bits, pos)
            == Some((t.dist, pos + |CodeBits(dd, DistSym(tb, t)) + DistBits(tb, t.dist - 1)|))
  {
    hide Decodable, CodeBits, DistBits, ReadExtra, DecodeSymbol, ValueOf, FieldAt;
    var c := DistSym(tb, t);
    DistBitsMean(tb, t.dist - 1);
    FieldSplit(bits, pos, CodeBits(dd, c), DistBits(tb, t.dist - 1));
    DecodeSent(dd, c, bits, pos);
    ReadField(bits, pos + dd[c], DistBits(tb, t.dist - 1), DIST_BASE[c]);
  }

  lemma ReadMatchSent(tb: CodeTables, dd: seq<nat>, t: Token, bits: seq<bool>, pos: nat)
    requires Decodable(dd) && tb.Valid() && TokenOk(t) && t.Match? && DistSym(tb, t) < |dd| && dd[DistSym(tb, t)] > 0
    requires FieldAt(bits, pos, LenBits(tb, t.len - MIN_MATCH)
             + (CodeBits(dd, DistSym(tb, t)) + DistBits(tb, t.dist - 1)))
    ensures var s := tb.lengthCode[t.len - MIN_MATCH];
            && s < |LEN_BASE|
            && ReadMatch(dd, bits, pos, s)
               == Tok(t, pos + |LenBits(tb, t.len - MIN_MATCH)| + |CodeBits(dd, DistSym(tb, t))
                   + DistBits(tb, t.dist - 1)|)
  {
    hide Decodable, CodeBits, DistBits, LenBits, ReadExtra, DecodeSymbol, ValueOf, FieldAt, ReadDistance,
         CodeTables.Valid, CodeTables.DCode, LEN_BASE, LEN_EXTRA, DIST_EXTRA, DIST_BASE;
    TablesSized(tb);
    var s := tb.lengthCode[t.len - MIN_MATCH];
    var lenPart, distPart := LenBits(tb, t.len - MIN_MATCH), CodeBits(dd, DistSym(tb, t)) + DistBits(tb, t.dist - 1);
    LenBitsMean(tb, t.len - MIN_MATCH);
    FieldSplit(bits, pos, lenPart, distPart);
    ReadField(bits, pos, lenPart, LEN_BASE[s]);
    ReadDistanceSent(tb, dd, t, bits, pos + |lenPart|);
  }

  lemma ReadItemSent(tb: CodeTables, ll: seq<nat>, dd: seq<nat>, t: Token, bits: seq<bool>, pos: nat)
    requires Decodable(ll) && Decodable(dd) && HasCodes(tb, ll, dd, t)
    requires FieldAt(bits, pos, EncodeToken(tb, ll, dd, t))
    ensures ReadItem(ll, dd, bits, pos) == Tok(t, pos + |EncodeToken(tb, ll, dd, t)|)
  {
    hide Decodable, CodeBits, DistBits, LenBits, DecodeSymbol, FieldAt, ReadMatch;
    match t
    case Literal(b) =>
      DecodeSent(ll, b, bits, pos);
    case Match(len, dist) =>
      var s := LitSym(tb, t);
      FieldSplit(bits, pos, CodeBits(ll, s), LenBits(tb, len - MIN_MATCH)
          + (CodeBits(dd, DistSym(tb, t)) + DistBits(tb, dist - 1)));
      DecodeSent(ll, s, bits, pos);
      ReadMatchSent(tb, dd, t, bits, pos + ll[s]);
  }

  lemma ReadEndSent(ll: seq<nat>, dd: seq<nat>, bits: seq<bool>, pos: nat)
    requires Decodable(ll) && END_BLOCK < |ll| && ll[END_BLOCK] > 0 && FieldAt(bits, pos, CodeBits(ll, END_BLOCK))
    ensures ReadItem(ll, dd, bits, pos) == End(pos + ll[END_BLOCK])
  {
    DecodeSent(ll, END_BLOCK, bits, pos);
  }

  lemma HeadAndRest(tb: CodeTables, ll: seq<nat>, dd: seq<nat>, ts: seq<Token>)
    requires CanEncode(tb, ll, dd, ts) && ts != []
    ensures HasCodes(tb, ll, dd, ts[0]) && CanEncode(tb, ll, dd, ts[1..])
    ensures EncodeBody(tb, ll, dd, ts) == EncodeToken(tb, ll, dd, ts[0]) + EncodeBody(tb, ll, dd, ts[1..])
  {
    hide HasCodes, EncodeToken, CodeBits;
  }

  /** Reading back the body of a block gives what its tokens stand for. */
  lemma {:induction false} DecodeBodySent(tb: CodeTables, ll: seq<nat>, dd: seq<nat>, ts: seq<Token>, bits: seq<bool>,
                                          pos: nat,
                                          out: seq<byte>, res: seq<byte>)
    requires Decodable(ll) && Decodable(dd) && CanEncode(tb, ll, dd, ts)
    requires pos <= |bits| && FieldAt(bits, pos, EncodeBody(tb, ll, dd, ts))
    requires ExpandTokens(out, ts) == Some(res)
    ensures DecodeBody(ll, dd, bits, pos, out) == Some((res, pos + |EncodeBody(tb, ll, dd, ts)|))
    decreases |ts|
  {
    hide Decodable, HasCodes, EncodeToken, CodeBits, FieldAt, ReadItem, ExpandToken;
    if ts == [] {
      assert EncodeBody(tb, ll, dd, ts) == CodeBits(ll, END_BLOCK);
      CodeSize(ll, END_BLOCK);
      ReadEndSent(ll, dd, bits, pos);
    } else {
      HeadAndRest(tb, ll, dd, ts);
      var rest := EncodeBody(tb, ll, dd, ts[1..]);
      FieldSplit(bits, pos, EncodeToken(tb, ll, dd, ts[0]), rest);
      ReadItemSent(tb, ll, dd, ts[0], bits, pos);
      var p := pos + |EncodeToken(tb, ll, dd, ts[0])|;
      DecodeBodySent(tb, ll, dd, ts[1..], bits, p, ExpandToken(out, ts[0]).value, res);
    }
  }

  lemma CodeSize(lens: seq<nat>, s: nat)
    requires s < |lens|
    ensures |CodeBits(lens, s)| == lens[s]
  {}

  // ----- frequencies and size -----

  function Zeros(n: nat): (z: seq<nat>)
    ensures |z| == n && forall i | 0 <= i < n :: z[i] == 0
  {
    seq(n, _ => 0)
  }

  function Increment(f: seq<nat>, s: nat): (r: seq<nat>)
    requires s < |f|
    ensures |r| == |f|
  {
    f[s := f[s] + 1]
  }

  /** How often each literal and length symbol is sent for a block, with its end. */
  ghost function LitFreqs(tb: CodeTables, ts: seq<Token>): (f: seq<nat>)
    requires tb.Valid() && TokensOk(ts)
    ensures |f| == L_CODES
  {
    if ts == [] then Zeros(L_CODES)[END_BLOCK := 1]
    else Increment(LitFreqs(tb, ts[..|ts| - 1]), LitSym(tb, ts[|ts| - 1]))
  }

  ghost function DistFreqs(tb: CodeTables, ts: seq<Token>): (f: seq<nat>)
    requires tb.Valid() && TokensOk(ts)
    ensures |f| == D_CODES
  {
    if ts == [] then Zeros(D_CODES)
    else
      var f := DistFreqs(tb, ts[..|ts| - 1]);
      if ts[|ts| - 1].Match? then Increment(f, DistSym(tb, ts[|ts| - 1])) else f
  }

  lemma {:induction false} BumpCost(f: seq<nat>, len: seq<nat>, extra: Extra, s: nat, n: nat)
    requires n <= |f| && n <= |len| && s < |f|
    ensures Cost(Increment(f, s), len, extra, n) == Cost(f, len, extra, n) + (if s < n then len[s] + extra.At(s) else 0)
  {
    if n > 0 {
      BumpCost(f, len, extra, s, n - 1);
      Distribute(f[n - 1], len[n - 1] + extra.At(n - 1));
    }
  }

  lemma Distribute(a: int, b: int)
    ensures (a + 1) * b == a * b + b
  {}

  lemma {:induction false} ZeroCost(f: seq<nat>, len: seq<nat>, extra: Extra, n: nat)
    requires n <= |f| && n <= |len| && forall i | 0 <= i < n :: f[i] == 0
    ensures Cost(f, len, extra, n) == 0
  {
    if n > 0 {
      ZeroCost(f, len, extra, n - 1);
    }
  }

  /** The number of bits of a token, from the lengths of its codes and its extra bits. */
  lemma TokenSize(tb: CodeTables, ll: seq<nat>, dd: seq<nat>, t: Token)
    requires HasCodes(tb, ll, dd, t)
    ensures |EncodeToken(tb, ll, dd, t)|
            == ll[LitSym(tb, t)] + LIT_EXTRA.At(LitSym(tb, t))
                + (if t.Match? then dd[DistSym(tb, t)] + DST_EXTRA.At(DistSym(tb, t)) else 0)
  {
    hide CodeBits, LenBits, DistBits, CodeTables.Valid, CodeTables.DCode, LEN_EXTRA, DIST_EXTRA;
    TablesSized(tb);
    CodeSize(ll, LitSym(tb, t));
    if t.Match? {
      CodeSize(dd, DistSym(tb, t));
      LenBitsMean(tb, t.len - MIN_MATCH);
      DistBitsMean(tb, t.dist - 1);
    }
  }

  lemma {:induction false} TokensAppend(tb: CodeTables, ll: seq<nat>, dd: seq<nat>, ts: seq<Token>, t: Token)
    requires CanEncode(tb, ll, dd, ts) && HasCodes(tb, ll, dd, t)
    ensures CanEncode(tb, ll, dd, ts + [t])
    ensures EncodeTokens(tb, ll, dd, ts + [t]) == EncodeTokens(tb, ll, dd, ts) + EncodeToken(tb, ll, dd, t)
    decreases |ts|
  {
    hide HasCodes, EncodeToken;
    var all := ts + [t];
    if ts == [] {
      assert all[1..] == [];
    } else {
      assert all[0] == ts[0] && all[1..] == ts[1..] + [t];
      TokensAppend(tb, ll, dd, ts[1..], t);
    }
  }

  lemma SizeStep(tb: CodeTables, ll: seq<nat>, dd: seq<nat>, ts: seq<Token>, lenL: seq<nat>, lenD: seq<nat>)
    requires ts != [] && TokensOk(ts) && HasCodes(tb, ll, dd, ts[|ts| - 1])
    requires |lenL| >= L_CODES && |lenD| >= D_CODES && ll <= lenL && dd <= lenD
    ensures var front, t := ts[..|ts| - 1], ts[|ts| - 1];
            && TokensOk(front)
            && Cost(LitFreqs(tb, ts), lenL, LIT_EXTRA, L_CODES) + Cost(DistFreqs(tb, ts), lenD, DST_EXTRA, D_CODES)
               == Cost(LitFreqs(tb, front), lenL, LIT_EXTRA, L_CODES)
                   + Cost(DistFreqs(tb, front), lenD, DST_EXTRA, D_CODES)
                  + |EncodeToken(tb, ll, dd, t)|
  {
    hide Cost, Extra.At, EncodeToken, Increment, CodeTables.Valid;
    var front, t := ts[..|ts| - 1], ts[|ts| - 1];
    TokenSize(tb, ll, dd, t);
    BumpCost(LitFreqs(tb, front), lenL, LIT_EXTRA, LitSym(tb, t), L_CODES);
    if t.Match? {
      BumpCost(DistFreqs(tb, front), lenD, DST_EXTRA, DistSym(tb, t), D_CODES);
    }
  }

  /** The size of the body of a block is the sum over the symbols of the two alphabets. */
  lemma {:induction false} BodySize(tb: CodeTables, ll: seq<nat>, dd: seq<nat>, ts: seq<Token>, lenL: seq<nat>,
                                    lenD: seq<nat>)
    requires tb.Valid() && CanEncode(tb, ll, dd, ts) && TokensOk(ts)
    requires |lenL| >= L_CODES && |lenD| >= D_CODES && ll <= lenL && dd <= lenD
    ensures |EncodeBody(tb, ll, dd, ts)|
            == Cost(LitFreqs(tb, ts), lenL, LIT_EXTRA, L_CODES) + Cost(DistFreqs(tb, ts), lenD, DST_EXTRA, D_CODES)
    decreases |ts|
  {
    hide Cost, Extra.At, HasCodes, EncodeToken, CodeTables.Valid, TokenOk, LIT_EXTRA, DST_EXTRA;
    if ts == [] {
      EmptySize(tb, lenL, lenD);
      CodeSize(ll, END_BLOCK);
    } else {
      var front, t := ts[..|ts| - 1], ts[|ts| - 1];
      assert ts == front + [t];
      BodySize(tb, ll, dd, front, lenL, lenD);
      TokensAppend(tb, ll, dd, front, t);
      SizeStep(tb, ll, dd, ts, lenL, lenD);
    }
  }

  lemma EmptySize(tb: CodeTables, lenL: seq<nat>, lenD: seq<nat>)
    requires tb.Valid() && |lenL| >= L_CODES && |lenD| >= D_CODES
    ensures Cost(LitFreqs(tb, []), lenL, LIT_EXTRA, L_CODES) + Cost(DistFreqs(tb, []), lenD, DST_EXTRA, D_CODES)
            == lenL[END_BLOCK]
  {
    hide Cost, CodeTables.Valid;
    ZeroCost(Zeros(L_CODES), lenL, LIT_EXTRA, L_CODES);
    ZeroCost(Zeros(D_CODES), lenD, DST_EXTRA, D_CODES);
    assert LitFreqs(tb, []) == Increment(Zeros(L_CODES), END_BLOCK);
    BumpCost(Zeros(L_CODES), lenL, LIT_EXTRA, END_BLOCK, L_CODES);
  }

  // ----- the symbols that occur -----

  ghost predicate Covers(freq: seq<nat>, lens: seq<nat>)
  {
    forall s | 0 <= s < |freq| && freq[s] != 0 :: s < |lens| && lens[s] > 0
  }

  lemma {:induction false} Counted(tb: CodeTables, ts: seq<Token>, i: nat)
    requires tb.Valid() && TokensOk(ts) && i < |ts|
    ensures LitFreqs(tb, ts)[LitSym(tb, ts[i])] > 0
    ensures ts[i].Match? ==> DistFreqs(tb, ts)[DistSym(tb, ts[i])] > 0
    decreases |ts|
  {
    hide CodeTables.Valid, LitSym, DistSym;
    if i < |ts| - 1 {
      Counted(tb, ts[..|ts| - 1], i);
    }
  }

  lemma {:induction false} EndCounted(tb: CodeTables, ts: seq<Token>)
    requires tb.Valid() && TokensOk(ts)
    ensures LitFreqs(tb, ts)[END_BLOCK] == 1
    decreases |ts|
  {
    hide CodeTables.Valid;
    if ts != [] {
      EndCounted(tb, ts[..|ts| - 1]);
      assert LitSym(tb, ts[|ts| - 1]) != END_BLOCK;
    }
  }

  /** A code for every symbol that occurs is enough to send the block. */
  lemma CoversEnough(tb: CodeTables, ll: seq<nat>, dd: seq<nat>, ts: seq<Token>)
    requires tb.Valid() && TokensOk(ts) && Covers(LitFreqs(tb, ts), ll) && Covers(DistFreqs(tb, ts), dd)
    ensures CanEncode(tb, ll, dd, ts)
  {
    hide CodeTables.Valid, LitFreqs, DistFreqs, LitSym, DistSym;
    EndCounted(tb, ts);
    forall i | 0 <= i < |ts|
      ensures HasCodes(tb, ll, dd, ts[i])
    {
      Counted(tb, ts, i);
    }
  }
}
