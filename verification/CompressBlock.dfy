/**
 compress_block: the tokens of a block, sent with the codes of two trees.
 */
module CompressBlock {
  import opened Bits
  import opened Canonical
  import opened Inflate
  import opened Tables
  import opened BlockCode
  import TB = TokenBuffer
  import BW = BitWriter

  /** Send the code of one symbol. */
  method SendCode(w: BW.BitWriter, fc: seq<nat>, dl: seq<nat>, c: nat, n: nat, ghost lens: seq<nat>)
    requires w.Valid() && TB.CodesTo(lens, n, fc, dl) && c < n && c < |lens| && lens[c] > 0
    modifies w, w.outbuf
    ensures w.Valid() && w.Stream() == old(w.Stream()) + CodeBits(lens, c)
  {
    hide CodeBits, BitsOf, Pow2;
    w.SendBits(fc[c], dl[c]);
  }

  /** Send the extra bits of a length, if it has any. */
  method SendLenExtra(w: BW.BitWriter, tb: CodeTables, lc: byte)
    requires w.Valid() && tb.Valid()
    modifies w, w.outbuf
    ensures w.Valid() && w.Stream() == old(w.Stream()) + LenBits(tb, lc)
  {
    hide BitsOf, Pow2, CodeTables.Valid, LEN_EXTRA;
    TablesSized(tb);
    LenExtraFits(tb, lc);
    var code := tb.lengthCode[lc];
    var extra := LEN_EXTRA[code];
    if extra != 0 {
      w.SendBits(lc - tb.baseLength[code], extra);
    }
  }

  lemma LenExtraFits(tb: CodeTables, lc: byte)
    requires tb.Valid()
    ensures var c := tb.lengthCode[lc];
            && c < LENGTH_CODES == |LEN_EXTRA| && LEN_EXTRA[c] <= 5
            && (LEN_EXTRA[c] != 0 ==> 0 <= lc - tb.baseLength[c] < Pow2(LEN_EXTRA[c]))
  {
    hide LenStart, LenExtra, Pow2;
    var c := tb.lengthCode[lc];
    LenTable(c);
    assert lc < 255 ==> LenIn(c, lc);
  }

  method SendDistExtra(w: BW.BitWriter, tb: CodeTables, d: nat)
    requires w.Valid() && tb.Valid() && d < 0x8000
    modifies w, w.outbuf
    ensures w.Valid() && w.Stream() == old(w.Stream()) + DistBits(tb, d)
  {
    hide BitsOf, Pow2, CodeTables.Valid, CodeTables.DCode, DIST_EXTRA;
    TablesSized(tb);
    DistExtraFits(tb, d);
    var code := tb.DCode(d);
    var extra := DIST_EXTRA[code];
    if extra != 0 {
      w.SendBits(d - tb.baseDist[code], extra);
    }
  }

  lemma DistExtraFits(tb: CodeTables, d: nat)
    requires tb.Valid() && d < 0x8000
    ensures var c := tb.DCode(d);
            && c < D_CODES == |DIST_EXTRA| && DIST_EXTRA[c] <= 13
            && (DIST_EXTRA[c] != 0 ==> 0 <= d - tb.baseDist[c] < Pow2(DIST_EXTRA[c]))
  {
    hide DistStart, DistExtra, Pow2;
    var c := tb.DCode(d);
    assert DistIn(c, d);
    DistTable(c);
  }

  /** Send a reference: the length, its extra bits, the distance and its extra bits. */
  method SendMatch(w: BW.BitWriter, tb: CodeTables, lFc: seq<nat>, lDl: seq<nat>, dFc: seq<nat>, dDl: seq<nat>,
                   lc: byte, d: nat,
                   ghost ll: seq<nat>, ghost dd: seq<nat>)
    requires w.Valid() && TB.CodesTo(ll, L_CODES, lFc, lDl) && TB.CodesTo(dd, D_CODES, dFc, dDl) && d < 0x8000
    requires HasCodes(tb, ll, dd, Match(lc + MIN_MATCH, d + 1))
    modifies w, w.outbuf
    ensures w.Valid() && w.Stream() == old(w.Stream()) + EncodeToken(tb, ll, dd, Match(lc + MIN_MATCH, d + 1))
  {
    hide CodeBits, LenBits, DistBits, TB.CodesTo, CodeTables.Valid, CodeTables.DCode;
    ghost var t := Match(lc + MIN_MATCH, d + 1);
    TablesSized(tb);
    LenExtraFits(tb, lc);
    SendCode(w, lFc, lDl, tb.lengthCode[lc] + LITERALS + 1, L_CODES, ll);
    SendLenExtra(w, tb, lc);
    ghost var mid := w.Stream();
    DistExtraFits(tb, d);
    SendCode(w, dFc, dDl, tb.DCode(d), D_CODES, dd);
    SendDistExtra(w, tb, d);
    assert w.Stream() == old(w.Stream()) + EncodeToken(tb, ll, dd, t) by {
      Join4(old(w.Stream()), CodeBits(ll, LitSym(tb, t)), LenBits(tb, lc), CodeBits(dd, DistSym(tb, t)),
          DistBits(tb, d));
    }
  }

  lemma Join4(s: seq<bool>, a: seq<bool>, b: seq<bool>, c: seq<bool>, d: seq<bool>)
    ensures s + a + b + c + d == s + (a + (b + (c + d)))
  {}

  lemma TokensNext(tb: CodeTables, ll: seq<nat>, dd: seq<nat>, ts: seq<Token>, i: nat, s: seq<bool>)
    requires CanEncode(tb, ll, dd, ts) && i < |ts|
    ensures HasCodes(tb, ll, dd, ts[i]) && CanEncode(tb, ll, dd, ts[..i]) && CanEncode(tb, ll, dd, ts[..i + 1])
    ensures s + EncodeTokens(tb, ll, dd, ts[..i]) + EncodeToken(tb, ll, dd, ts[i]) == s
            + EncodeTokens(tb, ll, dd, ts[..i + 1])
  {
    hide HasCodes, EncodeToken, EncodeTokens;
    assert ts[..i + 1] == ts[..i] + [ts[i]];
    TokensAppend(tb, ll, dd, ts[..i], ts[i]);
  }

  /** The flag byte in use while the token before lx is sent, after its shift. */
  ghost predicate FlagAt(m: seq<bool>, lx: nat, fx: nat, flag: nat)
  {
    && lx <= |m| && fx == (lx + 7) / 8
    && (lx % 8 != 0 ==> flag == ValueOf(TB.ByteBits(m, fx - 1)[lx - 8 * (fx - 1)..]))
  }

  lemma FlagRead(m: seq<bool>, buf: seq<byte>, lx: nat, fx: nat, flag: nat)
    requires FlagAt(m, lx, fx, flag) && TB.FlagsDone(m, buf) && lx < |m|
    ensures lx % 8 == 0 ==> fx < |buf|
    ensures var f := if lx % 8 == 0 then buf[fx] else flag;
            var g := if lx % 8 == 0 then fx + 1 else fx;
            (f % 2 == 0 <==> !m[lx]) && FlagAt(m, lx + 1, g, f / 2)
  {
    hide ValueOf, TB.ByteBits;
    var f := if lx % 8 == 0 then buf[fx] else flag;
    var k := lx / 8;
    TB.FlagRest(m, lx, k);
    TB.FlagLow(TB.ByteBits(m, k)[lx - 8 * k..]);
  }

  /** Send one token, as it was read from the buffers. */
  method SendToken(w: BW.BitWriter, tb: CodeTables, lFc: seq<nat>, lDl: seq<nat>, dFc: seq<nat>, dDl: seq<nat>,
                   matched: bool, lc: byte, d: nat,
                   ghost t: Token, ghost ll: seq<nat>, ghost dd: seq<nat>)
    requires w.Valid() && TB.CodesTo(ll, L_CODES, lFc, lDl) && TB.CodesTo(dd, D_CODES, dFc, dDl)
    requires HasCodes(tb, ll, dd, t) && t == if matched then Match(lc + MIN_MATCH, d + 1) else Literal(lc)
    modifies w, w.outbuf
    ensures w.Valid() && w.Stream() == old(w.Stream()) + EncodeToken(tb, ll, dd, t)
  {
    hide TB.CodesTo, HasCodes, EncodeToken, CodeBits;
    SymbolOk(tb, ll, dd, t);
    if !matched {
      SendCode(w, lFc, lDl, lc, L_CODES, ll);
    } else {
      SendMatch(w, tb, lFc, lDl, dFc, dDl, lc, d, ll, dd);
    }
  }

  /** The reading positions before token lx is read. */
  ghost predicate Reading(ts: seq<Token>, lx: nat, dx: nat, fx: nat, flag: nat)
  {
    lx <= |ts| && TokensOk(ts[..lx]) && dx == |TB.Dists(ts[..lx])| && FlagAt(TB.MatchBits(ts), lx, fx, flag)
  }

  /** Read token lx from the buffers. */
  method ReadToken(b: TB.TokenBuffer, lx: nat, dx0: nat, fx0: nat, flag0: nat)
    returns (matched: bool, lc: byte, d: nat, dx: nat, fx: nat, flag: nat)
    requires TB.Stored(b.tokens, b.lBuf[..], b.dBuf[..]) && TB.FlagsDone(TB.MatchBits(b.tokens), b.flagBuf[..])
    requires lx < |b.tokens| && Reading(b.tokens, lx, dx0, fx0, flag0)
    ensures b.tokens[lx] == if matched then Match(lc + MIN_MATCH, d + 1) else Literal(lc)
    ensures Reading(b.tokens, lx + 1, dx, fx, flag)
  {
    hide TB.Stored, TB.FlagsDone, FlagAt, TB.Dists, TB.MatchBits, TB.LitByte, TokenOk;
    ghost var ts := b.tokens;
    TB.StoredAt(ts, b.lBuf[..], b.dBuf[..], lx);
    FlagRead(TB.MatchBits(ts), b.flagBuf[..], lx, fx0, flag0);
    dx, fx, flag := dx0, fx0, flag0;
    if lx % 8 == 0 {
      flag := b.flagBuf[fx];
      fx := fx + 1;
    }
    lc := b.lBuf[lx];
    TokenRead(ts, lx, lc);
    matched := flag % 2 != 0;
    d := 0;
    if matched {
      d := b.dBuf[dx];
      dx := dx + 1;
    }
    flag := flag / 2;
  }

  /** compress_block */
  method CompressBlock(b: TB.TokenBuffer, w: BW.BitWriter, tb: CodeTables, lFc: seq<nat>, lDl: seq<nat>, dFc: seq<nat>,
                       dDl: seq<nat>,
                       ghost ll: seq<nat>, ghost dd: seq<nat>)
    requires b.lastLit == |b.tokens| && TB.Stored(b.tokens, b.lBuf[..], b.dBuf[..])
    requires TB.FlagsDone(TB.MatchBits(b.tokens), b.flagBuf[..])
    requires w.Valid() && {w as object, w.outbuf} !! b.Repr()
    requires TB.CodesTo(ll, L_CODES, lFc, lDl) && TB.CodesTo(dd, D_CODES, dFc, dDl)
    requires CanEncode(tb, ll, dd, b.tokens)
    modifies w, w.outbuf
    ensures w.Valid() && w.Stream() == old(w.Stream()) + EncodeBody(tb, ll, dd, b.tokens)
  {
    hide TB.Stored, TB.FlagsDone, TB.CodesTo, CanEncode, HasCodes, EncodeToken, EncodeTokens, CodeBits, Reading,
         TB.MatchBits, BW.BitWriter.Valid, BW.BitWriter.Stream;
    ghost var ts, s := b.tokens, w.Stream();
    var lx, dx, fx, flag := 0, 0, 0, 0;
    NothingSent(tb, ll, dd, ts, s);
    while lx < b.lastLit
      invariant 0 <= lx <= |ts| && w.Valid() && Reading(ts, lx, dx, fx, flag)
      invariant CanEncode(tb, ll, dd, ts[..lx]) && w.Stream() == s + EncodeTokens(tb, ll, dd, ts[..lx])
    {
      var matched, lc, d;
      TokensNext(tb, ll, dd, ts, lx, s);
      matched, lc, d, dx, fx, flag := ReadToken(b, lx, dx, fx, flag);
      SendToken(w, tb, lFc, lDl, dFc, dDl, matched, lc, d, ts[lx], ll, dd);
      lx := lx + 1;
    }
    assert ts[..lx] == ts;
    EndOk(tb, ll, dd, ts);
    SendCode(w, lFc, lDl, END_BLOCK, L_CODES, ll);
  }

  lemma NothingSent(tb: CodeTables, ll: seq<nat>, dd: seq<nat>, ts: seq<Token>, s: seq<bool>)
    requires CanEncode(tb, ll, dd, ts)
    ensures ts[..0] == [] && CanEncode(tb, ll, dd, []) && s == s + EncodeTokens(tb, ll, dd, [])
            && Reading(ts, 0, 0, 0, 0)
  {
    hide HasCodes;
  }

  lemma TokenRead(ts: seq<Token>, i: nat, lc: byte)
    requires i < |ts| && TokenOk(ts[i]) && lc == TB.LitByte(ts[i])
    ensures TB.MatchBits(ts)[i] == ts[i].Match?
    ensures ts[i] == if ts[i].Match? then Match(lc + MIN_MATCH, ts[i].dist) else Literal(lc)
    ensures ts[i].Match? ==> 1 <= ts[i].dist <= 0x8000
  {}

  lemma SymbolOk(tb: CodeTables, ll: seq<nat>, dd: seq<nat>, t: Token)
    requires HasCodes(tb, ll, dd, t)
    ensures TokenOk(t)
    ensures t.Literal? ==> t.b < |ll| && ll[t.b] > 0 && EncodeToken(tb, ll, dd, t) == CodeBits(ll, t.b)
  {
    hide CodeBits, CodeTables.Valid;
  }

  lemma EndOk(tb: CodeTables, ll: seq<nat>, dd: seq<nat>, ts: seq<Token>)
    requires CanEncode(tb, ll, dd, ts)
    ensures END_BLOCK < |ll| && ll[END_BLOCK] > 0
  {
    hide HasCodes;
  }
}
