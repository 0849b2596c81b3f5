/**
 The tables that ct_init fills: from match lengths and distances to their
 codes.  They are checked against the tables of section 3.2.5 of RFC 1951.
 */
module Tables {
  import opened Bits
  import opened Inflate

  const LENGTH_CODES: nat := 29
  const D_CODES: nat := 30
  const MIN_MATCH: nat := 3
  const MAX_MATCH: nat := 258
  const LITERALS: nat := 256

  // ----- closed forms of the tables of the RFC -----

  function LenExtra(c: nat): nat
  {
    if c < 8 || c >= 28 then 0 else c / 4 - 1
  }

  /** First normalized length of code c, counted from zero; 256 after the last regular code. */
  function LenStart(c: nat): nat
  {
    if c < 8 then c else (4 + c % 4) * Pow2(c / 4 - 1)
  }

  function DistExtra(c: nat): nat
  {
    if c < 4 then 0 else c / 2 - 1
  }

  /** First normalized distance of code c, counted from zero. */
  function DistStart(c: nat): nat
  {
    if c < 4 then c else (2 + c % 2) * Pow2(c / 2 - 1)
  }

  lemma LenTable(c: nat)
    requires c < LENGTH_CODES
    ensures |LEN_BASE| == |LEN_EXTRA| == LENGTH_CODES
    ensures LEN_EXTRA[c] == LenExtra(c)
    ensures LEN_BASE[c] == if c == 28 then 258 else LenStart(c) + 3
  {
    Pow2Values();
    if c < 8 {
    } else if c < 16 {
      LenTableLow(c);
    } else {
      LenTableHigh(c);
    }
  }

  lemma LenTableLow(c: nat)
    requires 8 <= c < 16
    ensures LEN_EXTRA[c] == c / 4 - 1 && LEN_BASE[c] == (4 + c % 4) * Pow2(c / 4 - 1) + 3
  {
    Pow2Values();
    assert c == 8 || c == 9 || c == 10 || c == 11 || c == 12 || c == 13 || c == 14 || c == 15;
  }

  lemma LenTableHigh(c: nat)
    requires 16 <= c < 29
    ensures LEN_EXTRA[c] == LenExtra(c) && LEN_BASE[c] == if c == 28 then 258 else (4 + c % 4) * Pow2(c / 4 - 1) + 3
  {
    Pow2Values();
    assert c == 16 || c == 17 || c == 18 || c == 19 || c == 20 || c == 21 || c == 22 || c == 23
        || c == 24 || c == 25 || c == 26 || c == 27 || c == 28;
  }

  lemma DistTable(c: nat)
    requires c < D_CODES
    ensures |DIST_BASE| == |DIST_EXTRA| == D_CODES
    ensures DIST_EXTRA[c] == DistExtra(c) && DIST_BASE[c] == DistStart(c) + 1
  {
    if c < 4 {
    } else if c < 16 {
      DistTableLow(c);
    } else {
      DistTableHigh(c);
    }
  }

  lemma DistTableLow(c: nat)
    requires 4 <= c < 16
    ensures DIST_EXTRA[c] == c / 2 - 1 && DIST_BASE[c] == (2 + c % 2) * Pow2(c / 2 - 1) + 1
  {
    Pow2Values();
    assert c == 4 || c == 5 || c == 6 || c == 7 || c == 8 || c == 9 || c == 10 || c == 11 || c == 12 || c == 13
           || c == 14 || c == 15;
  }

  lemma DistTableHigh(c: nat)
    requires 16 <= c < 30
    ensures DIST_EXTRA[c] == c / 2 - 1 && DIST_BASE[c] == (2 + c % 2) * Pow2(c / 2 - 1) + 1
  {
    Pow2Values();
    Pow2Add(8, 1);
    Pow2Add(8, 2);
    Pow2Add(8, 3);
    Pow2Add(8, 4);
    Pow2Add(8, 5);
    assert c == 16 || c == 17 || c == 18 || c == 19 || c == 20 || c == 21 || c == 22 || c == 23
        || c == 24 || c == 25 || c == 26 || c == 27 || c == 28 || c == 29;
  }

  /** Consecutive codes cover consecutive ranges. */
  lemma LenNext(c: nat)
    requires c < 28
    ensures LenStart(c + 1) == LenStart(c) + Pow2(LenExtra(c)) <= 256
  {
    LenStartBound(c + 1);
    if c >= 8 {
      LenNextHigh(c / 4, c % 4);
      assert c % 4 == 3 ==> (c + 1) / 4 == c / 4 + 1 && (c + 1) % 4 == 0;
      assert c % 4 < 3 ==> (c + 1) / 4 == c / 4 && (c + 1) % 4 == c % 4 + 1;
    } else if c == 7 {
      assert 8 / 4 == 2 && 8 % 4 == 0;
    }
  }

  lemma LenNextHigh(q: nat, r: nat)
    requires q >= 1 && r < 4
    ensures r == 3 ==> (4 + 0) * Pow2(q + 1 - 1) == (4 + r) * Pow2(q - 1) + Pow2(q - 1)
    ensures (4 + (r + 1)) * Pow2(q - 1) == (4 + r) * Pow2(q - 1) + Pow2(q - 1)
  {
    assert Pow2(q) == 2 * Pow2(q - 1);
    NextBlock(4 + r, Pow2(q - 1));
  }

  lemma NextBlock(k: nat, p: nat)
    ensures (k + 1) * p == k * p + p
  {}

  lemma LenStartBound(c: nat)
    requires c <= 28
    ensures LenStart(c) <= 256
  {
    Pow2Values();
    if c >= 8 {
      var q, r := c / 4, c % 4;
      Pow2Mono(q - 1, 6);
      if q == 7 {
        assert r == 0;
      } else {
        Pow2Mono(q - 1, 5);
        Product(4 + r, 8, Pow2(q - 1), 32);
      }
    }
  }

  lemma Product(a: nat, b: nat, p: nat, q: nat)
    requires a <= b && p <= q
    ensures a * p <= b * q
  {
    assert a * p <= b * p;
    assert b * p <= b * q;
  }

  lemma DistNext(c: nat)
    requires c < 30
    ensures DistStart(c + 1) == DistStart(c) + Pow2(DistExtra(c))
  {
    if c >= 4 {
      var q, r := c / 2, c % 2;
      if r == 1 {
        assert (c + 1) / 2 == q + 1 && (c + 1) % 2 == 0;
        assert Pow2(q) == 2 * Pow2(q - 1);
      } else {
        assert (c + 1) / 2 == q && (c + 1) % 2 == 1;
      }
      NextBlock(2 + r, Pow2(q - 1));
    } else if c == 3 {
      assert 4 / 2 == 2 && 4 % 2 == 0;
    }
  }

  /** From code 16 on, distances are handled in units of 128. */
  function DistUnits(c: nat): nat
    requires c >= 16
  {
    (2 + c % 2) * Pow2(c / 2 - 8)
  }

  lemma DistInUnits(c: nat)
    requires 16 <= c <= 30
    ensures DistStart(c) == 128 * DistUnits(c) && DistExtra(c) >= 7
    ensures Pow2(DistExtra(c)) == 128 * Pow2(DistExtra(c) - 7)
    ensures c < 30 ==> DistUnits(c + 1) == DistUnits(c) + Pow2(DistExtra(c) - 7)
  {
    hide Pow2, DistStart, DistUnits;
    UnitsOf(c);
    if c < 30 {
      DistNext(c);
      UnitsOf(c + 1);
    }
  }

  lemma UnitsOf(c: nat)
    requires c >= 16
    ensures DistStart(c) == 128 * DistUnits(c) && DistExtra(c) >= 7
    ensures Pow2(DistExtra(c)) == 128 * Pow2(DistExtra(c) - 7)
  {
    hide Pow2;
    Pow2Values();
    Pow2Add(7, c / 2 - 8);
    Regroup(2 + c % 2, Pow2(c / 2 - 8));
  }

  lemma Regroup(a: nat, p: nat)
    ensures a * (128 * p) == 128 * (a * p)
  {}

  lemma DistEnds()
    ensures DistStart(16) == 256 && DistUnits(16) == 2 && DistUnits(30) == 256
  {
    Pow2Values();
  }

  lemma {:induction false} DistUnitsMono(c: nat, d: nat)
    requires 16 <= c <= d <= 30
    ensures DistUnits(c) <= DistUnits(d)
  {
    if c < d {
      DistInUnits(d - 1);
      DistUnitsMono(c, d - 1);
    }
  }

  lemma {:induction false} DistStartMono(c: nat, d: nat)
    requires c <= d <= 30
    ensures DistStart(c) <= DistStart(d)
  {
    if c < d {
      DistNext(d - 1);
      DistStartMono(c, d - 1);
    }
  }

  // ----- the tables -----

  /** Normalized length l belongs to code c. */
  ghost predicate LenIn(c: nat, l: nat)
  {
    c < 28 && LenStart(c) <= l < LenStart(c) + Pow2(LenExtra(c))
  }

  /** Normalized distance d belongs to code c. */
  ghost predicate DistIn(c: nat, d: nat)
  {
    c < D_CODES && DistStart(c) <= d < DistStart(c) + Pow2(DistExtra(c))
  }

  datatype CodeTables = CodeTables(lengthCode: seq<nat>, baseLength: seq<nat>, distCode: seq<nat>, baseDist: seq<nat>) {

    /** Mapping from a distance minus one to a distance code. */
    function DCode(d: nat): nat
      requires d < 0x8000 && |distCode| == 512
    {
      if d < 256 then distCode[d] else distCode[256 + d / 128]
    }

    ghost predicate Valid()
    {
      && |lengthCode| == 256 && |baseLength| == LENGTH_CODES && |distCode| == 512 && |baseDist| == D_CODES
      && lengthCode[255] == 28
      && (forall l | 0 <= l < 255 :: LenIn(lengthCode[l], l))
      && (forall c | 0 <= c < 28 :: baseLength[c] == LenStart(c))
      && (forall d | 0 <= d < 0x8000 :: DistIn(DCode(d), d))
      && (forall c | 0 <= c < D_CODES :: baseDist[c] == DistStart(c))
    }
  }

  /** Fill in the codes of one range: the inner loops of ct_init. */
  method FillCodes(table: array<nat>, from: nat, n: nat, code: nat)
    requires from + n <= table.Length
    modifies table
    ensures forall i | 0 <= i < table.Length :: table[i] == if from <= i < from + n then code else old(table[i])
  {
    var k := 0;
    while k < n
      invariant k <= n
      invariant forall i | 0 <= i < table.Length :: table[i] == if from <= i < from + k then code else old(table[i])
    {
      table[from + k] := code;
      k := k + 1;
    }
  }

  /** Initialize the mapping from normalized lengths to length codes. */
  method InitLengths() returns (lengthCode: array<nat>, baseLength: array<nat>)
    ensures fresh(lengthCode) && fresh(baseLength) && lengthCode.Length == 256 && baseLength.Length == LENGTH_CODES
    ensures lengthCode[255] == 28 && (forall l | 0 <= l < 255 :: LenIn(lengthCode[l], l))
    ensures forall c | 0 <= c < 28 :: baseLength[c] == LenStart(c)
  {
    hide LenStart, Pow2, LenExtra;
    lengthCode, baseLength := new nat[256](_ => 0), new nat[LENGTH_CODES](_ => 0);
    var length, code := 0, 0;
    assert LenStart(0) == 0 by { LenZero(); }
    while code < LENGTH_CODES - 1
      invariant 0 <= code <= LENGTH_CODES - 1 && length == LenStart(code) <= 256
      invariant forall c | 0 <= c < code :: baseLength[c] == LenStart(c)
      invariant forall l | 0 <= l < length :: LenIn(lengthCode[l], l)
    {
      baseLength[code] := length;
      LenNext(code);
      LenTable(code);
      FillCodes(lengthCode, length, Pow2(LEN_EXTRA[code]), code);
      length := length + Pow2(LEN_EXTRA[code]);
      code := code + 1;
    }
    assert length == 256 by { LenTop(); }
    lengthCode[length - 1] := code;
  }

  lemma LenZero()
    ensures LenStart(0) == 0
  {}

  lemma LenTop()
    ensures LenStart(28) == 256
  {
    Pow2Values();
    assert 28 / 4 == 7 && 28 % 4 == 0;
  }

  /** The distance codes written so far. */
  ghost predicate DistsTo(distCode: seq<nat>, baseDist: seq<nat>, code: nat)
  {
    && |distCode| == 512 && |baseDist| == D_CODES && code <= D_CODES
    && (forall c | 0 <= c < code :: baseDist[c] == DistStart(c))
    && (forall d | 0 <= d < 256 && d < DistStart(code) :: DistIn(distCode[d], d))
    && (code >= 16 ==> forall i | 258 <= i < 512 && i - 256 < DistUnits(code) :: UnitIn(distCode[i], i - 256))
  }

  /** The whole unit of 128 distances belongs to code c. */
  ghost predicate UnitIn(c: nat, u: nat)
  {
    16 <= c < D_CODES && DistUnits(c) <= u < DistUnits(c) + Pow2(DistExtra(c) - 7)
  }

  lemma UnitMeans(c: nat, d: nat)
    requires UnitIn(c, d / 128)
    ensures DistIn(c, d)
  {
    hide Pow2, DistUnits, DistStart, DistExtra;
    DistInUnits(c);
  }

  /** Initialize the mapping from normalized distances to distance codes. */
  method InitDistances() returns (distCode: array<nat>, baseDist: array<nat>)
    ensures fresh(distCode) && fresh(baseDist) && distCode.Length == 512 && baseDist.Length == D_CODES
    ensures DistsTo(distCode[..], baseDist[..], D_CODES)
  {
    hide DistStart, Pow2, DistExtra, DistUnits, DistsTo;
    distCode, baseDist := new nat[512](_ => 0), new nat[D_CODES](_ => 0);
    var dist, code := 0, 0;
    DistsNone(distCode[..], baseDist[..]);
    DistEnds();
    while code < 16
      invariant 0 <= code <= 16 && dist == DistStart(code) <= 256
      invariant DistsTo(distCode[..], baseDist[..], code)
    {
      ghost var dc, bd := distCode[..], baseDist[..];
      baseDist[code] := dist;
      DistNext(code);
      DistTable(code);
      DistStartMono(code + 1, 16);
      FillCodes(distCode, dist, Pow2(DIST_EXTRA[code]), code);
      DistsStepLow(dc, bd, code, distCode[..], baseDist[..]);
      dist := dist + Pow2(DIST_EXTRA[code]);
      code := code + 1;
    }
    dist := dist / 128;
    while code < D_CODES
      invariant 16 <= code <= D_CODES && dist == DistUnits(code) <= 256
      invariant DistsTo(distCode[..], baseDist[..], code)
    {
      ghost var dc, bd := distCode[..], baseDist[..];
      baseDist[code] := dist * 128;
      DistInUnits(code);
      DistTable(code);
      DistUnitsMono(code + 1, 30);
      FillCodes(distCode, 256 + dist, Pow2(DIST_EXTRA[code] - 7), code);
      DistsStepHigh(dc, bd, code, distCode[..], baseDist[..]);
      dist := dist + Pow2(DIST_EXTRA[code] - 7);
      code := code + 1;
    }
  }

  lemma DistsNone(distCode: seq<nat>, baseDist: seq<nat>)
    requires |distCode| == 512 && |baseDist| == D_CODES
    ensures DistsTo(distCode, baseDist, 0) && DistStart(0) == 0
  {}

  lemma DistsStepLow(dc: seq<nat>, bd: seq<nat>, code: nat, dc': seq<nat>, bd': seq<nat>)
    requires DistsTo(dc, bd, code) && code < 16 && |dc'| == 512 && bd' == bd[code := DistStart(code)]
    requires forall i | 0 <= i < 512 ::
               dc'[i] == if DistStart(code) <= i < DistStart(code) + Pow2(DistExtra(code)) then code else dc[i]
    ensures DistsTo(dc', bd', code + 1)
  {
    hide DistStart, Pow2, DistExtra, DistUnits;
    DistNext(code);
    DistEnds();
  }

  lemma DistsStepHigh(dc: seq<nat>, bd: seq<nat>, code: nat, dc': seq<nat>, bd': seq<nat>)
    requires 16 <= code < D_CODES && DistsTo(dc, bd, code) && |dc'| == 512 && bd' == bd[code := DistStart(code)]
    requires DistExtra(code) >= 7
    requires forall i | 0 <= i < 512 ::
               dc'[i] == if 256 + DistUnits(code) <= i < 256 + DistUnits(code) + Pow2(DistExtra(code) - 7) then code
                         else dc[i]
    ensures DistsTo(dc', bd', code + 1)
  {
    hide DistStart, Pow2, DistExtra, DistUnits;
    DistInUnits(code);
    DistEnds();
    DistUnitsMono(16, code);
    DistStartMono(16, code);
  }

  lemma DistsDone(distCode: seq<nat>, baseDist: seq<nat>, t: CodeTables, d: nat)
    requires DistsTo(distCode, baseDist, D_CODES) && t.distCode == distCode && d < 0x8000
    ensures DistIn(t.DCode(d), d)
  {
    hide DistStart, Pow2, DistExtra, DistUnits;
    DistEnds();
    DistStartMono(16, 30);
    if d >= 256 {
      assert 2 <= d / 128 < 256;
      UnitMeans(distCode[256 + d / 128], d);
    }
  }

  /** The table part of ct_init. */
  method InitTables() returns (t: CodeTables)
    ensures t.Valid()
  {
    hide DistsTo, DistIn, LenIn, LenStart, DistStart;
    var lengthCode, baseLength := InitLengths();
    var distCode, baseDist := InitDistances();
    t := CodeTables(lengthCode[..], baseLength[..], distCode[..], baseDist[..]);
    forall d | 0 <= d < 0x8000
      ensures DistIn(t.DCode(d), d)
    {
      DistsDone(t.distCode, t.baseDist, t, d);
    }
    DistsBase(t.distCode, t.baseDist);
  }

  lemma DistsBase(distCode: seq<nat>, baseDist: seq<nat>)
    requires DistsTo(distCode, baseDist, D_CODES)
    ensures |baseDist| == D_CODES && forall c | 0 <= c < D_CODES :: baseDist[c] == DistStart(c)
  {}
}
