/**
 The compressed format of RFC 1951 as a decoder: what a bit string means.
 */
module Inflate {
  import opened Bits
  import opened Canonical
  import opened RunLength
  import opened SendTree

  // ----- sections 3.2.5 and 3.2.7: the alphabets -----

  const END_BLOCK: nat := 256

  const LEN_BASE: seq<nat> := [3, 4, 5, 6, 7, 8, 9, 10, 11, 13, 15, 17, 19, 23, 27, 31, 35, 43, 51, 59, 67, 83, 99,
      115, 131, 163, 195, 227, 258]

  const LEN_EXTRA: seq<nat> := [0, 0, 0, 0, 0, 0, 0, 0, 1, 1, 1, 1, 2, 2, 2, 2, 3, 3, 3, 3, 4, 4, 4, 4, 5, 5, 5, 5, 0]

  const DIST_BASE: seq<nat> := [1, 2, 3, 4, 5, 7, 9, 13, 17, 25, 33, 49, 65, 97, 129, 193, 257, 385, 513, 769, 1025,
      1537, 2049, 3073, 4097, 6145, 8193, 12289, 16385, 24577]

  const DIST_EXTRA: seq<nat> := [0, 0, 0, 0, 1, 1, 2, 2, 3, 3, 4, 4, 5, 5, 6, 6, 7, 7, 8, 8, 9, 9, 10, 10, 11, 11, 12,
      12, 13, 13]

  const BL_ORDER: seq<nat> := [16, 17, 18, 0, 8, 7, 9, 6, 10, 5, 11, 4, 12, 3, 13, 2, 14, 1, 15]

  // ----- bytes and references -----

  datatype Token = Literal(b: byte) | Match(len: nat, dist: nat)

  /** Copy len bytes from dist bytes back, one at a time, so that the copy may overlap itself. */
  function Copy(out: seq<byte>, dist: nat, len: nat): (r: seq<byte>)
    requires 1 <= dist <= |out|
    ensures |r| == |out| + len
    decreases len
  {
    if len == 0 then out else Copy(out + [out[|out| - dist]], dist, len - 1)
  }

  function ExpandToken(out: seq<byte>, t: Token): Option<seq<byte>>
  {
    match t
    case Literal(b) => Some(out + [b])
    case Match(len, dist) => if 1 <= dist <= |out| then Some(Copy(out, dist, len)) else None
  }

  function ExpandTokens(out: seq<byte>, ts: seq<Token>): Option<seq<byte>>
    decreases |ts|
  {
    if ts == [] then Some(out)
    else
      match ExpandToken(out, ts[0])
      case None => None
      case Some(r) => ExpandTokens(r, ts[1..])
  }

  // ----- reading fields -----

  /** The number in the n bits at position pos, least significant bit first. */
  function ReadBits(bits: seq<bool>, pos: nat, n: nat): Option<nat>
  {
    if pos + n <= |bits| then Some(ValueOf(bits[pos..pos + n])) else None
  }

  /** A base value and a number of extra bits: sections 3.2.5. */
  function ReadExtra(bits: seq<bool>, pos: nat, base: nat, n: nat): Option<(nat, nat)>
  {
    match ReadBits(bits, pos, n)
    case None => None
    case Some(v) => Some((base + v, pos + n))
  }

  // ----- the body of a compressed block -----

  /** The next literal or reference, or None for the end of the block. */
  datatype Item = Tok(t: Token, next: nat) | End(next: nat) | Bad

  ghost function ReadDistance(dd: seq<nat>, bits: seq<bool>, pos: nat): Option<(nat, nat)>
  {
    match DecodeSymbol(dd, bits, pos)
    case None => None
    case Some((s, p)) => if s < |DIST_BASE| then ReadExtra(bits, p, DIST_BASE[s], DIST_EXTRA[s]) else None
  }

  /** The rest of a reference whose length symbol is s. */
  ghost function ReadMatch(dd: seq<nat>, bits: seq<bool>, pos: nat, s: nat): (r: Item)
    requires s < |LEN_BASE|
    ensures r.Tok? ==> pos < r.next <= |bits|
    ensures !r.End?
  {
    match ReadExtra(bits, pos, LEN_BASE[s], LEN_EXTRA[s])
    case None => Bad
    case Some((len, q)) =>
      match ReadDistance(dd, bits, q)
      case None => Bad
      case Some((dist, r)) => Tok(Match(len, dist), r)
  }

  ghost function ReadItem(ll: seq<nat>, dd: seq<nat>, bits: seq<bool>, pos: nat): (r: Item)
    ensures !r.Bad? ==> pos < r.next <= |bits|
  {
    match DecodeSymbol(ll, bits, pos)
    case None => Bad
    case Some((s, p)) =>
      if s < 256 then Tok(Literal(s), p)
      else if s == END_BLOCK then End(p)
      else if s - 257 >= |LEN_BASE| then Bad
      else ReadMatch(dd, bits, p, s - 257)
  }

  ghost function DecodeBody(ll: seq<nat>, dd: seq<nat>, bits: seq<bool>, pos: nat,
                            out: seq<byte>): (r: Option<(seq<byte>, nat)>)
    requires pos <= |bits|
    ensures r.Some? ==> pos < r.value.1 <= |bits|
    decreases |bits| - pos
  {
    match ReadItem(ll, dd, bits, pos)
    case Bad => None
    case End(p) => Some((out, p))
    case Tok(t, p) =>
      match ExpandToken(out, t)
      case None => None
      case Some(r) => DecodeBody(ll, dd, bits, p, r)
  }

  // ----- the three kinds of block -----

  /** Section 3.2.4: skip to a byte boundary, then the length, its complement and the bytes. */
  ghost function DecodeStored(bits: seq<bool>, pos: nat, out: seq<byte>): (r: Option<(seq<byte>, nat)>)
    ensures r.Some? ==> pos < r.value.1 <= |bits|
  {
    var p := pos + (8 - pos % 8) % 8;
    if p + 32 > |bits| then None
    else
      var len, nlen := ValueOf(bits[p..p + 16]), ValueOf(bits[p + 16..p + 32]);
      if len + nlen != 0xffff || p + 32 + 8 * len > |bits| then None
      else Some((out + ReadBytes(bits, p + 32, len), p + 32 + 8 * len))
  }

  ghost function ReadBytes(bits: seq<bool>, pos: nat, n: nat): (r: seq<byte>)
    requires pos + 8 * n <= |bits|
    ensures |r| == n
    decreases n
  {
    if n == 0 then []
    else
      var v := ValueOf(bits[pos..pos + 8]);
      ByteRange(bits[pos..pos + 8]);
      [v] + ReadBytes(bits, pos + 8, n - 1)
  }

  lemma ByteRange(b: seq<bool>)
    requires |b| == 8
    ensures ValueOf(b) < 256
  {
    Pow2Values();
  }

  /** Section 3.2.6: the fixed codes. */
  function FixedLitLens(): seq<nat>
  {
    Repeat(8, 144) + Repeat(9, 112) + Repeat(7, 24) + Repeat(8, 8)
  }

  function FixedDistLens(): seq<nat>
  {
    Repeat(5, 32)
  }

  /** Section 3.2.7: the code lengths of the code length alphabet, in their own order. */
  ghost function ReadBlLens(bits: seq<bool>, pos: nat, n: nat, lens: seq<nat>, rank: nat): seq<nat>
    requires rank <= n <= |BL_ORDER| && |lens| == BL_CODES && pos + 3 * (n - rank) <= |bits|
    decreases n - rank
  {
    if rank == n then lens
    else ReadBlLens(bits, pos + 3, n, lens[BL_ORDER[rank] := ValueOf(bits[pos..pos + 3])], rank + 1)
  }

  ghost function DecodeDynamic(bits: seq<bool>, pos: nat, out: seq<byte>): (r: Option<(seq<byte>, nat)>)
    ensures r.Some? ==> pos < r.value.1 <= |bits|
  {
    if pos + 14 > |bits| then None
    else
      var hlit := ValueOf(bits[pos..pos + 5]) + 257;
      var hdist := ValueOf(bits[pos + 5..pos + 10]) + 1;
      var hclen := ValueOf(bits[pos + 10..pos + 14]) + 4;
      var p := pos + 14;
      if hclen > |BL_ORDER| || p + 3 * hclen > |bits| then None
      else
        var bl := ReadBlLens(bits, p, hclen, Repeat(0, BL_CODES), 0);
        match DecodeLens(bl, bits, p + 3 * hclen, hlit + hdist, [])
        case None => None
        case Some((lens, q)) =>
          if |lens| != hlit + hdist || q > |bits| || q < pos then None
          else DecodeBody(lens[..hlit], lens[hlit..], bits, q, out)
  }

  /** Section 3.2.3: one block; the result says whether it was the last one. */
  ghost function DecodeBlock(bits: seq<bool>, pos: nat, out: seq<byte>): (r: Option<(bool, seq<byte>, nat)>)
    ensures r.Some? ==> pos < r.value.2 <= |bits|
  {
    if pos + 3 > |bits| then None
    else
      var kind := ValueOf(bits[pos + 1..pos + 3]);
      var body :=
        if kind == 0 then DecodeStored(bits, pos + 3, out)
        else if kind == 1 then DecodeBody(FixedLitLens(), FixedDistLens(), bits, pos + 3, out)
        else if kind == 2 then DecodeDynamic(bits, pos + 3, out)
        else None;
      match body
      case None => None
      case Some((r, p)) => Some((bits[pos], r, p))
  }

  /** A whole stream: blocks up to and including the one marked as the last. */
  ghost function DecodeStream(bits: seq<bool>, pos: nat, out: seq<byte>): Option<(seq<byte>, nat)>
    requires pos <= |bits|
    decreases |bits| - pos
  {
    match DecodeBlock(bits, pos, out)
    case None => None
    case Some((last, r, p)) => if last then Some((r, p)) else DecodeStream(bits, p, r)
  }
}
