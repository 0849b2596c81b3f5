/**
 The three kinds of block, as bits appended to a stream, and what a decoder
 makes of them: section 3.2.3 of RFC 1951.
 */
module Blocks {
  import opened Bits
  import opened Canonical
  import opened RunLength
  import opened SendTree
  import opened Inflate
  import opened Tables
  import opened BlockCode
  import opened DynHeader
  import ST = StaticTrees
  import BW = BitWriter

  const STORED_BLOCK: nat := 0
  const STATIC_TREES: nat := 1
  const DYN_TREES: nat := 2

  /** The bits after `before` are one block that turns out into res, whatever follows it. */
  ghost predicate Block(before: seq<bool>, after: seq<bool>, last: bool, out: seq<byte>, res: seq<byte>)
  {
    forall bits | after <= bits :: DecodeBlock(bits, |before|, out) == Some((last, res, |after|))
  }

  function TypeBits(kind: nat, last: bool): seq<bool>
  {
    BitsOf(2 * kind + (if last then 1 else 0), 3)
  }

  lemma PrefixField(before: seq<bool>, f: seq<bool>, bits: seq<bool>)
    requires before + f <= bits
    ensures FieldAt(bits, |before|, f)
  {
    assert bits[..|before + f|] == before + f;
    assert bits[|before|..|before| + |f|] == bits[..|before + f|][|before|..];
  }

  lemma TypeSplit(kind: nat, last: bool)
    requires kind < 4
    ensures TypeBits(kind, last) == [last] + BitsOf(kind, 2) && |TypeBits(kind, last)| == 3
  {
    hide BitsOf;
    var v := 2 * kind + (if last then 1 else 0);
    BitsOfCons(v, 3);
  }

  lemma TypeRead(kind: nat, last: bool, bits: seq<bool>, pos: nat)
    requires kind < 4 && FieldAt(bits, pos, TypeBits(kind, last))
    ensures pos + 3 <= |bits| && bits[pos] == last && ValueOf(bits[pos + 1..pos + 3]) == kind
  {
    hide BitsOf, ValueOf, Pow2, TypeBits;
    TypeSplit(kind, last);
    FieldSplit(bits, pos, [last], BitsOf(kind, 2));
    assert bits[pos] == bits[pos..pos + 1][0];
    Pow2Values();
    ReadNumber(bits, pos + 1, kind, 2);
  }

  // ----- blocks with trees -----

  lemma StaticBlock(before: seq<bool>, last: bool, tb: CodeTables, ts: seq<Token>, out: seq<byte>, res: seq<byte>)
    requires CanEncode(tb, FixedLitLens(), FixedDistLens(), ts) && ExpandTokens(out, ts) == Some(res)
    ensures Block(before, before + TypeBits(STATIC_TREES, last) + EncodeBody(tb, FixedLitLens(), FixedDistLens(), ts),
            last, out, res)
  {
    hide CanEncode, FixedLitLens, FixedDistLens, ExpandTokens, EncodeBody, FieldAt, TypeBits, DecodeBody, DecodeStored,
         DecodeDynamic, ValueOf, Decodable;
    var body := EncodeBody(tb, FixedLitLens(), FixedDistLens(), ts);
    var after := before + TypeBits(STATIC_TREES, last) + body;
    forall bits | after <= bits
      ensures DecodeBlock(bits, |before|, out) == Some((last, res, |after|))
    {
      PrefixField(before + TypeBits(STATIC_TREES, last), body, bits);
      PrefixBefore(before, TypeBits(STATIC_TREES, last), body, bits);
      TypeSplit(STATIC_TREES, last);
      TypeRead(STATIC_TREES, last, bits, |before|);
      ST.FixedDecodable();
      DecodeBodySent(tb, FixedLitLens(), FixedDistLens(), ts, bits, |before| + 3, out, res);
    }
  }

  lemma PrefixBefore(before: seq<bool>, f: seq<bool>, g: seq<bool>, bits: seq<bool>)
    requires before + f + g <= bits
    ensures FieldAt(bits, |before|, f)
  {
    assert before + f + g == before + (f + g);
    PrefixField(before, f + g, bits);
    FieldSplit(bits, |before|, f, g);
  }

  lemma DynamicBlock(before: seq<bool>, last: bool, tb: CodeTables, ll: seq<nat>, dd: seq<nat>, bl: seq<nat>, n: nat,
                     ts: seq<Token>,
                     out: seq<byte>, res: seq<byte>)
    requires Coherent(ll, dd, bl, n) && Decodable(ll) && Decodable(dd) && CanEncode(tb, ll, dd, ts)
             && ExpandTokens(out, ts) == Some(res)
    ensures Block(before, before + TypeBits(DYN_TREES, last) + (Header(ll, dd, bl, n) + EncodeBody(tb, ll, dd, ts)),
            last, out, res)
  {
    hide CanEncode, ExpandTokens, EncodeBody, Header, Coherent, FieldAt, TypeBits, DecodeBody, DecodeStored,
         DecodeDynamic, ValueOf, Decodable;
    var body := Header(ll, dd, bl, n) + EncodeBody(tb, ll, dd, ts);
    var after := before + TypeBits(DYN_TREES, last) + body;
    forall bits | after <= bits
      ensures DecodeBlock(bits, |before|, out) == Some((last, res, |after|))
    {
      PrefixField(before + TypeBits(DYN_TREES, last), body, bits);
      PrefixBefore(before, TypeBits(DYN_TREES, last), body, bits);
      TypeSplit(DYN_TREES, last);
      TypeRead(DYN_TREES, last, bits, |before|);
      DecodeDynamicSent(tb, ll, dd, bl, n, ts, bits, |before| + 3, out, res);
    }
  }

  // ----- stored blocks -----

  lemma {:induction false} ReadBytesSent(bits: seq<bool>, pos: nat, data: seq<byte>)
    requires FieldAt(bits, pos, BytesBits(data))
    ensures pos + 8 * |data| <= |bits| && ReadBytes(bits, pos, |data|) == data
    decreases |data|
  {
    hide BitsOf, ValueOf, Pow2, FieldAt;
    Room(bits, pos, BytesBits(data));
    if data != [] {
      FieldSplit(bits, pos, BitsOf(data[0], 8), BytesBits(data[1..]));
      Pow2Values();
      ReadNumber(bits, pos, data[0], 8);
      ReadBytesSent(bits, pos + 8, data[1..]);
      assert [data[0]] + data[1..] == data;
    }
  }

  lemma Room(bits: seq<bool>, pos: nat, f: seq<bool>)
    requires FieldAt(bits, pos, f)
    ensures pos + |f| <= |bits|
  {}

  /** The bits of copy_block after the block type. */
  function StoredField(data: seq<byte>): seq<bool>
    requires |data| < 0x10000
  {
    BitsOf(|data|, 16) + BitsOf(0xffff - |data|, 16) + BytesBits(data)
  }

  lemma StoredRead(bits: seq<bool>, pos: nat, data: seq<byte>)
    requires |data| < 0x10000 && FieldAt(bits, pos, StoredField(data))
    ensures pos + 32 + 8 * |data| <= |bits|
    ensures ValueOf(bits[pos..pos + 16]) == |data| && ValueOf(bits[pos + 16..pos + 32]) == 0xffff - |data|
    ensures ReadBytes(bits, pos + 32, |data|) == data
  {
    hide BitsOf, ValueOf, Pow2, FieldAt, BytesBits, ReadBytes;
    FieldSplit(bits, pos, BitsOf(|data|, 16) + BitsOf(0xffff - |data|, 16), BytesBits(data));
    FieldSplit(bits, pos, BitsOf(|data|, 16), BitsOf(0xffff - |data|, 16));
    Pow2Values();
    ReadNumber(bits, pos, |data|, 16);
    ReadNumber(bits, pos + 16, 0xffff - |data|, 16);
    ReadBytesSent(bits, pos + 32, data);
  }

  lemma StoredDecoded(bits: seq<bool>, pos: nat, p: nat, data: seq<byte>, out: seq<byte>)
    requires |data| < 0x10000 && p == pos + (8 - pos % 8) % 8 && FieldAt(bits, p, StoredField(data))
    ensures DecodeStored(bits, pos, out) == Some((out + data, p + 32 + 8 * |data|))
  {
    hide ValueOf, FieldAt, StoredField, ReadBytes;
    StoredRead(bits, p, data);
  }

  lemma StoredBlock(before: seq<bool>, last: bool, data: seq<byte>, out: seq<byte>)
    requires |data| < 0x10000
    ensures Block(before, BW.Align(before + TypeBits(STORED_BLOCK, last)) + StoredField(data), last, out, out + data)
  {
    hide FieldAt, TypeBits, DecodeBody, DecodeStored, DecodeDynamic, ValueOf, StoredField, BW.Padding;
    var typed := before + TypeBits(STORED_BLOCK, last);
    var after := BW.Align(typed) + StoredField(data);
    TypeSplit(STORED_BLOCK, last);
    AlignSize(typed);
    StoredSize(data);
    forall bits | after <= bits
      ensures DecodeBlock(bits, |before|, out) == Some((last, out + data, |after|))
    {
      PrefixField(BW.Align(typed), StoredField(data), bits);
      PrefixBefore3(before, TypeBits(STORED_BLOCK, last), BW.Padding(|typed|), StoredField(data), bits);
      TypeRead(STORED_BLOCK, last, bits, |before|);
      StoredDecoded(bits, |typed|, |BW.Align(typed)|, data, out);
    }
  }

  lemma StoredSize(data: seq<byte>)
    requires |data| < 0x10000
    ensures |StoredField(data)| == 32 + 8 * |data|
  {
    hide BitsOf, BytesBits;
  }

  lemma AlignSize(s: seq<bool>)
    ensures |BW.Align(s)| == |s| + (8 - |s| % 8) % 8
  {}

  lemma PrefixBefore3(before: seq<bool>, f: seq<bool>, g: seq<bool>, h: seq<bool>, bits: seq<bool>)
    requires before + f + g + h <= bits
    ensures FieldAt(bits, |before|, f)
  {
    assert before + f + g + h == before + f + (g + h);
    PrefixBefore(before, f, g + h, bits);
  }

  // ----- a stream of blocks -----

  /** The blocks written so far, none of them the last, turn nothing into res. */
  ghost predicate Decoded(start: nat, stream: seq<bool>, res: seq<byte>)
  {
    && start <= |stream|
    && forall bits | stream <= bits :: DecodeStream(bits, start, []) == DecodeStream(bits, |stream|, res)
  }

  lemma NoBlocks(stream: seq<bool>)
    ensures Decoded(|stream|, stream, [])
  {
    hide DecodeStream;
  }

  lemma OneMore(start: nat, before: seq<bool>, after: seq<bool>, out: seq<byte>, res: seq<byte>)
    requires Decoded(start, before, out) && before <= after && Block(before, after, false, out, res)
    ensures Decoded(start, after, res)
  {
    hide DecodeBlock;
    forall bits | after <= bits
      ensures DecodeStream(bits, start, []) == DecodeStream(bits, |after|, res)
    {
      assert before <= bits;
      assert DecodeBlock(bits, |before|, out) == Some((false, res, |after|));
    }
  }

  /** The last block completes the stream; what follows it does not matter. */
  lemma LastOne(start: nat, before: seq<bool>, after: seq<bool>, out: seq<byte>, res: seq<byte>, bits: seq<bool>)
    requires Decoded(start, before, out) && before <= after <= bits && Block(before, after, true, out, res)
    ensures DecodeStream(bits, start, []) == Some((res, |after|))
  {
    hide DecodeBlock;
    assert before <= bits;
    assert DecodeBlock(bits, |before|, out) == Some((true, res, |after|));
  }
}
