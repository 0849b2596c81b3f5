/**
 zip: the header, the compressed stream and the trailer of a gzip file.
 */
module Gzip {
  import opened Bits
  import opened Hash
  import opened Chains
  import opened Inflate
  import opened Canonical
  import opened Deflate
  import opened Blocks
  import FB = FlushBlock
  import BW = BitWriter
  import LM = LongestMatch
  import SW = SlidingWindow

  /** The sizes and search parameters chosen when the program is built. */
  datatype Config = Config(hashBits: nat, litSize: nat, litAlloc: nat, distSize: nat, outSize: nat, level: LM.Level,
                           maxLazy: nat, tooFar: nat) {
    ghost predicate Valid()
    {
      && MIN_HASH_BITS <= hashBits <= 15 && 8 <= litSize <= litAlloc && litSize % 8 == 0 && litSize <= 0x8000
          && 1 <= distSize
      && 2 <= outSize && level.maxChain >= 4
    }
  }

  /** The parameters for CONFIG_GZIP_FAST 0, 1 and 2 without compression levels. */
  function Built(fast: nat): (c: Config)
    ensures c.Valid()
  {
    var level := LM.Level(4096, 32, 258);
    if fast == 0 then Config(13, 0x2000, 0x2000, 0x2000, 8192, level, 258, 4096)
    else if fast == 1 then Config(14, 0x4000, 0x8000, 0x8000, 16384, level, 258, 4096)
    else Config(15, 0x8000, 0x8000, 0x8000, 16384, level, 258, 4096)
  }

  const HEADER: seq<byte> := [0x1f, 0x8b, 8, 0, 0, 0, 0, 0, 2, 3]

  method PutHeader(w: BW.BitWriter)
    requires w.Valid() && w.Bytes() == [] && w.biValid == 0
    modifies w, w.outbuf
    ensures w.Valid() && w.Bytes() == HEADER && w.biValid == 0 && w.Stream() == BytesBits(HEADER)
  {
    hide BitsOf, Pow2, BytesBits;
    w.Put32Bit(0x00088b1f);
    w.Put32Bit(0);
    w.Put8Bit(2);
    w.Put8Bit(3);
    assert w.Bytes() == HEADER;
    NoPending(w);
  }

  lemma NoPending(w: BW.BitWriter)
    requires w.Valid() && w.biValid == 0
    ensures w.Stream() == BytesBits(w.Bytes())
  {}

  /** The two words after the compressed stream, and the last flush of the buffer. */
  method PutTrailer(w: BW.BitWriter, crc: nat, isize: nat)
    requires w.Valid() && crc < SW.U32 && isize < SW.U32
    modifies w, w.outbuf
    ensures w.file == old(w.Bytes()) + BW.LittleEndian32(crc) + BW.LittleEndian32(isize)
  {
    hide BitsOf, Pow2, BytesBits, BW.LittleEndian32;
    w.Put32Bit(crc);
    w.Put32Bit(isize);
    w.FlushOutbuf();
  }

  /** lm_init and deflate, with everything they need. */
  method Compress(w: BW.BitWriter, input: seq<byte>, cfg: Config) returns (isize: nat, failed: bool,
                  ghost got: seq<byte>, ghost end: nat)
    requires cfg.Valid() && w.Valid() && |w.Stream()| % 8 == 0
    modifies w, w.outbuf
    ensures got <= input && (!failed ==> got == input) && isize == SW.Wrap(|got|)
    ensures w.Valid() && w.biValid == 0 && old(w.Stream()) <= w.Stream()
            && old(|w.Stream()|) <= end <= |w.Stream()| < end + 8
    ensures Completed(w.Stream(), old(|w.Stream()|), got, end)
  {
    hide Pow2, BW.BitWriter.Valid, BW.BitWriter.Stream, FB.Coder.Valid, SW.SlidingWindow.Valid, Deflater.Between,
         Completed, SW.Wrap;
    ghost var s := w.Stream();
    var coder := new FB.Coder(w, cfg.litSize, cfg.litAlloc, cfg.distSize);
    var win := new SW.SlidingWindow(cfg.hashBits, input);
    var d := new Deflater(win, coder, cfg.level, cfg.maxLazy, cfg.tooFar, s);
    d.Begin();
    var total;
    total, end := d.Run();
    got := win.All();
    failed, isize := win.failed, win.isize;
  }

  /** Bytes are found again in their bits. */
  lemma BytesPrefix(a: seq<byte>, b: seq<byte>)
    requires BytesBits(a) <= BytesBits(b)
    ensures a <= b
  {
    hide BytesBits;
    var front := b[..|a|];
    assert b == front + b[|a|..];
    BytesBitsConcat(front, b[|a|..]);
    var bits := BytesBits(b);
    assert BytesBits(front) == bits[..8 * |a|] == BytesBits(a);
    assert FieldAt(bits, 0, BytesBits(a));
    ReadBytesSent(bits, 0, a);
    ReadBytesSent(bits, 0, front);
  }

  lemma WholeFile(w: BW.BitWriter, bytes: seq<byte>, trailer: seq<byte>, got: seq<byte>, end: nat)
    requires w.Valid() && w.biValid == 0 && bytes == w.Bytes() && |HEADER| == 10 && BytesBits(HEADER) <= w.Stream()
    requires 80 <= |w.Stream()| && Completed(w.Stream(), 80, got, end)
    ensures HEADER <= bytes && |w.Stream()| == 8 * |bytes|
    ensures DecodeStream(BytesBits(bytes + trailer), 80, []) == Some((got, end))
  {
    hide BytesBits, DecodeStream, HEADER, BW.BitWriter.Valid;
    NoPending(w);
    BytesPrefix(HEADER, bytes);
    BytesBitsConcat(bytes, trailer);
    assert w.Stream() <= BytesBits(bytes + trailer);
  }

  /**
   Compress an input.  The crc is the value kept by the checksum of the input.
   The file is the header, a compressed stream, the checksum and the size; the
   stream decodes to what was read, which is the whole input if no read failed.
   */
  method Zip(input: seq<byte>, cfg: Config, crc: nat)
    returns (file: seq<byte>, failed: bool, ghost got: seq<byte>, ghost body: seq<byte>, ghost end: nat)
    requires cfg.Valid() && crc < SW.U32
    ensures got <= input && (!failed ==> got == input)
    ensures file == HEADER + body + (BW.LittleEndian32(crc) + BW.LittleEndian32(SW.Wrap(|got|)))
    ensures 80 <= |BytesBits(file)| && DecodeStream(BytesBits(file), 80, []) == Some((got, end))
            && end <= 80 + 8 * |body| < end + 8
  {
    hide BytesBits, BW.LittleEndian32, BW.BitWriter.Valid, BW.BitWriter.Stream, BW.BitWriter.Bytes, Completed,
         DecodeStream, SW.Wrap, HEADER, Config.Valid;
    var w := NewWriter(cfg.outSize, cfg);
    PutHeader(w);
    HeaderSize();
    var isize;
    isize, failed, got, end := Compress(w, input, cfg);
    WrapSmall(|got|);
    ghost var bytes, trailer := w.Bytes(), BW.LittleEndian32(crc) + BW.LittleEndian32(isize);
    WholeFile(w, bytes, trailer, got, end);
    body := bytes[|HEADER|..];
    PutTrailer(w, crc, isize);
    file := w.file;
    assert file == bytes + trailer;
  }

  lemma HeaderSize()
    ensures |HEADER| == 10 && |BytesBits(HEADER)| == 80
  {}

  lemma WrapSmall(n: nat)
    ensures SW.Wrap(n) < SW.U32
  {}

  method NewWriter(size: nat, ghost cfg: Config) returns (w: BW.BitWriter)
    requires cfg.Valid() && size == cfg.outSize
    ensures fresh(w) && fresh(w.outbuf) && w.Valid() && w.Bytes() == [] && w.biValid == 0
  {
    w := new BW.BitWriter(size);
  }
}
