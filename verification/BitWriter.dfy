/**
 The output side of the compressor: a byte buffer that is flushed to the
 output file when it is full, and a 16-bit buffer of pending bits.
 */
module BitWriter {
  import opened Bits

  /** The zero bits that bring a bit string up to a whole number of bytes. */
  function Padding(n: nat): (s: seq<bool>)
    ensures |s| < 8 && (n + |s|) % 8 == 0
    ensures forall i | 0 <= i < |s| :: !s[i]
  {
    seq((8 - n % 8) % 8, _ => false)
  }

  function Align(s: seq<bool>): (r: seq<bool>)
  {
    s + Padding(|s|)
  }

  lemma {:induction false} BitsOfZero(n: nat)
    ensures BitsOf(0, n) == seq(n, _ => false)
  {
    if n > 0 {
      BitsOfZero(n - 1);
    }
  }

  /** Writing a short field in a wider one pads it with zero bits. */
  lemma BitsOfWiden(v: nat, n: nat, m: nat)
    requires v < Pow2(n) && n <= m
    ensures BitsOf(v, m) == BitsOf(v, n) + seq(m - n, _ => false)
  {
    BitsOfJoin(v, n, 0, m - n);
    BitsOfZero(m - n);
    assert v + 0 * Pow2(n) == v;
  }

  /** A 16-bit value is its low byte followed by its high byte. */
  lemma WordBytes(w: nat, lo: byte, hi: byte)
    requires w < 0x10000 && lo == w % 256 && hi == w / 256
    ensures BytesBits([lo, hi]) == BitsOf(w, 16)
  {
    hide BitsOf, Pow2;
    Pow2Values();
    BitsOfJoin(lo, 8, hi, 8);
    assert [lo, hi][1..] == [hi];
    OneByte(hi);
  }

  /** The contents of the bit buffer after `bi_buf |= value << bi_valid`, a 16-bit store. */
  function Combine(buf: nat, value: nat, valid: nat): nat
  {
    Or(buf, Shl(value, valid)) % 0x10000
  }

  function LittleEndian16(w: nat): seq<byte>
    requires w < 0x10000
  {
    [w % 256, w / 256]
  }

  function LittleEndian32(n: nat): seq<byte>
    requires n < 0x1_0000_0000
  {
    LittleEndian16(n % 0x10000) + LittleEndian16(n / 0x10000)
  }

  lemma JoinFits(a: nat, n: nat, v: nat, m: nat)
    requires a < Pow2(n) && v < Pow2(m)
    ensures a + v * Pow2(n) < Pow2(n + m)
  {
    Pow2Add(m, n);
    MulMono(v + 1, Pow2(m), Pow2(n));
  }

  lemma MulMono(a: nat, b: nat, c: nat)
    requires a <= b
    ensures a * c <= b * c
  {}

  lemma DivBelow(v: nat, p: nat, q: nat)
    requires p > 0 && v < q * p
    ensures v / p < q
  {
    ModLess(v, p);
    if v / p >= q {
      MulMono(q, v / p, p);
    }
  }

  /** One call of send_bits on the bit buffer: no bit is lost, reordered or invented. */
  lemma SendStep(buf: nat, valid: nat, value: nat, length: nat)
    requires buf < Pow2(valid) && valid <= 16 && 1 <= length <= 16 && value < Pow2(length)
    ensures Combine(buf, value, valid) < 0x10000
    ensures valid + length <= 16 ==>
              && Combine(buf, value, valid) < Pow2(valid + length)
              && BitsOf(Combine(buf, value, valid), valid + length) == BitsOf(buf, valid) + BitsOf(value, length)
    ensures valid + length > 16 ==>
              var rest := Shr(value % 0x10000, 16 - valid);
              && rest < Pow2(valid + length - 16)
              && BitsOf(Combine(buf, value, valid), 16) + BitsOf(rest, valid + length - 16)
                 == BitsOf(buf, valid) + BitsOf(value, length)
  {
    hide Pow2, BitsOf, Or, Shl, Shr;
    OrDisjoint(buf, value, valid);
    BitsOfJoin(buf, valid, value, length);
    JoinFits(buf, valid, value, length);
    if valid + length <= 16 {
      Narrow(buf + value * Pow2(valid), valid + length);
    } else {
      Spill(buf + value * Pow2(valid), buf, valid, value, length);
    }
  }

  lemma Narrow(v: nat, n: nat)
    requires v < Pow2(n) && n <= 16
    ensures v % 0x10000 == v
  {
    Pow2Mono(n, 16);
    Pow2Values();
  }

  lemma Spill(joined: nat, buf: nat, valid: nat, value: nat, length: nat)
    requires valid <= 16 && length <= 16 && valid + length > 16 && value < Pow2(length)
    requires BitsOf(joined, valid + length) == BitsOf(buf, valid) + BitsOf(value, length)
    ensures var rest := Shr(value % 0x10000, 16 - valid);
            && rest < Pow2(valid + length - 16)
            && BitsOf(joined % 0x10000, 16) + BitsOf(rest, valid + length - 16)
               == BitsOf(buf, valid) + BitsOf(value, length)
  {
    hide BitsOf;
    var k := 16 - valid;
    Narrow(value, length);
    Pow2Add(length - k, k);
    DivBelow(value, Pow2(k), Pow2(length - k));
    BitsOfShift(value, length, k);
    BitsOfShift(joined, valid + length, 16);
    assert BitsOf(joined % 0x10000, 16) == BitsOf(joined, 16) by {
      Pow2Values();
      BitsOfMod(joined, 16);
    }
    SliceConcat(BitsOf(buf, valid), BitsOf(value, length), k);
  }

  lemma Regroup(front: seq<bool>, buf: nat, valid: nat, value: nat, length: nat)
    requires buf < Pow2(valid) && valid <= 16 && 1 <= length <= 16 && value < Pow2(length)
    ensures valid + length <= 16 ==>
              front + BitsOf(Combine(buf, value, valid), valid + length)
              == front + BitsOf(buf, valid) + BitsOf(value, length)
    ensures valid + length > 16 ==>
              front + BitsOf(Combine(buf, value, valid), 16)
              + BitsOf(Shr(value % 0x10000, 16 - valid), valid + length - 16)
              == front + BitsOf(buf, valid) + BitsOf(value, length)
  {
    SendStep(buf, valid, value, length);
    var b, v := BitsOf(buf, valid), BitsOf(value, length);
    if valid + length <= 16 {
      Reassociate(front, BitsOf(Combine(buf, value, valid), valid + length), [], b, v);
    } else {
      Reassociate(front, BitsOf(Combine(buf, value, valid), 16),
                  BitsOf(Shr(value % 0x10000, 16 - valid), valid + length - 16), b, v);
    }
  }

  lemma Reassociate(front: seq<bool>, a: seq<bool>, b: seq<bool>, c: seq<bool>, d: seq<bool>)
    requires a + b == c + d
    ensures front + a + b == front + c + d
  {
    assert front + a + b == front + (a + b);
    assert front + c + d == front + (c + d);
  }

  lemma AlignTail(front: seq<bool>, tail: seq<bool>)
    requires |front| % 8 == 0
    ensures Align(front + tail) == front + (tail + Padding(|tail|))
  {
    SamePadding(|front| / 8, |tail|);
    assert |front + tail| == 8 * (|front| / 8) + |tail|;
    assert Align(front + tail) == front + tail + Padding(|tail|);
  }

  lemma SamePadding(q: nat, n: nat)
    ensures Padding(8 * q + n) == Padding(n)
  {
    assert (8 * q + n) % 8 == n % 8;
  }

  lemma SliceConcat(a: seq<bool>, b: seq<bool>, k: nat)
    requires k <= |b|
    ensures (a + b)[..|a| + k] + b[k..] == a + b
  {}

  /** Winding up pads the pending bits with zeros to a whole number of bytes. */
  lemma WindupStep(buf: nat, valid: nat)
    requires buf < Pow2(valid) && valid <= 16
    ensures valid == 0 ==> BitsOf(buf, valid) + Padding(valid) == []
    ensures valid > 8 ==> buf < 0x10000 && BitsOf(buf, 16) == BitsOf(buf, valid) + Padding(valid)
    ensures 0 < valid <= 8 ==> buf < 256 && BytesBits([buf]) == BitsOf(buf, valid) + Padding(valid)
  {
    if valid > 8 {
      Widened(buf, valid, 16);
    } else if valid > 0 {
      Widened(buf, valid, 8);
      OneByte(buf);
    }
  }

  lemma OneByte(c: byte)
    ensures BytesBits([c]) == BitsOf(c, 8)
  {
    hide BitsOf;
    assert [c][1..] == [];
  }

  lemma Widened(buf: nat, valid: nat, width: nat)
    requires buf < Pow2(valid) && width - 8 < valid <= width && (width == 8 || width == 16)
    ensures buf < 0x10000 && (width == 8 ==> buf < 256)
    ensures BitsOf(buf, width) == BitsOf(buf, valid) + Padding(valid)
  {
    hide Pow2, BitsOf;
    Pow2Values();
    Pow2Mono(valid, width);
    BitsOfWiden(buf, valid, width);
    assert |Padding(valid)| == width - valid;
  }

  lemma Drained(front: seq<bool>, buf: nat)
    ensures front + BitsOf(buf, 0) == front
  {}

  class BitWriter {
    const outbuf: array<byte>
    var outcnt: nat
    var biBuf: nat
    var biValid: nat
    var file: seq<byte>

    ghost predicate Valid()
      reads this, outbuf
    {
      && outcnt < outbuf.Length
      && 2 <= outbuf.Length
      && biValid <= 16
      && biBuf < Pow2(biValid)
    }

    /** The bytes written so far, flushed or not. */
    ghost function Bytes(): seq<byte>
      reads this, outbuf
      requires Valid()
    {
      file + outbuf[..outcnt]
    }

    /** Every bit sent so far, in order. */
    ghost function Stream(): seq<bool>
      reads this, outbuf
      requires Valid()
    {
      BytesBits(Bytes()) + BitsOf(biBuf, biValid)
    }

    constructor (size: nat)
      requires 2 <= size
      ensures Valid() && fresh(outbuf) && outbuf.Length == size
      ensures Bytes() == [] && Stream() == [] && file == [] && biValid == 0
    {
      outbuf := new byte[size](_ => 0);
      outcnt, biBuf, biValid := 0, 0, 0;
      file := [];
    }

    method FlushOutbuf()
      requires outcnt <= outbuf.Length
      modifies this`file, this`outcnt
      ensures file == old(file + outbuf[..outcnt]) && outcnt == 0
    {
      if outcnt == 0 {
        assert outbuf[..0] == [];
        return;
      }
      file := file + outbuf[..outcnt];
      outcnt := 0;
    }

    method Put8Bit(c: byte)
      requires Valid()
      modifies this`file, this`outcnt, outbuf
      ensures Valid()
      ensures Bytes() == old(Bytes()) + [c]
    {
      outbuf[outcnt] := c;
      outcnt := outcnt + 1;
      assert outbuf[..outcnt] == old(outbuf[..outcnt]) + [c];
      if outcnt == outbuf.Length {
        FlushOutbuf();
      }
    }

    method Put16Bit(w: nat)
      requires Valid() && w < 0x10000
      modifies this`file, this`outcnt, outbuf
      ensures Valid()
      ensures Bytes() == old(Bytes()) + [w % 256, w / 256]
      ensures BytesBits(Bytes()) == old(BytesBits(Bytes())) + BitsOf(w, 16)
    {
      var cnt := outcnt;
      outbuf[cnt] := w % 256;
      if cnt < outbuf.Length - 2 {
        outbuf[cnt + 1] := w / 256;
        outcnt := cnt + 2;
        assert outbuf[..outcnt] == old(outbuf[..outcnt]) + [w % 256, w / 256];
      } else {
        outcnt := cnt + 1;
        assert outbuf[..outcnt] == old(outbuf[..outcnt]) + [w % 256];
        if outcnt == outbuf.Length {
          FlushOutbuf();
        }
        assert Bytes() == old(Bytes()) + [w % 256];
        Put8Bit(w / 256);
      }
      WordBytes(w, w % 256, w / 256);
      assert Bytes() == old(Bytes()) + [w % 256, w / 256];
      BytesBitsConcat(old(Bytes()), [w % 256, w / 256]);
    }

    method Put32Bit(n: nat)
      requires Valid() && n < 0x1_0000_0000
      modifies this`file, this`outcnt, outbuf
      ensures Valid()
      ensures Bytes() == old(Bytes()) + LittleEndian32(n)
    {
      ghost var before := Bytes();
      Put16Bit(n % 0x10000);
      ghost var middle := Bytes();
      Put16Bit(n / 0x10000);
      assert Bytes() == middle + LittleEndian16(n / 0x10000);
      assert middle == before + LittleEndian16(n % 0x10000);
    }

    method SendBits(value: nat, length: nat)
      requires Valid() && 1 <= length <= 16 && value < Pow2(length)
      modifies this, outbuf
      ensures Valid()
      ensures Stream() == old(Stream()) + BitsOf(value, length)
    {
      hide Pow2, BitsOf, Combine, Shr, BytesBits;
      SendStep(biBuf, biValid, value, length);
      Regroup(BytesBits(Bytes()), biBuf, biValid, value, length);
      if biValid > 16 - length {
        Put16Bit(Combine(biBuf, value, biValid));
        biBuf := Shr(value % 0x10000, 16 - biValid);
        biValid := biValid + length - 16;
      } else {
        biBuf := Combine(biBuf, value, biValid);
        biValid := biValid + length;
      }
    }

    /** The stream is padded with zeros to a whole byte, and all of it is in the byte buffer or the file. */
    method BiWindup()
      requires Valid()
      modifies this, outbuf
      ensures Valid() && biValid == 0
      ensures Stream() == BytesBits(Bytes()) == Align(old(Stream()))
    {
      WindupStep(biBuf, biValid);
      AlignTail(BytesBits(Bytes()), BitsOf(biBuf, biValid));
      if biValid > 8 {
        Put16Bit(biBuf);
      } else if biValid > 0 {
        BytesBitsConcat(Bytes(), [biBuf]);
        Put8Bit(biBuf);
      }
      biBuf := 0;
      biValid := 0;
    }

    /** The body of a stored block: padding to a byte, two words for the length, the bytes. */
    method CopyBlock(buf: array<byte>, from: nat, len: nat)
      requires Valid() && from + len <= buf.Length && buf != outbuf
      requires len < 0x10000
      modifies this, outbuf
      ensures Valid() && biValid == 0
      ensures Stream() == Align(old(Stream())) + BitsOf(len, 16) + BitsOf(0xffff - len, 16)
                          + BytesBits(buf[from..from + len])
    {
      hide BitsOf, BytesBits, Align;
      BiWindup();
      Put16Bit(len);
      Put16Bit(0xffff - len);
      ghost var before := Bytes();
      PutBytes(buf, from, len);
      BytesBitsConcat(before, buf[from..from + len]);
      Drained(BytesBits(Bytes()), biBuf);
    }

    method PutBytes(buf: array<byte>, from: nat, len: nat)
      requires Valid() && from + len <= buf.Length && buf != outbuf
      modifies this`file, this`outcnt, outbuf
      ensures Valid()
      ensures Bytes() == old(Bytes()) + buf[from..from + len]
    {
      var i := 0;
      while i < len
        invariant i <= len
        invariant Valid() && Bytes() == old(Bytes()) + buf[from..from + i]
      {
        Put8Bit(buf[from + i]);
        i := i + 1;
        assert buf[from..from + i] == buf[from..from + i - 1] + [buf[from + i - 1]];
      }
    }
  }
}
