/**
 Growable buffers with a consumed offset, and the fragmentation of messages into
 TLS records and back: section 6.2.1 of RFC 5246.
 */
module TlsRecord {
  import opened Bits
  import opened Canonical

  const BUF_CHUNK: nat := 4096
  const MAX_FRAGMENT: nat := 0x4000

  // ----- buffers -----

  /** A read: how many bytes were asked for, and how many came. */
  datatype Asked = Asked(room: nat, got: nat)

  /** The reads that could have brought something and brought nothing. */
  function Empties(log: seq<Asked>): nat
  {
    if log == [] then 0
    else
      var last := log[|log| - 1];
      Empties(log[..|log| - 1]) + (if last.room > 0 && last.got == 0 then 1 else 0)
  }

  /** One more read, with room for something, that brought n bytes. */
  ghost predicate OneRead(was: seq<Asked>, log: seq<Asked>, n: nat)
  {
    |log| == |was| + 1 && log[..|was|] == was && log[|was|].room > 0 && log[|was|].got == n
  }

  /** What bufferevent_read still has to deliver, now or later, and the record of the reads made. */
  class Transport {
    var data: seq<byte>
    ghost var log: seq<Asked>

    constructor (data: seq<byte>)
      ensures this.data == data && log == []
    {
      this.data, log := data, [];
    }

    /** Some of the bytes, at most room of them; none if there is nothing to read now. */
    method Read(room: nat) returns (chunk: seq<byte>)
      modifies this
      ensures |chunk| <= room && old(data) == chunk + data && log == old(log) + [Asked(room, |chunk|)]
    {
      var n :| 0 <= n <= room && n <= |data|;
      chunk := data[..n];
      data := data[n..];
      log := log + [Asked(room, n)];
    }
  }

  class Buf {
    var buf: array<byte>
    var offset: nat
    var size: nat

    ghost predicate Valid()
      reads this
    {
      offset <= size <= buf.Length
    }

    /** The bytes added and not yet consumed. */
    ghost function Live(): seq<byte>
      reads this, buf
      requires Valid()
    {
      buf[offset..size]
    }

    /** buf_init: maxsize is the length of the array. */
    constructor ()
      ensures Valid() && fresh(buf) && Live() == []
    {
      buf := new byte[0];
      offset, size := 0, 0;
    }

    /** memcpy */
    method Put(data: seq<byte>)
      requires Valid() && size + |data| <= buf.Length
      modifies this`size, buf
      ensures Valid() && size == old(size) + |data| && Live() == old(Live()) + data
    {
      var i := 0;
      ghost var live := Live();
      while i < |data|
        invariant 0 <= i <= |data| && size == old(size) && buf[offset..size] == live && buf[size..size + i] == data[..i]
      {
        buf[size + i] := data[i];
        i := i + 1;
      }
      assert buf[offset..size + |data|] == buf[offset..size] + buf[size..size + |data|];
      size := size + |data|;
    }

    /** A new buffer with the live bytes at its start. */
    method Move(maxsize: nat)
      requires Valid() && size - offset <= maxsize
      modifies this
      ensures Valid() && fresh(buf) && buf.Length == maxsize && offset == 0 && Live() == old(Live())
    {
      var newbuf := new byte[maxsize];
      var len := size - offset;
      forall i | 0 <= i < len {
        newbuf[i] := buf[offset + i];
      }
      ghost var live := Live();
      size, offset := len, 0;
      buf := newbuf;
      assert forall i | 0 <= i < len :: buf[i] == live[i];
    }

    /** buf_add */
    method Add(data: seq<byte>)
      requires Valid()
      modifies this, buf
      ensures Valid() && (buf == old(buf) || fresh(buf)) && Live() == old(Live()) + data
    {
      if size + |data| <= buf.Length {
        Put(data);
        return;
      }
      Move(size - offset + |data| + BUF_CHUNK);
      Put(data);
    }

    /** The header of a record, one byte at a time. */
    method AddHeader(kind: byte, len: nat)
      requires Valid() && len < 0x10000
      modifies this, buf
      ensures Valid() && (buf == old(buf) || fresh(buf)) && Live() == old(Live()) + [kind, 3, 0, len / 256, len % 256]
    {
      hide Valid, Live;
      Add([kind]);
      Add([3]);
      Add([0]);
      Add([len / 256]);
      Add([len % 256]);
    }

    /** The header of a handshake message, one byte at a time. */
    method AddWord(kind: byte, len: nat)
      requires Valid()
      modifies this, buf
      ensures Valid() && (buf == old(buf) || fresh(buf))
      ensures Live() == old(Live()) + [kind, len / 0x10000 % 256, len / 256 % 256, len % 256]
    {
      hide Valid, Live;
      Add([kind]);
      Add([len / 0x10000 % 256]);
      Add([len / 256 % 256]);
      Add([len % 256]);
    }

    /** Shift the live bytes to the start of the buffer. */
    method Compact()
      requires Valid()
      modifies this, buf
      ensures Valid() && buf == old(buf) && offset == 0 && size == old(size - offset) && Live() == old(Live())
    {
      var len := size - offset;
      ghost var live := Live();
      forall i | 0 <= i < len {
        buf[i] := buf[offset + i];
      }
      size, offset := len, 0;
      assert forall i | 0 <= i < len :: buf[i] == live[i];
    }

    /** buf_read: there is always room for at least one byte, so a read of nothing means that nothing is there. */
    method Read(t: Transport) returns (ok: bool)
      requires Valid()
      modifies this, buf, t
      ensures Valid() && (buf == old(buf) || fresh(buf))
      ensures Live() + t.data == old(Live() + t.data)
      ensures ok ==> |t.data| < |old(t.data)|
      ensures !ok ==> t.data == old(t.data) && Live() == old(Live())
      ensures OneRead(old(t.log), t.log, |old(t.data)| - |t.data|)
    {
      if size >= buf.Length {
        if size - offset + BUF_CHUNK <= buf.Length {
          Compact();
        } else {
          Move(size - offset + BUF_CHUNK);
        }
      }
      assert size < buf.Length;
      var room := buf.Length - size;
      var chunk := t.Read(room);
      if |chunk| > 0 {
        Put(chunk);
        return true;
      }
      return false;
    }
  }

  // ----- records -----

  /** One record: type, version, length and the fragment. */
  function Record(kind: byte, major: byte, minor: byte, text: seq<byte>): seq<byte>
    requires |text| < 0x10000
  {
    [kind, major, minor, |text| / 256, |text| % 256] + text
  }

  function Fragment(msg: seq<byte>): (n: nat)
    ensures n <= |msg| && n <= MAX_FRAGMENT && (msg != [] ==> n > 0)
  {
    if |msg| > MAX_FRAGMENT then MAX_FRAGMENT else |msg|
  }

  /** A message as a sequence of records, none of them longer than the limit. */
  function Records(kind: byte, msg: seq<byte>): seq<byte>
    decreases |msg|
  {
    if msg == [] then []
    else
      var n := Fragment(msg);
      Record(kind, 3, 0, msg[..n]) + Records(kind, msg[n..])
  }

  function NumRecords(msg: seq<byte>): nat
    decreases |msg|
  {
    if msg == [] then 0 else 1 + NumRecords(msg[Fragment(msg)..])
  }

  function Length16(hi: byte, lo: byte): nat
  {
    hi as int * 256 + lo as int
  }

  datatype Parsed = Parsed(kind: byte, major: byte, minor: byte, text: seq<byte>, rest: seq<byte>)

  /** The record at the start of a string of bytes, if it is complete. */
  function Parse(s: seq<byte>): Option<Parsed>
  {
    if |s| < 5 then None
    else
      var len := Length16(s[3], s[4]);
      if |s| < 5 + len then None else Some(Parsed(s[0], s[1], s[2], s[5..5 + len], s[5 + len..]))
  }

  lemma ParseRecord(kind: byte, major: byte, minor: byte, text: seq<byte>, rest: seq<byte>)
    requires |text| < 0x10000
    ensures Parse(Record(kind, major, minor, text) + rest) == Some(Parsed(kind, major, minor, text, rest))
  {
    var s := Record(kind, major, minor, text) + rest;
    assert Length16(s[3], s[4]) == |text|;
    assert s[5..5 + |text|] == text && s[5 + |text|..] == rest;
  }

  /** What follows a complete record does not matter to it. */
  lemma ParseMore(s: seq<byte>, more: seq<byte>)
    requires Parse(s).Some?
    ensures Parse(s + more) == Some(Parse(s).value.(rest := Parse(s).value.rest + more))
  {
    var len := Length16(s[3], s[4]);
    assert (s + more)[5..5 + len] == s[5..5 + len];
    assert (s + more)[5 + len..] == s[5 + len..] + more;
  }

  class MsgBuf {
    const inbuf: Buf
    const outbuf: Buf
    const buffer: Buf
    const source: Transport

    constructor (inbuf: Buf, outbuf: Buf, source: Transport)
      ensures this.inbuf == inbuf && this.outbuf == outbuf && this.source == source && fresh(buffer) && buffer.Valid()
              && fresh(buffer.buf)
      ensures buffer.Live() == []
    {
      this.inbuf, this.outbuf, this.source := inbuf, outbuf, source;
      buffer := new Buf();
    }

    ghost predicate Valid()
      reads this, inbuf, outbuf, buffer
    {
      && inbuf.Valid() && outbuf.Valid() && buffer.Valid()
      && inbuf != outbuf && inbuf != buffer && outbuf != buffer
      && inbuf.buf != outbuf.buf && inbuf.buf != buffer.buf && outbuf.buf != buffer.buf
    }

    /** The bytes received and not yet consumed, and those still to come. */
    ghost function Unread(): seq<byte>
      reads this, inbuf, inbuf.buf, source
      requires inbuf.Valid()
    {
      inbuf.Live() + source.data
    }

    /** The header of the record at the start of the input buffer. */
    method Header() returns (kind: byte, major: byte, minor: byte, len: nat)
      requires inbuf.Valid() && inbuf.size - inbuf.offset >= 5
      ensures var live := inbuf.Live();
              live[..3] == [kind, major, minor] && len == Length16(live[3], live[4])
    {
      var p := inbuf.offset;
      kind, major, minor := inbuf.buf[p], inbuf.buf[p + 1], inbuf.buf[p + 2];
      len := Length16(inbuf.buf[p + 3], inbuf.buf[p + 4]);
    }

    /** Move a complete record from the input buffer to the message buffer. */
    method Take(kind: byte, major: byte, minor: byte, len: nat)
      requires Valid() && 5 + len <= inbuf.size - inbuf.offset
      requires inbuf.Live()[..3] == [kind, major, minor] && len == Length16(inbuf.Live()[3], inbuf.Live()[4])
      modifies inbuf`offset, buffer, buffer.buf
      ensures Valid() && outbuf.Live() == old(outbuf.Live()) && (buffer.buf == old(buffer.buf) || fresh(buffer.buf))
      ensures var r := Parse(old(Unread()));
              && r.Some? && r.value == Parsed(kind, major, minor, r.value.text, Unread())
              && buffer.Live() == old(buffer.Live()) + r.value.text
    {
      hide Parse, Length16;
      ghost var live := inbuf.Live();
      var from := inbuf.offset + 5;
      SubSlice(inbuf.buf[..], inbuf.offset, inbuf.size, 5, 5 + len);
      SubSlice(inbuf.buf[..], inbuf.offset, inbuf.size, 5 + len, |live|);
      buffer.Add(inbuf.buf[from..from + len]);
      inbuf.offset := inbuf.offset + (5 + len);
      ParseLive(live, source.data, kind, major, minor, len);
    }

    /** One call of buf_read on the input buffer. */
    method More() returns (ok: bool)
      requires Valid()
      modifies inbuf, inbuf.buf, source
      ensures Valid() && outbuf.Live() == old(outbuf.Live()) && buffer.Live() == old(buffer.Live())
      ensures Unread() == old(Unread()) && (inbuf.buf == old(inbuf.buf) || fresh(inbuf.buf))
      ensures ok ==> |source.data| < |old(source.data)|
      ensures !ok ==> inbuf.Live() == old(inbuf.Live())
      ensures OneRead(old(source.log), source.log, |old(source.data)| - |source.data|)
      ensures Empties(source.log) == Empties(old(source.log)) + (if ok then 0 else 1)
    {
      ok := inbuf.Read(source);
    }

    /**
     msgbuf_read: if it succeeds, the next record has been moved to the message
     buffer; if it fails, nothing is lost and it can be called again. It fails only
     after a read that brought nothing, and reads only if no record is complete.
     */
    method Read() returns (ok: bool, kind: byte, major: byte, minor: byte)
      requires Valid()
      modifies inbuf, inbuf.buf, buffer, buffer.buf, source
      ensures Valid() && outbuf.Live() == old(outbuf.Live())
      ensures (inbuf.buf == old(inbuf.buf) || fresh(inbuf.buf)) && (buffer.buf == old(buffer.buf) || fresh(buffer.buf))
      ensures !ok ==> Unread() == old(Unread()) && buffer.Live() == old(buffer.Live()) && Parse(inbuf.Live()).None?
      ensures ok ==>
                var r := Parse(old(Unread()));
                && r.Some? && r.value == Parsed(kind, major, minor, r.value.text, Unread())
                && buffer.Live() == old(buffer.Live()) + r.value.text
      ensures Empties(source.log) == Empties(old(source.log)) + (if ok then 0 else 1)
      ensures Parse(old(inbuf.Live())).Some? ==> ok && source.log == old(source.log)
    {
      hide Unread, Length16, Empties;
      kind, major, minor := 0, 0, 0;
      ghost var all, was := Unread(), buffer.Live();
      while true
        invariant Valid() && Unread() == all && buffer.Live() == was && outbuf.Live() == old(outbuf.Live())
        invariant inbuf.buf == old(inbuf.buf) || fresh(inbuf.buf)
        invariant buffer.buf == old(buffer.buf)
        invariant Empties(source.log) == Empties(old(source.log)) && |source.log| >= |old(source.log)|
        invariant source.log == old(source.log) ==> inbuf.Live() == old(inbuf.Live())
        invariant Parse(old(inbuf.Live())).Some? ==> source.log == old(source.log)
        decreases |source.data|
      {
        if inbuf.size - inbuf.offset < 5 {
          var r := More();
          if !r {
            return false, kind, major, minor;
          }
        } else {
          var len;
          kind, major, minor, len := Header();
          if inbuf.size - inbuf.offset < 5 + len {
            var r := More();
            if !r {
              return false, kind, major, minor;
            }
          } else {
            Take(kind, major, minor, len);
            return true, kind, major, minor;
          }
        }
      }
    }

    /** msgbuf_add */
    method Add(data: seq<byte>)
      requires Valid()
      modifies buffer, buffer.buf
      ensures Valid() && (buffer.buf == old(buffer.buf) || fresh(buffer.buf))
      ensures buffer.Live() == old(buffer.Live()) + data && outbuf.Live() == old(outbuf.Live())
              && Unread() == old(Unread())
    {
      buffer.Add(data);
    }

    /** One record of msgbuf_final: the header byte by byte, then the fragment. */
    method PutRecord(kind: byte, len: nat)
      requires Valid() && 1 <= len <= MAX_FRAGMENT && buffer.offset + len <= buffer.size
      modifies outbuf, outbuf.buf, buffer`offset
      ensures Valid() && (outbuf.buf == old(outbuf.buf) || fresh(outbuf.buf))
      ensures buffer.Live() == old(buffer.Live())[len..]
      ensures outbuf.Live() == old(outbuf.Live()) + Record(kind, 3, 0, old(buffer.Live())[..len])
    {
      hide Record;
      ghost var live, out := buffer.Live(), outbuf.Live();
      outbuf.AddHeader(kind, len);
      var from := buffer.offset;
      SubSlice(buffer.buf[..], from, buffer.size, 0, len);
      SubSlice(buffer.buf[..], from, buffer.size, len, |live|);
      outbuf.Add(buffer.buf[from..from + len]);
      HeaderText(out, kind, live[..len], len);
      buffer.offset := buffer.offset + len;
    }

    /** msgbuf_final: the message leaves as records. */
    method Final(kind: byte)
      requires Valid()
      modifies outbuf, outbuf.buf, buffer`offset
      ensures Valid() && (outbuf.buf == old(outbuf.buf) || fresh(outbuf.buf))
      ensures buffer.Live() == [] && outbuf.Live() == old(outbuf.Live()) + Records(kind, old(buffer.Live()))
    {
      hide Record, Records;
      ghost var out, msg := outbuf.Live(), buffer.Live();
      while buffer.offset < buffer.size
        invariant Valid() && (outbuf.buf == old(outbuf.buf) || fresh(outbuf.buf))
        invariant outbuf.Live() + Records(kind, buffer.Live()) == out + Records(kind, msg)
        decreases buffer.size - buffer.offset
      {
        var len := buffer.size - buffer.offset;
        if len > MAX_FRAGMENT {
          len := MAX_FRAGMENT;
        }
        RecordsStep(outbuf.Live(), kind, buffer.Live());
        PutRecord(kind, len);
      }
      NoRecords(kind);
    }

    /** One call of msgbuf_read while the records of a message are arriving. */
    method ReceiveOne(ghost kind: byte, ghost todo: seq<byte>, ghost rest: seq<byte>) returns (ok: bool)
      requires Valid() && Unread() == Records(kind, todo) + rest && todo != []
      modifies inbuf, inbuf.buf, buffer, buffer.buf, source
      ensures Valid() && (inbuf.buf == old(inbuf.buf) || fresh(inbuf.buf))
              && (buffer.buf == old(buffer.buf) || fresh(buffer.buf))
      ensures !ok ==> Unread() == old(Unread()) && buffer.Live() == old(buffer.Live())
      ensures ok ==>
                var later := todo[Fragment(todo)..];
                Unread() == Records(kind, later) + rest && buffer.Live() + later == old(buffer.Live()) + todo
      ensures Empties(source.log) == Empties(old(source.log)) + (if ok then 0 else 1)
    {
      hide Unread, Records, Parse, Buf.Live, Fragment, Empties;
      ParseRecords(kind, todo, rest);
      ghost var was := buffer.Live();
      var k, major, minor;
      ok, k, major, minor := Read();
      if ok {
        assert was + todo[..Fragment(todo)] + todo[Fragment(todo)..] == was + todo;
      }
    }

    /**
     Calls of msgbuf_read as the bytes of a message arrive in any pieces, until
     the wanted number of records is there or no calls are left. Only a read that
     brings nothing costs a call without a record.
     */
    method Receive(calls: nat, want: nat, ghost kind: byte, ghost msg: seq<byte>,
                   ghost rest: seq<byte>) returns (got: nat)
      requires Valid() && Unread() == Records(kind, msg) + rest && want <= NumRecords(msg)
      modifies inbuf, inbuf.buf, buffer, buffer.buf, source
      ensures Valid() && got <= want
      ensures buffer.Live() + Later(msg, got) == old(buffer.Live()) + msg
      ensures Unread() == Records(kind, Later(msg, got)) + rest
      ensures got == NumRecords(msg) ==> buffer.Live() == old(buffer.Live()) + msg && Unread() == rest
      ensures Empties(source.log) >= Empties(old(source.log))
      ensures got == want <==> calls >= want + Empties(source.log) - Empties(old(source.log))
    {
      hide Unread, Records, Buf.Live, NumRecords, Fragment, Empties;
      got := 0;
      var tries := calls;
      ghost var was, todo := buffer.Live(), msg;
      while tries > 0 && got < want
        invariant Valid() && Unread() == Records(kind, todo) + rest
        invariant (inbuf.buf == old(inbuf.buf) || fresh(inbuf.buf))
                  && (buffer.buf == old(buffer.buf) || fresh(buffer.buf))
        invariant got <= want && todo == Later(msg, got)
        invariant buffer.Live() + todo == was + msg
        invariant calls - tries == got + Empties(source.log) - Empties(old(source.log))
        invariant Empties(source.log) >= Empties(old(source.log))
        decreases tries
      {
        LaterDone(msg, got);
        var ok := ReceiveOne(kind, todo, rest);
        if ok {
          todo := todo[Fragment(todo)..];
          got := got + 1;
        }
        tries := tries - 1;
      }
      NoRecords(kind);
      LaterDone(msg, got);
    }
  }

  /** What is left of a message after the first k of its records. */
  function Later(msg: seq<byte>, k: nat): seq<byte>
  {
    if k == 0 then msg
    else
      var before := Later(msg, k - 1);
      before[Fragment(before)..]
  }

  lemma {:induction false} LaterDone(msg: seq<byte>, k: nat)
    requires k <= NumRecords(msg)
    ensures NumRecords(Later(msg, k)) == NumRecords(msg) - k && (Later(msg, k) == [] <==> k == NumRecords(msg))
    decreases k
  {
    if k > 0 {
      LaterDone(msg, k - 1);
    }
  }

  /** The first record of a message that stands at the start of the bytes. */
  lemma ParseRecords(kind: byte, msg: seq<byte>, rest: seq<byte>)
    requires msg != []
    ensures var n := Fragment(msg);
            Parse(Records(kind, msg) + rest) == Some(Parsed(kind, 3, 0, msg[..n], Records(kind, msg[n..]) + rest))
  {
    hide Record, Parse;
    var n := Fragment(msg);
    var first, later := Record(kind, 3, 0, msg[..n]), Records(kind, msg[n..]);
    ParseRecord(kind, 3, 0, msg[..n], later + rest);
    assert first + later + rest == first + (later + rest);
  }

  lemma HeaderText(out: seq<byte>, kind: byte, text: seq<byte>, len: nat)
    requires |text| == len < 0x10000
    ensures out + [kind, 3, 0, len / 256, len % 256] + text == out + Record(kind, 3, 0, text)
  {}

  lemma NoRecords(kind: byte)
    ensures Records(kind, []) == []
  {}

  lemma RecordsStep(out: seq<byte>, kind: byte, msg: seq<byte>)
    requires msg != []
    ensures out + Records(kind, msg) == out + Record(kind, 3, 0, msg[..Fragment(msg)])
            + Records(kind, msg[Fragment(msg)..])
  {
    hide Record;
  }

  lemma SubSlice(w: seq<byte>, a: nat, b: nat, i: nat, j: nat)
    requires i <= j <= b - a && a <= b <= |w|
    ensures w[a..b][i..j] == w[a + i..a + j]
  {
    var x, y := w[a..b][i..j], w[a + i..a + j];
    forall k | 0 <= k < |x|
      ensures x[k] == y[k]
    {
      assert x[k] == w[a..b][i + k];
    }
  }

  lemma ParseLive(live: seq<byte>, more: seq<byte>, kind: byte, major: byte, minor: byte, len: nat)
    requires |live| >= 5 + len && live[..3] == [kind, major, minor] && len == Length16(live[3], live[4])
    ensures Parse(live + more) == Some(Parsed(kind, major, minor, live[5..5 + len], live[5 + len..] + more))
  {
    assert live[0] == live[..3][0] && live[1] == live[..3][1] && live[2] == live[..3][2];
    ParseMore(live, more);
  }

  // ----- handshake messages -----

  function Length24(a: byte, b: byte, c: byte): nat
  {
    (a as int * 256 + b as int) * 256 + c as int
  }

  /** A handshake message: its type, the low 24 bits of its length and its text. */
  function Handshake(kind: byte, text: seq<byte>): seq<byte>
  {
    [kind, |text| / 0x10000 % 256, |text| / 256 % 256, |text| % 256] + text
  }

  /** The handshake message at the start of a string of bytes: type, text and the rest. */
  function ParseHandshake(s: seq<byte>): Option<(byte, seq<byte>, seq<byte>)>
  {
    if |s| < 4 then None
    else
      var len := Length24(s[1], s[2], s[3]);
      if |s| < 4 + len then None else Some((s[0], s[4..4 + len], s[4 + len..]))
  }

  /** The text is found again exactly if its length fits in the field. */
  lemma HandshakeRoundTrip(kind: byte, text: seq<byte>, rest: seq<byte>)
    ensures ParseHandshake(Handshake(kind, text) + rest) == Some((kind, text, rest)) <==> |text| < 0x100_0000
  {
    var s, n := Handshake(kind, text) + rest, |text|;
    var len := Length24(s[1], s[2], s[3]);
    LowBits(n);
    if n < 0x100_0000 {
      assert s[4..4 + n] == text && s[4 + n..] == rest;
    } else {
      assert len != n;
    }
  }

  lemma LowBits(n: nat)
    ensures Length24(n / 0x10000 % 256, n / 256 % 256, n % 256) == n % 0x100_0000
  {
    var m := n / 256;
    var k := m / 256;
    Third(n);
    assert n == 256 * m + n % 256 && m == 256 * k + m % 256 && k == 256 * (k / 256) + k % 256;
    Remainder(n, k / 256, Length24(k % 256, m % 256, n % 256));
  }

  lemma Third(n: nat)
    ensures n / 0x10000 == n / 256 / 256
  {}

  lemma Remainder(n: nat, q: nat, r: nat)
    requires n == 0x100_0000 * q + r && r < 0x100_0000
    ensures n % 0x100_0000 == r
  {}

  /** hsbuf_final */
  method HsFinal(hs: Buf, kind: byte, m: MsgBuf)
    requires m.Valid() && hs.Valid() && hs !in {m.inbuf, m.outbuf, m.buffer}
             && hs.buf !in {m.inbuf.buf, m.outbuf.buf, m.buffer.buf}
    modifies hs`offset, m.buffer, m.buffer.buf
    ensures m.Valid() && hs.Valid() && hs.Live() == [] && m.outbuf.Live() == old(m.outbuf.Live())
    ensures m.buffer.Live() == old(m.buffer.Live()) + Handshake(kind, old(hs.Live()))
  {
    hide Handshake;
    ghost var was, text := m.buffer.Live(), hs.Live();
    var len := hs.size - hs.offset;
    m.buffer.AddWord(kind, len);
    m.Add(hs.buf[hs.offset..hs.offset + len]);
    hs.offset := hs.offset + len;
    HandshakeBytes(was, kind, text);
  }

  lemma HandshakeBytes(was: seq<byte>, kind: byte, text: seq<byte>)
    ensures was + [kind, |text| / 0x10000 % 256, |text| / 256 % 256, |text| % 256] + text == was + Handshake(kind, text)
  {}

  /** A body of 2^24 bytes is read back as an empty one. */
  lemma LengthLost(text: seq<byte>)
    requires |text| == 0x100_0000
    ensures ParseHandshake(Handshake(1, text)) == Some((1, [], text))
  {
    var s := Handshake(1, text);
    LowBits(|text|);
    assert s[4..4] == [] && s[4..] == text;
  }
}
