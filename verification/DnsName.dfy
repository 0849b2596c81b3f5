/**
 Domain names in the format of sections 3.1 and 4.1.4 of RFC 1035: the encoder,
 the reader with its compression pointers, and the length of a name.
 */
module DnsName {
  import opened Bits
  import opened Canonical

  const DOT: byte := 46
  const MAX_LABEL: nat := 63
  const MAX_NAME: nat := 255
  const MAX_JUMPS: nat := 256

  // ----- what the encoder writes -----

  /** The position of the first dot, or the length if there is none. */
  function FirstDot(q: seq<byte>): (k: nat)
    ensures k <= |q|
  {
    if q == [] || q[0] == DOT then 0 else 1 + FirstDot(q[1..])
  }

  /** The labels of a name that ends in a dot, each with its length, and the empty label. */
  function EncodeLabels(q: seq<byte>): (r: Option<seq<byte>>)
    ensures r.Some? ==> |r.value| == |q| + 1
    decreases |q|
  {
    if q == [] then Some([0])
    else
      var k := FirstDot(q);
      if k == |q| || k > MAX_LABEL || k == 0 then None
      else
        match EncodeLabels(q[k + 1..])
        case None => None
        case Some(rest) => Some([k] + q[..k] + rest)
  }

  function EncodeName(q: seq<byte>): Option<seq<byte>>
  {
    if q == [DOT] then Some([0]) else EncodeLabels(q)
  }

  // ----- what the reader makes of a buffer -----

  /** Where a compression pointer leads. */
  function Target(hi: byte, lo: byte): nat
  {
    hi % 64 * 256 + lo
  }

  /** The labels from offset on, each followed by a dot, after those in acc. */
  function ReadLabels(b: seq<byte>, size: nat, offset: nat, acc: seq<byte>, jumps: nat): (r: Option<seq<byte>>)
    requires size < |b| && |acc| <= MAX_NAME && jumps <= MAX_JUMPS + 1
    ensures r.Some? ==> acc <= r.value && |r.value| <= MAX_NAME
    decreases MAX_JUMPS + 1 - jumps, MAX_NAME - |acc|
  {
    if offset >= size || b[offset] == 0 then Some(acc)
    else
      var len := b[offset];
      if len >= 64 then
        if len < 192 then None
        else
          var next := Target(len, b[offset + 1]);
          if next >= size || jumps > MAX_JUMPS then None else ReadLabels(b, size, next, acc, jumps + 1)
      else if offset + len + 1 > size || |acc| + len + 1 > MAX_NAME then None
      else ReadLabels(b, size, offset + len + 1, acc + b[offset + 1..offset + 1 + len] + [DOT], jumps)
  }

  /** The name without its final dot. */
  function Trim(s: seq<byte>): seq<byte>
  {
    if s == [] then [] else s[..|s| - 1]
  }

  datatype Stop = Zero | Pointer | Edge | Bad

  /** Where the labels that stand at offset end, and how. */
  function Span(b: seq<byte>, size: nat, offset: nat): (r: (nat, Stop))
    requires size < |b|
    ensures offset <= r.0
    decreases size - offset
  {
    if offset >= size then (offset, Edge)
    else if b[offset] == 0 then (offset, Zero)
    else if b[offset] >= 64 then (offset, if b[offset] >= 192 then Pointer else Bad)
    else if offset + b[offset] + 1 > size then (offset, Bad)
    else Span(b, size, offset + b[offset] + 1)
  }

  /** The bytes the reader counts for a name: its own ones, with a pointer or the empty label. */
  function Count(b: seq<byte>, size: nat, offset: nat): nat
    requires size < |b|
  {
    var (end, stop) := Span(b, size, offset);
    end - offset + (if stop == Pointer then 2 else 1)
  }

  /** The count ReadName returns: that of the bytes, or -1 if the name cannot be read. */
  function ReadCount(b: seq<byte>, size: nat, offset: nat): int
    requires size < |b|
  {
    if ReadLabels(b, size, offset, [], 0).None? then -1 else Count(b, size, offset)
  }

  function NameLen(b: seq<byte>, size: nat, offset: nat): int
    requires size < |b|
  {
    var (end, stop) := Span(b, size, offset);
    if stop == Bad then -1 else end - offset + (if stop == Edge then 0 else 1)
  }

  // ----- the encoder -----

  /** memcpy of a label behind its length byte. */
  method PutLabel(dns: array<byte>, at: nat, text: seq<byte>)
    requires |text| <= MAX_LABEL && at + 1 + |text| <= dns.Length
    modifies dns
    ensures dns[..at] == old(dns[..at]) && dns[at..at + 1 + |text|] == [|text|] + text
  {
    dns[at] := |text|;
    var i := 0;
    while i < |text|
      invariant 0 <= i <= |text| && dns[..at] == old(dns[..at]) && dns[at] == |text|
      invariant forall k | 0 <= k < i :: dns[at + 1 + k] == text[k]
    {
      dns[at + 1 + i] := text[i];
      i := i + 1;
    }
  }

  /** strchr */
  method FindDot(q: seq<byte>, from: nat) returns (k: nat)
    requires from <= |q|
    ensures k == FirstDot(q[from..])
  {
    k := 0;
    while from + k < |q| && q[from + k] != DOT
      invariant from + k <= |q| && FirstDot(q[from..]) == k + FirstDot(q[from + k..])
    {
      assert q[from + k..][0] == q[from + k] && q[from + k..][1..] == q[from + k + 1..];
      k := k + 1;
    }
    assert from + k < |q| ==> q[from + k..][0] == DOT;
  }

  /** The whole encoding is front and then the part, if there is any. */
  ghost predicate Joins(whole: Option<seq<byte>>, front: seq<byte>, part: Option<seq<byte>>)
  {
    match part
    case None => whole.None?
    case Some(rest) => whole == Some(front + rest)
  }

  /** The labels before src are encoded in front; the rest decides the result. */
  ghost predicate Encoding(q: seq<byte>, src: nat, front: seq<byte>)
    requires src <= |q|
  {
    Joins(EncodeLabels(q), front, EncodeLabels(q[src..]))
  }

  lemma JoinsMore(whole: Option<seq<byte>>, front: seq<byte>, part: Option<seq<byte>>, piece: seq<byte>,
                  next: Option<seq<byte>>)
    requires Joins(whole, front, part)
    requires next.None? ==> part.None?
    requires next.Some? ==> part == Some(piece + next.value)
    ensures Joins(whole, front + piece, next)
  {
    if next.Some? {
      assert front + (piece + next.value) == front + piece + next.value;
    }
  }

  lemma EncodeStep(s: seq<byte>)
    requires s != []
    ensures var k := FirstDot(s);
            && (k == |s| || k > MAX_LABEL || k == 0 ==> EncodeLabels(s).None?)
            && (k < |s| && 1 <= k <= MAX_LABEL ==>
                  && (EncodeLabels(s[k + 1..]).None? ==> EncodeLabels(s).None?)
                  && (EncodeLabels(s[k + 1..]).Some? ==>
                      EncodeLabels(s) == Some([k] + s[..k] + EncodeLabels(s[k + 1..]).value)))
  {
    hide FirstDot;
  }

  lemma EncodingGood(q: seq<byte>, src: nat, front: seq<byte>, k: nat)
    requires src < |q| && Encoding(q, src, front) && k == FirstDot(q[src..]) && k < |q| - src && 1 <= k <= MAX_LABEL
    ensures Encoding(q, src + k + 1, front + ([k] + q[src..src + k]))
  {
    hide FirstDot, EncodeLabels, Joins;
    EncodeStep(q[src..]);
    Slices(q, src, k);
    JoinsMore(EncodeLabels(q), front, EncodeLabels(q[src..]), [k] + q[src..src + k], EncodeLabels(q[src + k + 1..]));
  }

  lemma EncodingBad(q: seq<byte>, src: nat, front: seq<byte>, k: nat)
    requires src < |q| && Encoding(q, src, front) && k == FirstDot(q[src..])
             && (k == |q| - src || k == 0 || k > MAX_LABEL)
    ensures EncodeLabels(q).None?
  {
    hide FirstDot, EncodeLabels, Joins;
    EncodeStep(q[src..]);
    JoinsNone(EncodeLabels(q), front, EncodeLabels(q[src..]));
  }

  lemma Slices(q: seq<byte>, src: nat, k: nat)
    requires src + k < |q|
    ensures q[src..][k + 1..] == q[src + k + 1..] && q[src..][..k] == q[src..src + k]
  {}

  lemma JoinsNone(whole: Option<seq<byte>>, front: seq<byte>, part: Option<seq<byte>>)
    requires Joins(whole, front, part) && part.None?
    ensures whole.None?
  {}

  /** ChangetoDnsNameFormat: the encoding of the name, or -1 if it has none or does not fit. */
  method ChangeToDnsNameFormat(dns: array<byte>, maxlen: nat, qry: seq<byte>) returns (n: int)
    requires maxlen <= dns.Length
    modifies dns
    ensures n == -1 <==> |qry| + 1 > maxlen || EncodeName(qry).None?
    ensures n != -1 ==> 0 <= n <= maxlen && EncodeName(qry) == Some(dns[..n])
  {
    hide EncodeLabels, FirstDot, Encoding;
    if |qry| + 1 > maxlen {
      return -1;
    }
    if qry == [DOT] {
      dns[0] := 0;
      assert dns[..1] == [0];
      return 1;
    }
    var src := 0;
    EncodingStart(qry);
    while src < |qry|
      invariant 0 <= src <= |qry| && Encoding(qry, src, dns[..src])
    {
      ghost var front := dns[..src];
      var k := FindDot(qry, src);
      if k == |qry| - src {
        EncodingBad(qry, src, front, k);
        return -1;
      }
      if k > MAX_LABEL {
        EncodingBad(qry, src, front, k);
        return -1;
      }
      if k == 0 {
        EncodingBad(qry, src, front, k);
        return -1;
      }
      EncodingGood(qry, src, front, k);
      PutLabel(dns, src, qry[src..src + k]);
      assert dns[..src + k + 1] == front + dns[src..src + k + 1];
      src := src + k + 1;
    }
    EncodingEnd(qry, dns[..src]);
    dns[src] := 0;
    assert dns[..src + 1] == dns[..src] + [0];
    return src + 1;
  }

  lemma EncodingStart(q: seq<byte>)
    ensures Encoding(q, 0, [])
  {
    hide EncodeLabels;
    assert q[0..] == q;
    if EncodeLabels(q).Some? {
      assert [] + EncodeLabels(q).value == EncodeLabels(q).value;
    }
  }

  lemma EncodingEnd(q: seq<byte>, front: seq<byte>)
    requires Encoding(q, |q|, front)
    ensures EncodeLabels(q) == Some(front + [0])
  {}

  // ----- the reader -----

  /** The count so far: up to the first pointer, the labels passed; after it, the final count. */
  ghost predicate Counting(b: seq<byte>, size: nat, start: nat, offset: nat, jumps: nat, count: int)
    requires size < |b|
  {
    if jumps == 0 then start <= offset && count == offset - start && Span(b, size, start) == Span(b, size, offset)
    else count == Count(b, size, start)
  }

  method CopyLabel(name: array<byte>, p: nat, base: array<byte>, from: nat, len: nat)
    requires name != base && p + len < name.Length && from + len <= base.Length
    modifies name
    ensures name[..p + len + 1] == old(name[..p]) + base[from..from + len] + [DOT]
  {
    var i := 0;
    while i < len
      invariant 0 <= i <= len && name[..p + i] == old(name[..p]) + base[from..from + i]
    {
      name[p + i] := base[from + i];
      assert name[..p + i + 1] == name[..p + i] + [base[from + i]];
      i := i + 1;
    }
    name[p + len] := DOT;
    assert name[..p + len + 1] == name[..p + len] + [DOT];
  }

  /** ReadName: total on every buffer, also one whose pointers form a cycle. */
  method ReadName(base: array<byte>, size: nat, start: nat) returns (r: Option<seq<byte>>, count: int)
    requires size < base.Length
    ensures var labels := ReadLabels(base[..], size, start, [], 0);
            && (labels.None? ==> r.None?) && (labels.Some? ==> r == Some(Trim(labels.value)))
            && count == ReadCount(base[..], size, start)
  {
    hide ReadLabels, Span, Target, Count;
    ghost var b := base[..];
    var name := new byte[256];
    var p: nat, jumps: nat, offset: nat := 0, 0, start;
    count := 0;
    assert name[..0] == [];
    while offset < size && base[offset] != 0
      invariant p <= MAX_NAME && jumps <= MAX_JUMPS + 1 && base[..] == b
      invariant ReadLabels(b, size, start, [], 0) == ReadLabels(b, size, offset, name[..p], jumps)
      invariant Counting(b, size, start, offset, jumps, count)
      decreases MAX_JUMPS + 1 - jumps, MAX_NAME - p
    {
      var len := base[offset];
      ReadStep(b, size, offset, name[..p], jumps);
      SpanStep(b, size, offset);
      if len >= 64 {
        if len < 192 {
          return None, -1;
        }
        var next := Target(len, base[offset + 1]);
        if next >= size {
          return None, -1;
        }
        if jumps > MAX_JUMPS {
          return None, -1;
        }
        CountJump(b, size, start, offset, jumps, count);
        offset := next;
        if jumps == 0 {
          count := count + 2;
        }
        jumps := jumps + 1;
      } else {
        if offset + len + 1 > size {
          return None, -1;
        }
        if p + len + 1 > MAX_NAME {
          return None, -1;
        }
        CopyLabel(name, p, base, offset + 1, len);
        p := p + len + 1;
        offset := offset + len + 1;
        if jumps == 0 {
          count := count + (len + 1);
        }
      }
    }
    ReadEnd(b, size, offset, name[..p], jumps);
    CountEnd(b, size, start, offset, jumps, count);
    if jumps == 0 {
      count := count + 1;
    }
    r := Some(if p > 0 then name[..p - 1] else []);
    assert p > 0 ==> name[..p][..p - 1] == name[..p - 1];
  }

  lemma ReadStep(b: seq<byte>, size: nat, offset: nat, acc: seq<byte>, jumps: nat)
    requires offset < size < |b| && b[offset] != 0 && |acc| <= MAX_NAME && jumps <= MAX_JUMPS + 1
    ensures var len := b[offset];
            && (64 <= len < 192 ==> ReadLabels(b, size, offset, acc, jumps).None?)
            && (len >= 192 ==>
                  var next := Target(len, b[offset + 1]);
                  ReadLabels(b, size, offset, acc, jumps)
                  == if next >= size || jumps > MAX_JUMPS then None else ReadLabels(b, size, next, acc, jumps + 1))
            && (len < 64 ==>
                  ReadLabels(b, size, offset, acc, jumps)
                  == if offset + len + 1 > size || |acc| + len + 1 > MAX_NAME then None
                     else ReadLabels(b, size, offset + len + 1, acc + b[offset + 1..offset + 1 + len] + [DOT], jumps))
  {
    hide Target;
  }

  lemma ReadEnd(b: seq<byte>, size: nat, offset: nat, acc: seq<byte>, jumps: nat)
    requires size < |b| && (offset < size ==> b[offset] == 0) && |acc| <= MAX_NAME && jumps <= MAX_JUMPS + 1
    ensures ReadLabels(b, size, offset, acc, jumps) == Some(acc)
  {}

  lemma SpanStep(b: seq<byte>, size: nat, offset: nat)
    requires offset < size < |b| && b[offset] != 0
    ensures b[offset] >= 192 ==> Span(b, size, offset) == (offset, Pointer)
    ensures b[offset] < 64 && offset + b[offset] + 1 <= size ==>
            Span(b, size, offset) == Span(b, size, offset + b[offset] + 1)
  {}

  lemma CountJump(b: seq<byte>, size: nat, start: nat, offset: nat, jumps: nat, count: int)
    requires size < |b| && Counting(b, size, start, offset, jumps, count) && Span(b, size, offset) == (offset, Pointer)
    ensures Count(b, size, start) == count + (if jumps == 0 then 2 else 0)
  {
    hide Span;
  }

  lemma CountEnd(b: seq<byte>, size: nat, start: nat, offset: nat, jumps: nat, count: int)
    requires size < |b| && Counting(b, size, start, offset, jumps, count) && (offset < size ==> b[offset] == 0)
    ensures Count(b, size, start) == count + (if jumps == 0 then 1 else 0)
  {}

  /** dns_namelen */
  method DnsNameLen(base: array<byte>, start: nat, size: nat) returns (n: int)
    requires size < base.Length
    ensures n == NameLen(base[..], size, start)
  {
    hide Span;
    ghost var b := base[..];
    var offset: nat := start;
    while offset < size
      invariant start <= offset && base[..] == b && Span(b, size, start) == Span(b, size, offset)
      decreases size - offset
    {
      var len := base[offset];
      SpanCases(b, size, offset);
      if len >= 64 {
        if len < 192 {
          return -1;
        }
        offset := offset + 1;
        return offset - start;
      }
      if offset + len + 1 > size {
        return -1;
      }
      offset := offset + (len + 1);
      if len == 0 {
        return offset - start;
      }
    }
    SpanCases(b, size, offset);
    return offset - start;
  }

  lemma SpanCases(b: seq<byte>, size: nat, offset: nat)
    requires size < |b|
    ensures offset >= size ==> Span(b, size, offset) == (offset, Edge)
    ensures offset < size && b[offset] == 0 ==> Span(b, size, offset) == (offset, Zero)
    ensures offset < size && b[offset] >= 192 ==> Span(b, size, offset) == (offset, Pointer)
    ensures offset < size && 64 <= b[offset] < 192 ==> Span(b, size, offset) == (offset, Bad)
    ensures offset < size && 0 < b[offset] < 64 && offset + b[offset] + 1 > size ==>
            Span(b, size, offset) == (offset, Bad)
    ensures offset < size && 0 < b[offset] < 64 && offset + b[offset] + 1 <= size ==>
              Span(b, size, offset) == Span(b, size, offset + b[offset] + 1)
  {}

  // ----- round trips -----

  /** The bytes f stand in the buffer at offset, within its size. */
  ghost predicate Stands(b: seq<byte>, size: nat, offset: nat, f: seq<byte>)
  {
    size < |b| && offset + |f| <= size && b[offset..offset + |f|] == f
  }

  lemma StandsSplit(b: seq<byte>, size: nat, offset: nat, f: seq<byte>, g: seq<byte>)
    requires Stands(b, size, offset, f + g)
    ensures Stands(b, size, offset, f) && Stands(b, size, offset + |f|, g)
  {
    var both := b[offset..offset + |f + g|];
    assert b[offset..offset + |f|] == both[..|f|];
    assert b[offset + |f|..offset + |f| + |g|] == both[|f|..];
  }

  lemma StandsFirst(b: seq<byte>, size: nat, offset: nat, f: seq<byte>)
    requires Stands(b, size, offset, f) && f != []
    ensures offset < size < |b| && b[offset] == f[0]
  {
    assert b[offset] == b[offset..offset + |f|][0];
  }

  /** One label: the reader takes its text and a dot and goes on behind it. */
  lemma LabelRead(b: seq<byte>, size: nat, offset: nat, text: seq<byte>, acc: seq<byte>, jumps: nat)
    requires 1 <= |text| <= MAX_LABEL && Stands(b, size, offset, [|text|] + text) && |acc| <= MAX_NAME
             && jumps <= MAX_JUMPS + 1
    ensures |acc| + |text| + 1 <= MAX_NAME ==>
              ReadLabels(b, size, offset, acc, jumps)
                  == ReadLabels(b, size, offset + |text| + 1, acc + (text + [DOT]), jumps)
    ensures |acc| + |text| + 1 > MAX_NAME ==> ReadLabels(b, size, offset, acc, jumps).None?
    ensures Span(b, size, offset) == Span(b, size, offset + |text| + 1)
  {
    hide ReadLabels, Span;
    StandsFirst(b, size, offset, [|text|] + text);
    StandsSplit(b, size, offset, [|text|], text);
    ReadStep(b, size, offset, acc, jumps);
    SpanStep(b, size, offset);
    assert acc + text + [DOT] == acc + (text + [DOT]);
  }

  /** The labels of q, then whatever stands behind them. */
  lemma {:induction false} LabelsRead(b: seq<byte>, size: nat, offset: nat, q: seq<byte>, enc: seq<byte>,
                                      acc: seq<byte>, jumps: nat)
    requires EncodeLabels(q) == Some(enc) && Stands(b, size, offset, enc[..|q|]) && |acc| <= MAX_NAME
             && jumps <= MAX_JUMPS + 1
    ensures |acc| + |q| <= MAX_NAME ==>
              ReadLabels(b, size, offset, acc, jumps) == ReadLabels(b, size, offset + |q|, acc + q, jumps)
    ensures |acc| + |q| > MAX_NAME ==> ReadLabels(b, size, offset, acc, jumps).None?
    ensures Span(b, size, offset) == Span(b, size, offset + |q|)
    decreases |q|
  {
    hide ReadLabels, Span, FirstDot, Stands, EncodeLabels;
    if q == [] {
      assert acc + q == acc;
    } else {
      EncodeParts(q, enc);
      var k := FirstDot(q);
      var text, tail := q[..k], q[k + 1..];
      var rest := EncodeLabels(tail).value;
      EncodedFront(q, enc, k, rest);
      StandsSplit(b, size, offset, [k] + text, rest[..|tail|]);
      LabelRead(b, size, offset, text, acc, jumps);
      if |acc| + k + 1 <= MAX_NAME {
        LabelsRead(b, size, offset + k + 1, tail, rest, acc + (text + [DOT]), jumps);
        JoinedName(acc, q, k);
      } else {
        LabelsRead(b, size, offset + k + 1, tail, rest, [], 0);
      }
    }
  }

  lemma EncodedFront(q: seq<byte>, enc: seq<byte>, k: byte, rest: seq<byte>)
    requires k < |q| && enc == [k] + q[..k] + rest && |rest| == |q| - k
    ensures enc[..|q|] == [k] + q[..k] + rest[..|q| - k - 1]
  {}

  lemma JoinedName(acc: seq<byte>, q: seq<byte>, k: nat)
    requires k < |q| && q == q[..k] + [DOT] + q[k + 1..]
    ensures acc + (q[..k] + [DOT]) + q[k + 1..] == acc + q
  {
    assert q[..k] + [DOT] + q[k + 1..] == q;
  }

  lemma EncodeParts(q: seq<byte>, enc: seq<byte>)
    requires EncodeLabels(q) == Some(enc) && q != []
    ensures var k := FirstDot(q);
            && 1 <= k <= MAX_LABEL && k < |q| && q == q[..k] + [DOT] + q[k + 1..]
            && EncodeLabels(q[k + 1..]).Some? && enc == [k] + q[..k] + EncodeLabels(q[k + 1..]).value
  {
    hide FirstDot, EncodeLabels;
    EncodeStep(q);
    DotThere(q);
    DotSplit(q, FirstDot(q));
  }

  lemma DotSplit(q: seq<byte>, k: nat)
    ensures k < |q| && q[k] == DOT ==> q == q[..k] + [DOT] + q[k + 1..]
  {}

  lemma {:induction false} DotThere(q: seq<byte>)
    ensures FirstDot(q) < |q| ==> q[FirstDot(q)] == DOT
    decreases |q|
  {
    if q != [] && q[0] != DOT {
      DotThere(q[1..]);
    }
  }

  /**
   Reading back an encoded name gives the name without its final dot, exactly if
   it has at most MAX_NAME bytes; the counts agree with the encoder's.
   */
  lemma RoundTrip(b: seq<byte>, size: nat, offset: nat, q: seq<byte>, enc: seq<byte>)
    requires q != [] && EncodeName(q) == Some(enc) && Stands(b, size, offset, enc)
    ensures (exists s :: ReadLabels(b, size, offset, [], 0) == Some(s) && Trim(s) == q[..|q| - 1]) <==> |q| <= MAX_NAME
    ensures |q| > MAX_NAME ==> ReadLabels(b, size, offset, [], 0).None?
    ensures Count(b, size, offset) == NameLen(b, size, offset) == |enc|
    ensures |q| <= MAX_NAME ==> ReadCount(b, size, offset) == |enc|
  {
    hide ReadLabels, Span, EncodeLabels, Stands;
    if q == [DOT] {
      StandsFirst(b, size, offset, enc);
      ReadEnd(b, size, offset, [], 0);
      SpanCases(b, size, offset);
    } else {
      EncodedEnd(q, enc);
      assert enc == enc[..|q|] + [0];
      StandsSplit(b, size, offset, enc[..|q|], [0]);
      LabelsRead(b, size, offset, q, enc, [], 0);
      StandsFirst(b, size, offset + |q|, [0]);
      assert [] + q == q;
      if |q| <= MAX_NAME {
        ReadEnd(b, size, offset + |q|, q, 0);
      }
      SpanCases(b, size, offset + |q|);
    }
  }

  lemma {:induction false} EncodedEnd(q: seq<byte>, enc: seq<byte>)
    requires EncodeLabels(q) == Some(enc)
    ensures |enc| == |q| + 1 && enc[|q|] == 0
    decreases |q|
  {
    hide FirstDot;
    if q != [] {
      EncodeParts(q, enc);
      var k := FirstDot(q);
      EncodedEnd(q[k + 1..], EncodeLabels(q[k + 1..]).value);
    }
  }

  /** A name that ends with an empty label, after the labels already read. */
  lemma WholeRead(b: seq<byte>, size: nat, offset: nat, q: seq<byte>, enc: seq<byte>, acc: seq<byte>, jumps: nat)
    requires EncodeLabels(q) == Some(enc) && Stands(b, size, offset, enc) && |acc| + |q| <= MAX_NAME
             && jumps <= MAX_JUMPS + 1
    ensures ReadLabels(b, size, offset, acc, jumps) == Some(acc + q)
  {
    hide ReadLabels, Span, EncodeLabels, Stands;
    EncodedEnd(q, enc);
    assert enc == enc[..|q|] + [0];
    StandsSplit(b, size, offset, enc[..|q|], [0]);
    LabelsRead(b, size, offset, q, enc, acc, jumps);
    StandsFirst(b, size, offset + |q|, [0]);
    ReadEnd(b, size, offset + |q|, acc + q, jumps);
  }

  /** A pointer: the reader goes on where it leads. */
  lemma PointerRead(b: seq<byte>, size: nat, at: nat, hi: byte, lo: byte, acc: seq<byte>, jumps: nat)
    requires 192 <= hi && Stands(b, size, at, [hi, lo]) && Target(hi, lo) < size && |acc| <= MAX_NAME
             && jumps <= MAX_JUMPS
    ensures ReadLabels(b, size, at, acc, jumps) == ReadLabels(b, size, Target(hi, lo), acc, jumps + 1)
    ensures Span(b, size, at) == (at, Pointer)
  {
    hide ReadLabels, Span, Target;
    StandsFirst(b, size, at, [hi, lo]);
    SecondByte(b, size, at, hi, lo);
    ReadStep(b, size, at, acc, jumps);
    SpanCases(b, size, at);
  }

  /** A name whose end is replaced by a pointer to a name with that end. */
  lemma CompressedName(b: seq<byte>, size: nat, offset: nat, q: seq<byte>, enc: seq<byte>, hi: byte, lo: byte,
                       end: seq<byte>, endEnc: seq<byte>)
    requires EncodeLabels(q) == Some(enc) && 192 <= hi && Stands(b, size, offset, enc[..|q|] + [hi, lo])
    requires EncodeLabels(end) == Some(endEnc) && Stands(b, size, Target(hi, lo), endEnc) && |q| + |end| <= MAX_NAME
    ensures ReadLabels(b, size, offset, [], 0) == Some(q + end)
    ensures ReadCount(b, size, offset) == |q| + 2
  {
    hide ReadLabels, Span, EncodeLabels, Stands, Target, ReadCount;
    FrontRead(b, size, offset, q, enc, hi, lo);
    PointerEnd(b, size, offset + |q|, q, hi, lo, end, endEnc);
    PointerCounted(b, size, offset, offset + |q|);
  }

  /** A pointer to an offset, written as its two bytes. */
  lemma TargetIs(t: nat)
    requires t < 0x4000
    ensures 192 <= 192 + t / 256 < 256 && Target(192 + t / 256, t % 256) == t
  {}

  /** A name whose end is replaced by a pointer, for every offset that fits in its fourteen bits. */
  lemma PointerTo(b: seq<byte>, size: nat, offset: nat, q: seq<byte>, enc: seq<byte>, t: nat, end: seq<byte>,
                  endEnc: seq<byte>)
    requires t < 0x4000 && EncodeLabels(q) == Some(enc)
             && Stands(b, size, offset, enc[..|q|] + [192 + t / 256, t % 256])
    requires EncodeLabels(end) == Some(endEnc) && Stands(b, size, t, endEnc) && |q| + |end| <= MAX_NAME
    ensures ReadLabels(b, size, offset, [], 0) == Some(q + end)
    ensures ReadCount(b, size, offset) == |q| + 2
  {
    hide ReadLabels, Span, EncodeLabels, Stands, Target, ReadCount;
    TargetIs(t);
    CompressedName(b, size, offset, q, enc, 192 + t / 256, t % 256, end, endEnc);
  }

  lemma FrontRead(b: seq<byte>, size: nat, offset: nat, q: seq<byte>, enc: seq<byte>, hi: byte, lo: byte)
    requires EncodeLabels(q) == Some(enc) && Stands(b, size, offset, enc[..|q|] + [hi, lo]) && |q| <= MAX_NAME
    ensures size < |b| && Stands(b, size, offset + |q|, [hi, lo])
    ensures Span(b, size, offset) == Span(b, size, offset + |q|)
    ensures ReadLabels(b, size, offset, [], 0) == ReadLabels(b, size, offset + |q|, q, 0)
  {
    hide ReadLabels, Span, EncodeLabels, Stands;
    StandsSplit(b, size, offset, enc[..|q|], [hi, lo]);
    LabelsRead(b, size, offset, q, enc, [], 0);
    assert [] + q == q;
  }

  lemma PointerEnd(b: seq<byte>, size: nat, at: nat, q: seq<byte>, hi: byte, lo: byte, end: seq<byte>,
                   endEnc: seq<byte>)
    requires 192 <= hi && Stands(b, size, at, [hi, lo]) && Stands(b, size, Target(hi, lo), endEnc)
    requires EncodeLabels(end) == Some(endEnc) && |q| + |end| <= MAX_NAME
    ensures ReadLabels(b, size, at, q, 0) == Some(q + end) && Span(b, size, at) == (at, Pointer)
  {
    hide ReadLabels, Span, EncodeLabels, Stands, Target;
    EncodedEnd(end, endEnc);
    StandsFirst(b, size, Target(hi, lo), endEnc);
    PointerRead(b, size, at, hi, lo, q, 0);
    WholeRead(b, size, Target(hi, lo), end, endEnc, q, 1);
  }

  lemma PointerCounted(b: seq<byte>, size: nat, offset: nat, end: nat)
    requires size < |b| && ReadLabels(b, size, offset, [], 0).Some? && Span(b, size, offset) == (end, Pointer)
    ensures ReadCount(b, size, offset) == end - offset + 2
  {}

  lemma SecondByte(b: seq<byte>, size: nat, at: nat, hi: byte, lo: byte)
    requires Stands(b, size, at, [hi, lo])
    ensures at + 1 < |b| && b[at + 1] == lo
  {
    assert b[at + 1] == b[at..at + 2][1];
  }

  /** A name whose own labels are malformed is refused. */
  lemma {:induction false} BadRefused(b: seq<byte>, size: nat, offset: nat, acc: seq<byte>, jumps: nat)
    requires size < |b| && |acc| <= MAX_NAME && jumps <= MAX_JUMPS + 1 && Span(b, size, offset).1 == Bad
    ensures ReadLabels(b, size, offset, acc, jumps).None?
    decreases size - offset
  {
    if 0 < b[offset] < 64 && offset + b[offset] + 1 <= size && |acc| + b[offset] + 1 <= MAX_NAME {
      BadRefused(b, size, offset + b[offset] + 1, acc + b[offset + 1..offset + 1 + b[offset]] + [DOT], jumps);
    }
  }

  /**
   The length of a name as dns_namelen and ReadName see it is the same exactly if
   both refuse its own labels, or the name can be read and its labels end with an
   empty one. A name that can be read and ends otherwise is one longer for
   ReadName.
   */
  lemma LengthsAgree(b: seq<byte>, size: nat, offset: nat)
    requires size < |b|
    ensures var stop, readable := Span(b, size, offset).1, ReadLabels(b, size, offset, [], 0).Some?;
            && (NameLen(b, size, offset) == ReadCount(b, size, offset) <==> stop == Bad || (readable && stop == Zero))
            && (readable && stop != Zero ==> NameLen(b, size, offset) == ReadCount(b, size, offset) - 1)
  {
    hide Span, ReadLabels;
    if Span(b, size, offset).1 == Bad {
      BadRefused(b, size, offset, [], 0);
    }
  }

  /** A name that is only a pointer to an empty label: two bytes, of which dns_namelen counts one. */
  lemma PointerCountedOnce()
    ensures NameLen([192, 2, 0, 0], 3, 0) == 1 && ReadCount([192, 2, 0, 0], 3, 0) == 2
  {
    assert ReadLabels([192, 2, 0, 0], 3, 2, [], 1) == Some([]);
  }

  function Label(c: byte): (q: seq<byte>)
    requires c != DOT
    ensures |q| == 64 && q[63] == DOT && forall i | 0 <= i < 63 :: q[i] == c
  {
    seq(63, _ => c) + [DOT]
  }

  lemma {:induction false} DotFirst(q: seq<byte>, k: nat)
    requires k < |q| && q[k] == DOT && forall i | 0 <= i < k :: q[i] != DOT
    ensures FirstDot(q) == k
    decreases k
  {
    if k > 0 {
      DotFirst(q[1..], k - 1);
    }
  }

  lemma LabelBefore(c: byte, q: seq<byte>)
    requires c != DOT && EncodeLabels(q).Some?
    ensures EncodeLabels(Label(c) + q).Some?
  {
    var s := Label(c) + q;
    DotFirst(s, 63);
    EncodeStep(s);
    assert s[64..] == q;
  }

  /** Four labels of 63 characters are accepted by the encoder and refused by the reader. */
  lemma LongNameLost() returns (q: seq<byte>)
    ensures EncodeName(q).Some? && |q| == 256
    ensures var enc := EncodeName(q).value;
            ReadLabels(enc + [0], |enc|, 0, [], 0).None?
  {
    q := Label(97);
    assert Label(97) + [] == q;
    LabelBefore(97, []);
    LabelBefore(97, Label(97));
    LabelBefore(97, Label(97) + Label(97));
    LabelBefore(97, Label(97) + (Label(97) + Label(97)));
    q := Label(97) + (Label(97) + (Label(97) + Label(97)));
    var enc := EncodeName(q).value;
    assert (enc + [0])[0..|enc|] == enc;
    RoundTrip(enc + [0], |enc|, 0, q, enc);
  }
}
