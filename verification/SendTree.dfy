/**
 Sending a table of code lengths with the codes of the bit length tree, and
 reading it back as section 3.2.7 of RFC 1951 prescribes.
 */
module SendTree {
  import opened Bits
  import opened Canonical
  import opened RunLength
  import BW = BitWriter

  // ----- what is written -----

  function EncodeOp(bl: seq<nat>, op: LenOp): seq<bool>
    requires op.sym < |bl|
  {
    CodeBits(bl, op.sym) + BitsOf(op.extra, ExtraBlBits(op.sym))
  }

  function EncodeOps(bl: seq<nat>, ops: seq<LenOp>): seq<bool>
    requires forall i | 0 <= i < |ops| :: ops[i].sym < |bl|
  {
    if ops == [] then [] else EncodeOp(bl, ops[0]) + EncodeOps(bl, ops[1..])
  }

  /** Every symbol has a code in the bit length tree, and its extra bits fit. */
  ghost predicate Sendable(bl: seq<nat>, ops: seq<LenOp>)
  {
    forall i | 0 <= i < |ops| :: ops[i].sym < |bl| && bl[ops[i].sym] > 0 && OpOk(ops[i])
  }

  lemma {:induction false} EncodeConcat(bl: seq<nat>, a: seq<LenOp>, b: seq<LenOp>)
    requires Sendable(bl, a) && Sendable(bl, b)
    ensures Sendable(bl, a + b) && EncodeOps(bl, a + b) == EncodeOps(bl, a) + EncodeOps(bl, b)
  {
    hide EncodeOp, OpOk;
    if a == [] {
      assert a + b == b;
    } else {
      assert (a + b)[0] == a[0] && (a + b)[1..] == a[1..] + b;
      EncodeConcat(bl, a[1..], b);
    }
  }

  // ----- what is read -----

  /** Read code lengths until there are want of them. */
  ghost function DecodeLens(bl: seq<nat>, bits: seq<bool>, pos: nat, want: nat, out: seq<nat>): Option<(seq<nat>, nat)>
    requires pos <= |bits|
    decreases |bits| - pos
  {
    if |out| > want then None
    else if |out| == want then Some((out, pos))
    else
      match DecodeSymbol(bl, bits, pos)
      case None => None
      case Some((s, p)) =>
        var nb := ExtraBlBits(s);
        if p + nb > |bits| then None
        else
          match ExpandOne(out, LenOp(s, ValueOf(bits[p..p + nb])))
          case None => None
          case Some(r) => DecodeLens(bl, bits, p + nb, want, r)
  }

  lemma {:induction false} ExpandGrows(out: seq<nat>, ops: seq<LenOp>, res: seq<nat>)
    requires Expand(out, ops) == Some(res)
    ensures |out| + |ops| <= |res|
    decreases |ops|
  {
    if ops != [] {
      ExpandGrows(ExpandOne(out, ops[0]).value, ops[1..], res);
    }
  }

  /** Reading back what was written for a list of symbols. */
  lemma {:induction false} DecodeOps(bl: seq<nat>, ops: seq<LenOp>, bits: seq<bool>, pos: nat, out: seq<nat>,
                                     res: seq<nat>)
    requires Decodable(bl) && Sendable(bl, ops) && pos <= |bits|
    requires FieldAt(bits, pos, EncodeOps(bl, ops)) && Expand(out, ops) == Some(res)
    ensures DecodeLens(bl, bits, pos, |res|, out) == Some((res, pos + |EncodeOps(bl, ops)|))
    decreases |ops|
  {
    hide Decodable, FieldAt, CodeBits, BitsOf, ExtraBlBits, Pow2, DecodeSymbol, ExpandOne, ValueOf;
    ExpandGrows(out, ops, res);
    if ops != [] {
      var op, tail := ops[0], EncodeOps(bl, ops[1..]);
      FieldSplit(bits, pos, EncodeOp(bl, op), tail);
      DecodeOneOp(bl, op, bits, pos);
      var next := pos + |EncodeOp(bl, op)|;
      Bound(bits, next, tail);
      DecodeOps(bl, ops[1..], bits, next, ExpandOne(out, op).value, res);
    }
  }

  lemma Bound(bits: seq<bool>, pos: nat, f: seq<bool>)
    requires FieldAt(bits, pos, f)
    ensures pos <= |bits|
  {}

  lemma DecodeOneOp(bl: seq<nat>, op: LenOp, bits: seq<bool>, pos: nat)
    requires Decodable(bl) && op.sym < |bl| && bl[op.sym] > 0 && OpOk(op)
    requires FieldAt(bits, pos, EncodeOp(bl, op))
    ensures var nb := ExtraBlBits(op.sym);
            var p := pos + bl[op.sym];
            && DecodeSymbol(bl, bits, pos) == Some((op.sym, p)) && p + nb <= |bits|
            && ValueOf(bits[p..p + nb]) == op.extra && |EncodeOp(bl, op)| == bl[op.sym] + nb
  {
    hide Decodable, CodeBits, BitsOf, Pow2, DecodeSymbol, ValueOf, ExtraBlBits;
    var nb := ExtraBlBits(op.sym);
    FieldSplit(bits, pos, CodeBits(bl, op.sym), BitsOf(op.extra, nb));
    DecodeSent(bl, op.sym, bits, pos);
    ValueOfBitsOf(op.extra, nb);
  }

  // ----- send_tree -----

  /** The codes of the bit length tree, as the array holds them. */
  ghost predicate Codes(bl: seq<nat>, fc: seq<nat>, dl: seq<nat>)
  {
    && |bl| <= |fc| && |bl| <= |dl| && (forall s | 0 <= s < |bl| :: dl[s] == bl[s] <= MAX_BITS && HasCode(bl, s, fc[s]))
  }

  /** The code of one symbol is appended to the stream. */
  method SendCode(w: BW.BitWriter, fc: array<nat>, dl: array<nat>, c: nat, ghost lens: seq<nat>)
    requires w.Valid() && c < |lens| && c < fc.Length && c < dl.Length
    requires dl[c] == lens[c] && 1 <= lens[c] <= MAX_BITS && HasCode(lens, c, fc[c])
    modifies w, w.outbuf
    ensures w.Valid() && w.Stream() == old(w.Stream()) + CodeBits(lens, c)
  {
    hide CodeBits, BitsOf, Pow2;
    w.SendBits(fc[c], dl[c]);
  }

  /** One symbol of the code length alphabet with its extra bits, if it has any. */
  method SendOp(w: BW.BitWriter, blFc: array<nat>, blDl: array<nat>, op: LenOp, ghost bl: seq<nat>)
    requires w.Valid() && w.outbuf as object !in {blFc as object, blDl} && Codes(bl, blFc[..], blDl[..])
    requires op.sym < |bl| && bl[op.sym] > 0 && OpOk(op)
    modifies w, w.outbuf
    ensures w.Valid() && w.Stream() == old(w.Stream()) + EncodeOp(bl, op)
  {
    hide CodeBits, BitsOf, Pow2, HasCode;
    SendCode(w, blFc, blDl, op.sym, bl);
    var nb := ExtraBlBits(op.sym);
    if nb != 0 {
      w.SendBits(op.extra, nb);
    } else {
      NoExtra(op.extra);
    }
  }

  lemma NoExtra(v: nat)
    ensures BitsOf(v, 0) == []
  {}

  lemma EncodeOne(bl: seq<nat>, op: LenOp)
    requires op.sym < |bl|
    ensures EncodeOps(bl, [op]) == EncodeOp(bl, op)
  {
    hide EncodeOp;
    assert [op][1..] == [];
  }

  /** Appending one symbol appends its bits. */
  lemma EncodeAppend(bl: seq<nat>, all: seq<LenOp>, i: nat, front: seq<bool>)
    requires Sendable(bl, all) && i < |all|
    ensures all[i].sym < |bl| && bl[all[i].sym] > 0 && OpOk(all[i])
    ensures forall k | 0 <= k < |all| :: all[k].sym < |bl|
    ensures front + EncodeOps(bl, all[..i]) + EncodeOp(bl, all[i]) == front + EncodeOps(bl, all[..i + 1])
  {
    hide EncodeOp, EncodeOps, Sendable;
    SendablePrefix(bl, all, i);
    EncodeConcat(bl, all[..i], [all[i]]);
    EncodeOne(bl, all[i]);
    Associate(front, EncodeOps(bl, all[..i]), EncodeOp(bl, all[i]));
  }

  lemma Associate(a: seq<bool>, b: seq<bool>, c: seq<bool>)
    ensures a + b + c == a + (b + c)
  {}

  lemma SendablePrefix(bl: seq<nat>, all: seq<LenOp>, i: nat)
    requires Sendable(bl, all) && i < |all|
    ensures Sendable(bl, all[..i]) && Sendable(bl, [all[i]]) && all[..i + 1] == all[..i] + [all[i]]
    ensures all[i].sym < |bl| && bl[all[i].sym] > 0 && OpOk(all[i])
    ensures forall k | 0 <= k < |all| :: all[k].sym < |bl|
  {
    hide OpOk;
  }

  /** The symbols of a run, one by one. */
  lemma EmitShape(prev: int, cur: nat, count: nat)
    requires 1 <= count <= MaxCount(prev, cur)
    ensures var e := Emit(prev, cur, count);
            && (count < MinCount(prev, cur) ==> |e| == count && forall i | 0 <= i < count :: e[i] == LenOp(cur, 0))
            && (count >= MinCount(prev, cur) ==>
                  if cur == 0 then |e| == 1 && e[0]
                      == (if count <= 10 then LenOp(REPZ_3_10, count - 3) else LenOp(REPZ_11_138, count - 11))
                  else if cur == prev then |e| == 1 && e[0] == LenOp(REP_3_6, count - 3)
                  else |e| == 2 && e[0] == LenOp(cur, 0) && e[1] == LenOp(REP_3_6, count - 4))
  {}

  /** Send the symbol that comes next in the list. */
  method SendNext(w: BW.BitWriter, blFc: array<nat>, blDl: array<nat>, op: LenOp, ghost bl: seq<nat>,
                  ghost front: seq<bool>, ghost all: seq<LenOp>, ghost i: nat)
    requires w.Valid() && w.outbuf as object !in {blFc as object, blDl} && Codes(bl, blFc[..], blDl[..])
    requires Sendable(bl, all) && i < |all| && op == all[i] && w.Stream() == front + EncodeOps(bl, all[..i])
    modifies w, w.outbuf
    ensures w.Valid() && w.Stream() == front + EncodeOps(bl, all[..i + 1]) && Codes(bl, blFc[..], blDl[..])
  {
    hide EncodeOp, EncodeOps, OpOk, Codes;
    EncodeAppend(bl, all, i, front);
    SendOp(w, blFc, blDl, op, bl);
  }

  /** The symbols of one run. */
  method SendRun(w: BW.BitWriter, blFc: array<nat>, blDl: array<nat>, prevlen: int, curlen: nat, count0: nat,
                 minCount: nat, ghost bl: seq<nat>)
    requires w.Valid() && w.outbuf as object !in {blFc as object, blDl} && Codes(bl, blFc[..], blDl[..])
    requires 1 <= count0 <= MaxCount(prevlen, curlen) && minCount == MinCount(prevlen, curlen)
    requires Sendable(bl, Emit(prevlen, curlen, count0))
    modifies w, w.outbuf
    ensures w.Valid() && w.Stream() == old(w.Stream()) + EncodeOps(bl, Emit(prevlen, curlen, count0))
  {
    hide EncodeOps, Codes, Sendable, Emit;
    EmitShape(prevlen, curlen, count0);
    ghost var front, all := w.Stream(), Emit(prevlen, curlen, count0);
    var count := count0;
    AllSendable(bl, all);
    NothingSent(bl, front);
    assert all[..0] == [] && all[..|all|] == all;
    if count < minCount {
      while count > 0
        invariant 0 <= count <= count0 && Codes(bl, blFc[..], blDl[..])
        invariant w.Valid() && w.Stream() == front + EncodeOps(bl, all[..count0 - count])
      {
        SendNext(w, blFc, blDl, LenOp(curlen, 0), bl, front, all, count0 - count);
        count := count - 1;
      }
    } else if curlen != 0 {
      if curlen != prevlen {
        SendNext(w, blFc, blDl, LenOp(curlen, 0), bl, front, all, 0);
        count := count - 1;
      }
      SendNext(w, blFc, blDl, LenOp(REP_3_6, count - 3), bl, front, all, count0 - count);
    } else if count <= 10 {
      SendNext(w, blFc, blDl, LenOp(REPZ_3_10, count - 3), bl, front, all, 0);
    } else {
      SendNext(w, blFc, blDl, LenOp(REPZ_11_138, count - 11), bl, front, all, 0);
    }
  }

  lemma AllSendable(bl: seq<nat>, ops: seq<LenOp>)
    requires Sendable(bl, ops)
    ensures forall i | 0 <= i < |ops| :: ops[i].sym < |bl|
  {}

  lemma NothingSent(bl: seq<nat>, front: seq<bool>)
    ensures Sendable(bl, []) && front + EncodeOps(bl, []) == front
  {}

  /** What was written and what is still to be written make up the whole table. */
  ghost predicate Sending(stream: seq<bool>, front: seq<bool>, bl: seq<nat>, rest: seq<LenOp>, all: seq<LenOp>)
  {
    Sendable(bl, rest) && Sendable(bl, all) && stream + EncodeOps(bl, rest) == front + EncodeOps(bl, all)
  }

  lemma SendingRun(stream: seq<bool>, stream': seq<bool>, front: seq<bool>, bl: seq<nat>, run: seq<LenOp>,
                   rest: seq<LenOp>, all: seq<LenOp>)
    requires Sending(stream, front, bl, run + rest, all)
    ensures Sendable(bl, run) && (stream' == stream + EncodeOps(bl, run) ==> Sending(stream', front, bl, rest, all))
  {
    hide EncodeOps, Sendable;
    SendableParts(bl, run, rest);
    EncodeConcat(bl, run, rest);
  }

  lemma SendableParts(bl: seq<nat>, a: seq<LenOp>, b: seq<LenOp>)
    requires Sendable(bl, a + b)
    ensures Sendable(bl, a) && Sendable(bl, b)
    ensures forall i | 0 <= i < |a + b| :: (a + b)[i].sym < |bl|
    ensures (forall i | 0 <= i < |a| :: a[i].sym < |bl|) && (forall i | 0 <= i < |b| :: b[i].sym < |bl|)
  {
    hide OpOk;
    forall i | 0 <= i < |a|
      ensures (a + b)[i] == a[i]
    {}
    forall i | 0 <= i < |b|
      ensures (a + b)[|a| + i] == b[i]
    {}
  }

  lemma SendingStart(front: seq<bool>, bl: seq<nat>, all: seq<LenOp>)
    requires Sendable(bl, all)
    ensures Sending(front, front, bl, all, all)
  {}

  lemma SendingDone(stream: seq<bool>, front: seq<bool>, bl: seq<nat>, all: seq<LenOp>)
    requires Sending(stream, front, bl, [], all)
    ensures stream == front + EncodeOps(bl, all)
  {}

  /** send_tree: the operations of a list of lengths, in the code bl, are appended to the stream. */
  method SendLengths(w: BW.BitWriter, dl: array<nat>, maxCode: nat, blFc: array<nat>, blDl: array<nat>,
                     ghost lens: seq<nat>, ghost bl: seq<nat>)
    requires w.Valid() && w.outbuf as object !in {blFc as object, blDl, dl} && Codes(bl, blFc[..], blDl[..])
    requires |lens| == maxCode + 1 && Guarded(dl[..], lens) && Sendable(bl, AllOps(lens))
    modifies w, w.outbuf
    ensures w.Valid() && w.Stream() == old(w.Stream()) + EncodeOps(bl, AllOps(lens))
  {
    hide Ops, Emit, Sendable, Sending, EncodeOps, Codes, Guarded;
    GuardedNext(dl[..], lens, 0);
    var n: nat, prevlen: int, nextlen: nat := 0, -1, dl[0];
    var count: nat, maxCount: nat, minCount: nat := 0, 7, 4;
    if nextlen == 0 {
      maxCount, minCount := 138, 3;
    }
    ghost var front := w.Stream();
    SendingStart(front, bl, AllOps(lens));
    while n <= maxCode
      invariant 0 <= n <= maxCode + 1 && w.Valid()
      invariant Guarded(dl[..], lens) && Codes(bl, blFc[..], blDl[..])
      invariant Scanning(lens, n, prevlen, count, nextlen, maxCount, minCount)
      invariant Sending(w.Stream(), front, bl, Ops(lens, n, prevlen, count), AllOps(lens))
    {
      GuardedNext(dl[..], lens, n);
      OpsStep(lens, n, prevlen, count);
      var curlen := nextlen;
      nextlen := dl[n + 1];
      count := count + 1;
      if count < maxCount && curlen == nextlen {
        n := n + 1;
        continue;
      }
      ghost var before := w.Stream();
      SendingRun(before, before, front, bl, Emit(prevlen, curlen, count), Ops(lens, n + 1, curlen, 0), AllOps(lens));
      SendRun(w, blFc, blDl, prevlen, curlen, count, minCount, bl);
      SendingRun(before, w.Stream(), front, bl, Emit(prevlen, curlen, count), Ops(lens, n + 1, curlen, 0),
          AllOps(lens));
      count, prevlen := 0, curlen;
      if nextlen == 0 {
        maxCount, minCount := 138, 3;
      } else if curlen == nextlen {
        maxCount, minCount := 6, 3;
      } else {
        maxCount, minCount := 7, 4;
      }
      n := n + 1;
    }
    assert Ops(lens, n, prevlen, count) == [] by { OpsEnd(lens, prevlen, count); }
    SendingDone(w.Stream(), front, bl, AllOps(lens));
  }

  lemma OpsEnd(lens: seq<nat>, prev: int, count: nat)
    ensures Ops(lens, |lens|, prev, count) == []
  {}
}
