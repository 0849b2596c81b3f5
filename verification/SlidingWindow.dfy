/**
 The sliding window over the input: reading, sliding and hashing.
 */
module SlidingWindow {
  import opened Bits
  import opened Hash
  import opened Chains
  import opened Tables
  import opened LongestMatch

  const WINDOW_SIZE: nat := 2 * WSIZE
  const U32: nat := 0x1_0000_0000

  /** Conversion to a 32-bit unsigned type. */
  function Wrap(n: nat): nat
  {
    n % U32
  }

  lemma WrapAdd(a: nat, b: nat)
    ensures Wrap(Wrap(a) + b) == Wrap(a + b)
  {}

  /** The first end bytes of the window are the bytes read from position base on. */
  ghost predicate Holds(w: seq<byte>, all: seq<byte>, base: nat, end: nat)
  {
    end <= |w| && |all| == base + end && w[..end] == all[base..]
  }

  lemma HoldsAt(w: seq<byte>, all: seq<byte>, base: nat, end: nat, i: nat)
    requires Holds(w, all, base, end) && i < end
    ensures w[i] == all[base + i]
  {
    assert w[i] == w[..end][i];
  }

  lemma HoldsSlice(w: seq<byte>, all: seq<byte>, base: nat, end: nat, i: nat, j: nat)
    requires Holds(w, all, base, end) && i <= j <= end
    ensures w[i..j] == all[base + i..base + j]
  {
    assert w[i..j] == w[..end][i..j];
    assert all[base..][i..j] == all[base + i..base + j];
  }

  lemma HoldsMore(w: seq<byte>, w': seq<byte>, all: seq<byte>, base: nat, end: nat, more: seq<byte>)
    requires Holds(w, all, base, end) && |w'| == |w| && end + |more| <= |w|
    requires w'[..end] == w[..end] && w'[end..end + |more|] == more
    ensures Holds(w', all + more, base, end + |more|)
  {
    assert w'[..end + |more|] == w'[..end] + w'[end..end + |more|];
  }

  lemma HoldsSlid(w: seq<byte>, w': seq<byte>, all: seq<byte>, base: nat, end: nat)
    requires Holds(w, all, base, end) && |w'| == |w| && WSIZE <= end <= WINDOW_SIZE <= |w|
             && w'[..WSIZE] == w[WSIZE..WINDOW_SIZE]
    ensures Holds(w', all, base + WSIZE, end - WSIZE)
  {
    assert w'[..end - WSIZE] == w'[..WSIZE][..end - WSIZE];
    assert w[WSIZE..WINDOW_SIZE][..end - WSIZE] == w[..end][WSIZE..];
    assert all[base..][WSIZE..] == all[base + WSIZE..];
  }

  /** The running hash, with the next byte, gives the hash of a and b and that byte. */
  ghost predicate HashReady(bits: nat, insH: nat, a: byte, b: byte)
  {
    forall c: byte :: Update(bits, insH, c) == Hash3(bits, a, b, c)
  }

  lemma HashStart(bits: nat, a: byte, b: byte)
    ensures HashReady(bits, Update(bits, Update(bits, 0, a), b), a, b)
  {
    hide Update;
    forall c: byte
      ensures Update(bits, Update(bits, Update(bits, 0, a), b), c) == Hash3(bits, a, b, c)
    {
    }
  }

  lemma HashNext(bits: nat, insH: nat, a: byte, b: byte, c: byte)
    requires HashReady(bits, insH, a, b)
    ensures Update(bits, insH, c) == Hash3(bits, a, b, c) && HashReady(bits, Update(bits, insH, c), b, c)
  {
    hide Update;
    forall d: byte
      ensures Update(bits, Update(bits, insH, c), d) == Hash3(bits, b, c, d)
    {
      ThreeBytes(bits, Update(bits, 0, a), b, c, d);
    }
  }

  class SlidingWindow {
    const bits: nat
    const window: array<byte>
    const prev: array<nat>
    const head: array<nat>
    const input: seq<byte>
    var inPos: nat
    var failed: bool
    var isize: nat
    var eofile: bool
    var strstart: nat
    var lookahead: nat
    var matchStart: nat
    var blockStart: int
    var insH: nat
    ghost var base: nat
    ghost var ins: nat

    ghost predicate Shape()
    {
      && MIN_HASH_BITS <= bits <= 15 && window.Length == WINDOW_SIZE + MAX_MATCH
      && prev != head && window as object !in {prev as object, head} && prev.Length == WSIZE
          && head.Length == Pow2(bits)
    }

    ghost function Repr(): set<object>
    {
      {this, window, prev, head}
    }

    ghost function All(): seq<byte>
      reads this
      requires inPos <= |input|
    {
      input[..inPos]
    }

    /** Where reading stands. */
    ghost predicate Input()
      reads this
    {
      && inPos <= |input| && isize == Wrap(inPos)
      && (eofile ==> strstart + lookahead <= WINDOW_SIZE - 2 && (failed || inPos == |input|))
    }

    ghost predicate Valid()
      reads this, window, prev, head
    {
      && Shape() && Input() && strstart + lookahead <= WINDOW_SIZE
      && Holds(window[..], All(), base, strstart + lookahead)
      && Linked(bits, window[..], head[..], prev[..], ins)
      && 0 <= base + blockStart && blockStart <= strstart && matchStart < U32
    }

    method CopyIn(at: nat, from: nat, n: nat)
      requires at + n <= window.Length && from + n <= |input|
      modifies window
      ensures window[..at] == old(window[..at]) && window[at..at + n] == input[from..from + n]
    {
      var i := 0;
      while i < n
        invariant 0 <= i <= n && window[..at] == old(window[..at]) && window[at..at + i] == input[from..from + i]
      {
        window[at + i] := input[from + i];
        i := i + 1;
      }
    }

    /** file_read: some of the bytes that are left; none at the end of the input or on an error. */
    method FileRead(at: nat, size: nat) returns (n: nat)
      requires Shape() && inPos <= |input| && isize == Wrap(inPos) && at + size <= WINDOW_SIZE && 2 <= size
      modifies window, this`inPos, this`failed, this`isize
      ensures n <= size && inPos == old(inPos) + n <= |input| && isize == Wrap(inPos)
      ensures window[..at] == old(window[..at]) && window[at..at + n] == input[old(inPos)..inPos]
      ensures n == 0 ==> failed || inPos == |input|
    {
      hide Wrap, Pow2;
      n :| 0 <= n <= size && inPos + n <= |input|;
      if n == 0 {
        if inPos < |input| {
          failed := true;
        }
        return;
      }
      CopyIn(at, inPos, n);
      WrapAdd(inPos, n);
      isize := Wrap(isize + n);
      inPos := inPos + n;
    }

    /** The part of fill_window that moves the upper half of the window to the lower one. */
    method Slide()
      requires Shape() && Linked(bits, window[..], head[..], prev[..], ins) && WSIZE <= ins && ins + 2 <= WINDOW_SIZE
      modifies window, prev, head, this`ins
      ensures ins == old(ins) - WSIZE && Linked(bits, window[..], head[..], prev[..], ins)
      ensures window[..WSIZE] == old(window[WSIZE..WINDOW_SIZE])
    {
      hide Linked, SlideAll, Pow2;
      ghost var w, h, p := window[..], head[..], prev[..];
      forall i | 0 <= i < WSIZE {
        window[i] := window[WSIZE + i];
      }
      SlideTable(head);
      SlideTable(prev);
      ghost var w' := window[..];
      assert w'[..WSIZE] == w[WSIZE..WINDOW_SIZE];
      assert w'[..ins - WSIZE + 2] == w'[..WSIZE][..ins - WSIZE + 2];
      assert w[WSIZE..ins + 2] == w[WSIZE..WINDOW_SIZE][..ins - WSIZE + 2];
      assert head[..] == SlideAll(h);
      assert prev[..] == SlideAll(p);
      SlideChains(bits, w, w', h, p, ins);
      ins := ins - WSIZE;
    }

    /** The part of fill_window that reads. */
    method ReadMore(more: nat)
      requires Valid() && !eofile && ins == strstart && (strstart > 0 ==> 2 <= lookahead)
               && more == WINDOW_SIZE - lookahead - strstart && 2 <= more
      modifies window, this`inPos, this`failed, this`isize, this`eofile, this`lookahead
      ensures Valid() && old(All()) <= All()
      ensures eofile || (old(inPos) < inPos && old(lookahead) < lookahead)
    {
      hide Linked, Wrap, Pow2;
      ghost var w, all := window[..], All();
      var n := FileRead(strstart + lookahead, more);
      ghost var w' := window[..];
      HoldsMore(w, w', all, base, strstart + lookahead, input[old(inPos)..inPos]);
      assert All() == all + input[old(inPos)..inPos];
      SameBytes(w, w', strstart + lookahead);
      SameChains(bits, w, w', head[..], prev[..], ins);
      if n == 0 {
        eofile := true;
      } else {
        lookahead := lookahead + n;
      }
    }

    /**
     fill_window: slide if strstart is far enough, then read.  The positions are
     relative to the window and move with it; what they stand for does not change.
     */
    method FillWindow()
      requires Valid() && !eofile && lookahead < MIN_LOOKAHEAD && ins == strstart && (strstart > 0 ==> 2 <= lookahead)
      modifies Repr()
      ensures Valid() && ins == strstart && insH == old(insH) && old(All()) <= All()
      ensures base + strstart == old(base + strstart) && base + blockStart == old(base + blockStart)
      ensures (base + matchStart) % U32 == old(base + matchStart) % U32 && (old(strstart) > 0 ==> strstart > 0)
      ensures eofile || (old(inPos) < inPos && old(lookahead) < lookahead)
    {
      hide Linked, Wrap, Pow2, Holds;
      var more := WINDOW_SIZE - lookahead - strstart;
      if strstart >= WSIZE + MAX_DIST {
        ghost var w := window[..];
        Slide();
        HoldsSlid(w, window[..], All(), base, strstart + lookahead);
        matchStart := Wrap(matchStart + U32 - WSIZE);
        strstart := strstart - WSIZE;
        blockStart := blockStart - WSIZE;
        base := base + WSIZE;
        WrapSlide(old(base), old(matchStart));
        more := more + WSIZE;
      }
      ReadMore(more);
    }

    /** INSERT_STRING */
    method InsertString(s: nat) returns (matchHead: nat)
      requires Shape() && Linked(bits, window[..], head[..], prev[..], ins) && ins == s && s + 2 < window.Length
      requires HashReady(bits, insH, window[s], window[s + 1])
      modifies this`insH, this`ins, prev, head
      ensures ins == s + 1 && Linked(bits, window[..], head[..], prev[..], ins)
      ensures HashReady(bits, insH, window[s + 1], window[s + 2])
      ensures matchHead == 0 || (matchHead < s && HashOf(bits, window[..], matchHead) == HashOf(bits, window[..], s))
      ensures HashOf(bits, window[..], s) < head.Length && matchHead == old(head[..])[HashOf(bits, window[..], s)]
      ensures head[..] == old(head[..])[HashOf(bits, window[..], s) := s]
              && prev[..] == old(prev[..])[Slot(s) := matchHead]
    {
      hide Linked, HashReady, Update, Hash3, Slot, Pow2;
      HashNext(bits, insH, window[s], window[s + 1], window[s + 2]);
      InsertChains(bits, window[..], head[..], prev[..], s);
      insH := Update(bits, insH, window[s + 2]);
      matchHead := head[insH];
      prev[Slot(s)] := matchHead;
      head[insH] := s;
      ins := s + 1;
    }

    constructor (bits: nat, input: seq<byte>)
      requires MIN_HASH_BITS <= bits <= 15
      ensures Valid() && fresh(Repr()) && Fresh() && this.bits == bits && this.input == input && !failed
    {
      this.bits := bits;
      this.input := input;
      window := new byte[WINDOW_SIZE + MAX_MATCH];
      prev := new nat[WSIZE];
      head := new nat[Pow2(bits)](_ => 0);
      inPos, failed, isize, eofile := 0, false, 0, false;
      strstart, lookahead, matchStart, blockStart, insH := 0, 0, 0, 0, 0;
      base, ins := 0, 0;
      new;
      hide Pow2, HashOf, Slot;
      NoChains(bits, window[..], head[..], prev[..]);
    }

    /** Nothing has been read yet. */
    ghost predicate Fresh()
      reads this
    {
      !eofile && strstart == 0 && lookahead == 0 && blockStart == 0 && base == 0 && ins == 0
    }

    /** The strings before strstart are inserted and the hash is ready for the next one. */
    ghost predicate Hashed()
      reads this, window
      requires strstart + 1 < window.Length
    {
      ins == strstart && HashReady(bits, insH, window[strstart], window[strstart + 1])
    }

    /** lm_init */
    method LmInit()
      requires Valid() && Fresh()
      modifies Repr()
      ensures Valid() && strstart == 0 && base == 0 && blockStart == 0 && ins == 0
      ensures eofile || MIN_LOOKAHEAD <= lookahead
      ensures lookahead > 0 ==> Hashed()
    {
      hide Linked, HashReady, Update, Hash3, Pow2, Holds, Wrap;
      ReadMore(WINDOW_SIZE);
      if lookahead == 0 {
        return;
      }
      while lookahead < MIN_LOOKAHEAD && !eofile
        invariant Valid() && strstart == 0 && base == 0 && blockStart == 0 && ins == 0
        decreases !eofile, |input| - inPos
      {
        FillWindow();
      }
      insH := 0;
      insH := Update(bits, insH, window[0]);
      insH := Update(bits, insH, window[1]);
      HashStart(bits, window[0], window[1]);
    }

    /** One call of fill_window keeps the hash ready. */
    method Refill()
      requires Valid() && !eofile && 2 <= lookahead < MIN_LOOKAHEAD && Hashed()
      modifies Repr()
      ensures Valid() && old(All()) <= All() && strstart + 1 < window.Length && Hashed()
      ensures base + strstart == old(base + strstart) && base + blockStart == old(base + blockStart)
      ensures (base + matchStart) % U32 == old(base + matchStart) % U32 && (old(strstart) > 0 ==> strstart > 0)
      ensures eofile || old(inPos) < inPos
      ensures old(lookahead) <= lookahead
    {
      hide Linked, HashReady, Pow2, Holds, Wrap;
      ghost var w, all := window[..], All();
      FillWindow();
      KeptBytes(w, all, old(base), old(strstart), old(lookahead), window[..], All(), base, strstart, lookahead);
    }

    /**
     The refill loop of deflate: afterwards a longest match and the string
     behind it are in the window, or the input is at its end.
     */
    method EnoughLookahead()
      requires Valid() && strstart + 1 < window.Length && ins == strstart && (lookahead > 0 ==> Hashed())
               && (!eofile ==> 2 <= lookahead)
      modifies Repr()
      ensures Valid() && old(All()) <= All() && ins == strstart
      ensures base + strstart == old(base + strstart) && base + blockStart == old(base + blockStart)
      ensures (base + matchStart) % U32 == old(base + matchStart) % U32 && (old(strstart) > 0 ==> strstart > 0)
      ensures eofile || MIN_LOOKAHEAD <= lookahead
      ensures strstart + 1 < window.Length && (lookahead > 0 ==> Hashed())
      ensures old(lookahead) <= lookahead
    {
      hide Linked, HashReady, Pow2, Holds, Wrap;
      while lookahead < MIN_LOOKAHEAD && !eofile
        invariant Valid() && old(All()) <= All() && ins == strstart && strstart + 1 < window.Length
                  && (lookahead > 0 ==> Hashed())
        invariant base + strstart == old(base + strstart) && base + blockStart == old(base + blockStart)
        invariant (base + matchStart) % U32 == old(base + matchStart) % U32 && (old(strstart) > 0 ==> strstart > 0)
        invariant (!eofile ==> 2 <= lookahead) && old(lookahead) <= lookahead
        decreases !eofile, |input| - inPos
      {
        Refill();
      }
    }

    /** The string at strstart is inserted and the hash is ready for the one after it. */
    ghost predicate Inserted()
      reads this, window
      requires strstart + 2 < window.Length
    {
      ins == strstart + 1 && HashReady(bits, insH, window[strstart + 1], window[strstart + 2])
    }

    /** The position of the match found last. */
    method SetMatchStart(m: nat)
      requires Valid() && m < U32
      modifies this`matchStart
      ensures Valid() && matchStart == m
    {
      hide Linked, Holds, Wrap;
      matchStart := m;
    }

    /** Step to the next byte. */
    method Advance()
      requires Valid() && 1 <= lookahead && strstart + 2 < window.Length && Inserted()
      modifies this`strstart, this`lookahead
      ensures Valid() && strstart == old(strstart) + 1 && lookahead == old(lookahead) - 1 && Hashed()
    {
      hide Linked, HashReady, Pow2, Holds, Wrap;
      strstart := strstart + 1;
      lookahead := lookahead - 1;
    }

    /** Step over the rest of a match of len bytes whose first two are inserted, and insert the others. */
    method SkipMatch(len: nat)
      requires Valid() && 3 <= len && len - 1 <= lookahead && strstart + 2 < window.Length && Inserted()
      modifies this`strstart, this`lookahead, this`insH, this`ins, prev, head
      ensures Valid() && strstart == old(strstart) + (len - 1) && lookahead == old(lookahead) - (len - 1)
      ensures strstart + 1 < window.Length && Hashed()
    {
      hide Linked, HashReady, Pow2, Holds, Wrap;
      ghost var end := strstart + lookahead;
      lookahead := lookahead - (len - 1);
      var rest := len - 2;
      while true
        invariant 1 <= rest && strstart + rest + 1 + lookahead == end && lookahead == old(lookahead) - (len - 1)
        invariant strstart + 2 < window.Length && Inserted()
        invariant Linked(bits, window[..], head[..], prev[..], ins)
        decreases rest
      {
        strstart := strstart + 1;
        var _ := InsertString(strstart);
        rest := rest - 1;
        if rest == 0 {
          break;
        }
      }
      strstart := strstart + 1;
    }
  }

  /** With enough lookahead a search from strstart reads only the two halves of the window. */
  lemma SearchInside(win: SlidingWindow)
    requires win.Valid() && win.lookahead >= MIN_LOOKAHEAD
    ensures win.strstart + MAX_MATCH < WINDOW_SIZE
  {
    hide Linked, Holds, Wrap;
  }

  /** The bytes at strstart are the same after a slide and a read. */
  lemma KeptBytes(w: seq<byte>, all: seq<byte>, base: nat, s: nat, n: nat, w': seq<byte>, all': seq<byte>, base': nat,
                  s': nat, n': nat)
    requires Holds(w, all, base, s + n) && Holds(w', all', base', s' + n') && all <= all' && base + s == base' + s'
             && 2 <= n
    ensures s + 1 < |w| && s' + 1 < |w'| && n <= n' && w'[s'] == w[s] && w'[s' + 1] == w[s + 1]
  {
    hide Holds;
    HoldsSize(w, all, base, s + n);
    HoldsSize(w', all', base', s' + n');
    HoldsAt(w, all, base, s + n, s);
    HoldsAt(w, all, base, s + n, s + 1);
    HoldsAt(w', all', base', s' + n', s');
    HoldsAt(w', all', base', s' + n', s' + 1);
  }

  lemma HoldsSize(w: seq<byte>, all: seq<byte>, base: nat, end: nat)
    requires Holds(w, all, base, end)
    ensures end <= |w| && |all| == base + end
  {}

  lemma SameBytes(w: seq<byte>, w': seq<byte>, n: nat)
    requires n <= |w| && n <= |w'| && w'[..n] == w[..n]
    ensures forall i | 0 <= i < n :: w[i] == w'[i]
  {
    forall i | 0 <= i < n
      ensures w[i] == w'[i]
    {
      assert w[..n][i] == w'[..n][i];
    }
  }

  lemma WrapSlide(base: nat, m: nat)
    requires m < U32
    ensures Wrap(m + U32 - WSIZE) < U32
    ensures (base + WSIZE + Wrap(m + U32 - WSIZE)) % U32 == (base + m) % U32
  {}

  /** The loops of fill_window over head and prev. */
  method SlideTable(a: array<nat>)
    modifies a
    ensures a[..] == SlideAll(old(a[..]))
  {
    var n := 0;
    while n < a.Length
      invariant 0 <= n <= a.Length
      invariant forall i | 0 <= i < n :: a[i] == SlideOne(old(a[..])[i])
      invariant forall i | n <= i < a.Length :: a[i] == old(a[..])[i]
    {
      var m := a[n];
      a[n] := if m >= WSIZE then m - WSIZE else 0;
      n := n + 1;
    }
  }
}
