/**
 The queue of one-off commands: a fixed number of slots for commands that run
 concurrently, and barriers that wait for all earlier commands.
 */
module OneOffQueue {
  import Bits

  /**
   A line of a queue file; init says whether the command could be set up,
   atOnce whether it is done before start returns.
   */
  datatype Line = Barrier | Command(init: bool, atOnce: bool) | Other

  datatype File = Closed | Open(rest: seq<Line>)

  /** What can happen: the timer, the end of a command, a new queue file. */
  datatype Event = Tick | Done(id: nat, deleted: bool) | NewFile(lines: seq<Line>)

  /** How many slots are taken; zero marks a free one. */
  function Taken(s: seq<nat>): (n: nat)
    ensures n <= |s|
  {
    if s == [] then 0 else Taken(s[..|s| - 1]) + (if s[|s| - 1] != 0 then 1 else 0)
  }

  lemma {:induction false} TakenUpdate(s: seq<nat>, i: nat, v: nat)
    requires i < |s|
    ensures Taken(s[i := v]) == Taken(s) - (if s[i] != 0 then 1 else 0) + (if v != 0 then 1 else 0)
  {
    var t, n := s[i := v], |s| - 1;
    if i == n {
      assert t[..n] == s[..n];
    } else {
      assert t[..n] == s[..n][i := v];
      TakenUpdate(s[..n], i, v);
    }
  }

  lemma {:induction false} SomeFree(s: seq<nat>) returns (i: nat)
    requires Taken(s) < |s|
    ensures i < |s| && s[i] == 0
  {
    if s[|s| - 1] == 0 {
      i := |s| - 1;
    } else {
      i := SomeFree(s[..|s| - 1]);
    }
  }

  lemma {:induction false} NoneTaken(s: seq<nat>)
    requires Taken(s) == 0
    ensures forall i | 0 <= i < |s| :: s[i] == 0
  {
    if s != [] {
      NoneTaken(s[..|s| - 1]);
    }
  }

  lemma {:induction false} TakenZeros(s: seq<nat>)
    requires forall i | 0 <= i < |s| :: s[i] == 0
    ensures Taken(s) == 0
  {
    if s != [] {
      TakenZeros(s[..|s| - 1]);
    }
  }

  /** The slots in the order they are tried. */
  function Nth(from: nat, skip: nat, n: nat): (r: nat)
    requires n > 0
    ensures r < n
  {
    (from + skip) % n
  }

  lemma Reaches(from: nat, i: nat, n: nat) returns (skip: nat)
    requires from < n && i < n
    ensures 1 <= skip <= n && Nth(from, skip, n) == i
  {
    if i > from {
      skip := i - from;
      Bits.DivUnique(from + skip, n, 0, i);
    } else {
      skip := i + n - from;
      Bits.DivUnique(from + skip, n, 1, i);
    }
  }

  /** The commands that hold the slots are different ones, and all were read after the last barrier resolved. */
  ghost predicate Commands(slots: seq<nat>, nextId: nat, lineOf: map<nat, nat>, last: nat, lineNo: nat)
  {
    && (forall i | 0 <= i < |slots| && slots[i] != 0 ::
          slots[i] < nextId && slots[i] in lineOf && last < lineOf[slots[i]] <= lineNo)
    && (forall i, j | 0 <= i < j < |slots| && slots[i] != 0 :: slots[i] != slots[j])
  }

  lemma CommandsFree(slots: seq<nat>, nextId: nat, lineOf: map<nat, nat>, last: nat, lineNo: nat, k: nat)
    requires Commands(slots, nextId, lineOf, last, lineNo) && k < |slots|
    ensures Commands(slots[k := 0], nextId, lineOf, last, lineNo)
  {}

  lemma CommandsTake(slots: seq<nat>, nextId: nat, lineOf: map<nat, nat>, last: nat, lineNo: nat, k: nat)
    requires Commands(slots, nextId, lineOf, last, lineNo) && k < |slots| && slots[k] == 0 && last < lineNo
    ensures Commands(slots[k := nextId], nextId + 1, lineOf[nextId := lineNo], last, lineNo)
  {}

  lemma CommandsLater(slots: seq<nat>, nextId: nat, lineOf: map<nat, nat>, last: nat, lineNo: nat)
    requires Commands(slots, nextId, lineOf, last, lineNo)
    ensures Commands(slots, nextId, lineOf, last, lineNo + 1)
  {}

  /** The line of the last barrier resolved, or zero. */
  ghost function Last(resolved: seq<nat>): nat
  {
    if resolved == [] then 0 else resolved[|resolved| - 1]
  }

  /**
   Barriers are resolved in the order they were read; at most the last one is
   open, and then it is the last line read.
   */
  ghost predicate BarrierLines(barriers: seq<nat>, resolved: seq<nat>, open: bool, lineNo: nat)
  {
    && barriers == resolved + (if open then [lineNo] else [])
    && (forall i | 0 <= i < |resolved| :: 0 < resolved[i] <= lineNo)
        && (forall i | 0 < i < |resolved| :: resolved[i - 1] < resolved[i])
    && (open ==> 0 < lineNo && Last(resolved) < lineNo)
  }

  lemma BarrierRead(barriers: seq<nat>, resolved: seq<nat>, lineNo: nat)
    requires BarrierLines(barriers, resolved, false, lineNo)
    ensures BarrierLines(barriers, resolved, false, lineNo + 1)
            && BarrierLines(barriers + [lineNo + 1], resolved, true, lineNo + 1)
    ensures Last(resolved) < lineNo + 1
  {}

  lemma BarrierGone(barriers: seq<nat>, resolved: seq<nat>, lineNo: nat)
    requires BarrierLines(barriers, resolved, true, lineNo)
    ensures BarrierLines(barriers, resolved + [lineNo], false, lineNo)
  {}

  // ----- the files that were opened -----

  /** The queue files there are in the course of the events. */
  function Produced(queueFile: File, events: seq<Event>): seq<seq<Line>>
  {
    if events == [] then (if queueFile.Open? then [queueFile.rest] else [])
    else
      var e := events[|events| - 1];
      Produced(queueFile, events[..|events| - 1]) + (if e.NewFile? then [e.lines] else [])
  }

  lemma ProducedMore(queueFile: File, events: seq<Event>, n: nat)
    requires n < |events|
    ensures var seen := Produced(queueFile, events[..n]);
            Produced(queueFile, events[..n + 1]) == if events[n].NewFile? then seen + [events[n].lines] else seen
  {
    assert events[..n + 1][..n] == events[..n];
  }

  /** The files opened are the ones picked; the last one is in place if it was not picked. */
  ghost predicate Picked(produced: seq<seq<Line>>, picks: seq<nat>, was: seq<seq<Line>>, files: seq<seq<Line>>,
                         now: File)
  {
    && (forall i | 0 <= i < |picks| :: picks[i] < |produced|) && (forall i | 0 < i < |picks| :: picks[i - 1] < picks[i])
    && |files| == |was| + |picks| && was <= files
    && (forall i | 0 <= i < |picks| :: files[|was| + i] == produced[picks[i]])
    && now == if produced == [] || (picks != [] && picks[|picks| - 1] == |produced| - 1) then Closed
              else Open(produced[|produced| - 1])
  }

  lemma NothingPicked(queueFile: File, events: seq<Event>, files: seq<seq<Line>>)
    ensures events[..0] == [] && Picked(Produced(queueFile, []), [], files, files, queueFile)
  {}

  lemma PickLast(produced: seq<seq<Line>>, picks: seq<nat>, was: seq<seq<Line>>, files: seq<seq<Line>>, now: File)
    requires Picked(produced, picks, was, files, now) && now.Open?
    ensures produced != [] && Picked(produced, picks + [|produced| - 1], was, files + [now.rest], Closed)
  {}

  lemma PutNext(produced: seq<seq<Line>>, picks: seq<nat>, was: seq<seq<Line>>, files: seq<seq<Line>>, now: File,
                lines: seq<Line>)
    requires Picked(produced, picks, was, files, now)
    ensures Picked(produced + [lines], picks, was, files, Open(lines))
  {}

  // ----- the lines that were read -----

  /** A command that can be set up. */
  predicate Runs(line: Line)
  {
    line.Command? && line.init
  }

  /** The numbers of the commands that can be set up, in order. */
  function CommandLines(lines: seq<Line>): seq<nat>
  {
    if lines == [] then []
    else
      var n := |lines| - 1;
      CommandLines(lines[..n]) + (if Runs(lines[n]) then [n + 1] else [])
  }

  /** The numbers of the barriers, in order. */
  function BarrierNumbers(lines: seq<Line>): seq<nat>
  {
    if lines == [] then []
    else
      var n := |lines| - 1;
      BarrierNumbers(lines[..n]) + (if lines[n].Barrier? then [n + 1] else [])
  }

  /** The lines of several files. */
  function Flat(files: seq<seq<Line>>): seq<Line>
  {
    if files == [] then [] else Flat(files[..|files| - 1]) + files[|files| - 1]
  }

  /** The lines of a file that are still to be read. */
  function Rest(f: File): seq<Line>
  {
    if f.Open? then f.rest else []
  }

  /**
   Commands are numbered from one in the order of their lines, and barriers are
   noted with theirs; what was read and what is left are the files, one by one.
   */
  ghost predicate InOrder(taken: seq<Line>, lineNo: nat, nextId: nat, lineOf: map<nat, nat>, barriers: seq<nat>)
  {
    && lineNo == |taken| && barriers == BarrierNumbers(taken) && nextId == 1 + |CommandLines(taken)|
    && (forall id: nat :: id in lineOf <==> 1 <= id < nextId)
    && (forall id: nat | id in lineOf :: lineOf[id] == CommandLines(taken)[id - 1])
  }

  lemma InOrderMore(taken: seq<Line>, lineNo: nat, nextId: nat, lineOf: map<nat, nat>, barriers: seq<nat>, line: Line)
    requires InOrder(taken, lineNo, nextId, lineOf, barriers)
    ensures InOrder(taken + [line], lineNo + 1, nextId + (if Runs(line) then 1 else 0),
                    if Runs(line) then lineOf[nextId := lineNo + 1] else lineOf,
                    barriers + (if line.Barrier? then [lineNo + 1] else []))
  {
    assert (taken + [line])[..|taken|] == taken;
  }

  lemma FirstLine(taken: seq<Line>, rest: seq<Line>)
    ensures rest != [] ==> taken + [rest[0]] + rest[1..] == taken + rest
  {}

  lemma SameLines(was: seq<Line>, waiting: seq<Line>, taken: seq<Line>, rest: seq<Line>)
    requires was + waiting == taken + rest && was <= taken
    ensures waiting == taken[|was|..] + rest
  {
    assert waiting == (was + waiting)[|was|..];
  }

  lemma {:induction false} CommandsConcat(a: seq<Line>, b: seq<Line>)
    ensures |CommandLines(a + b)| == |CommandLines(a)| + |CommandLines(b)|
    decreases |b|
  {
    if b == [] {
      assert a + b == a;
    } else {
      var n := |b| - 1;
      CommandsConcat(a, b[..n]);
      assert (a + b)[..|a| + n] == a + b[..n];
    }
  }

  lemma FlatMore(files: seq<seq<Line>>, f: seq<Line>)
    ensures Flat(files + [f]) == Flat(files) + f
  {
    assert (files + [f])[..|files|] == files;
  }

  class Queue {
    const maxBusy: nat
    const slots: array<nat>
    var currFile: File
    var queueFile: File
    var currBusy: nat
    var currIndex: nat
    var barrier: bool
    var nextId: nat
    ghost var lineNo: nat
    ghost var lineOf: map<nat, nat>
    ghost var resolved: seq<nat>
    ghost var barriers: seq<nat>
    /** The lines read so far, and the queue files opened so far. */
    ghost var taken: seq<Line>
    ghost var files: seq<seq<Line>>

    ghost predicate Shape()
    {
      maxBusy > 0 && slots.Length == maxBusy
    }

    ghost function LastResolved(): nat
      reads this
    {
      Last(resolved)
    }

    ghost predicate Barriers()
      reads this
    {
      BarrierLines(barriers, resolved, barrier, lineNo) && (currFile == Closed ==> !barrier)
    }

    ghost predicate Inv()
      reads this, slots
    {
      && Shape() && currIndex < maxBusy && nextId > 0 && currBusy == Taken(slots[..])
          && Commands(slots[..], nextId, lineOf, LastResolved(), lineNo) && Barriers()
      && (forall id | id in lineOf :: id < nextId)
    }

    /** All that was opened has been read or is still to be read, and it was read in order. */
    ghost predicate Noted()
      reads this
    {
      InOrder(taken, lineNo, nextId, lineOf, barriers) && Flat(files) == taken + Rest(currFile)
    }

    /** No barrier lies between the lines of two commands that hold slots. */
    ghost predicate Separated()
      reads this, slots
      requires Shape()
    {
      forall i: nat, j: nat, k: nat | i < maxBusy && j < maxBusy && k < |barriers| :: SameSide(i, j, k)
    }

    /** If both slots are taken, barrier k does not lie between their lines. */
    ghost predicate SameSide(i: nat, j: nat, k: nat)
      reads this, slots
      requires Shape() && i < maxBusy && j < maxBusy && k < |barriers|
    {
      slots[i] != 0 && slots[j] != 0 ==>
        slots[i] in lineOf && slots[j] in lineOf && !(lineOf[slots[i]] < barriers[k] < lineOf[slots[j]])
    }

    constructor (maxBusy: nat)
      requires maxBusy > 0
      ensures Inv() && fresh(slots) && this.maxBusy == maxBusy && currBusy == 0 && currFile == queueFile == Closed
      ensures Noted() && taken == [] && files == []
    {
      this.maxBusy := maxBusy;
      slots := new nat[maxBusy](_ => 0);
      currFile, queueFile, currBusy, currIndex, barrier, nextId := Closed, Closed, 0, 0, false, 1;
      lineNo, lineOf, resolved, barriers := 0, map[], [], [];
      taken, files := [], [];
      new;
      TakenZeros(slots[..]);
    }

    /** The search for a slot, starting behind the one used last; there always is one. */
    method FindSlot() returns (slot: nat)
      requires Shape() && currIndex < maxBusy && Taken(slots[..]) < maxBusy
      ensures slot < maxBusy && slots[slot] == 0
      ensures exists skip | 1 <= skip <= maxBusy ::
                slot == Nth(currIndex, skip, maxBusy)
                    && forall k | 1 <= k < skip :: slots[Nth(currIndex, k, maxBusy)] != 0
    {
      hide Nth;
      ghost var free := SomeFree(slots[..]);
      ghost var at := Reaches(currIndex, free, maxBusy);
      var skip := 1;
      slot := Nth(currIndex, skip, maxBusy);
      while slots[slot] != 0
        invariant 1 <= skip <= at && slot == Nth(currIndex, skip, maxBusy)
        invariant forall k | 1 <= k < skip :: slots[Nth(currIndex, k, maxBusy)] != 0
        decreases maxBusy - skip
      {
        skip := skip + 1;
        slot := Nth(currIndex, skip, maxBusy);
      }
    }

    /** The barrier file is made and the barrier is gone. */
    method Resolve()
      requires Inv() && barrier && currBusy == 0 && currFile.Open?
      modifies this`barrier, this`resolved
      ensures Inv() && !barrier && resolved == old(resolved) + [lineNo]
    {
      hide Taken, BarrierLines;
      NoneTaken(slots[..]);
      BarrierGone(barriers, resolved, lineNo);
      resolved := resolved + [lineNo];
      barrier := false;
    }

    /** Start a command: a slot is taken and the command runs, or is done at once. */
    method StartCommand(atOnce: bool)
      requires Inv() && !barrier && currBusy < maxBusy && lineNo > LastResolved()
      modifies this`currBusy, this`currIndex, this`nextId, this`lineOf, slots
      ensures Inv() && nextId == old(nextId) + 1 && lineOf == old(lineOf)[old(nextId) := lineNo]
      ensures currBusy == old(currBusy) + (if atOnce then 0 else 1)
      ensures atOnce ==> slots[..] == old(slots[..])
      ensures !atOnce ==>
                && slots[currIndex] == old(nextId) && old(slots[..])[currIndex] == 0
                && slots[..] == old(slots[..])[currIndex := old(nextId)]
    {
      hide Taken, Commands, BarrierLines, Last;
      var slot := FindSlot();
      ghost var was := slots[..];
      TakenUpdate(slots[..], slot, nextId);
      CommandsTake(slots[..], nextId, lineOf, LastResolved(), lineNo, slot);
      slots[slot] := nextId;
      lineOf := lineOf[nextId := lineNo];
      currIndex := slot;
      currBusy := currBusy + 1;
      nextId := nextId + 1;
      assert slots[..] == was[slot := slots[slot]] && was[slot] == 0;
      if atOnce {
        Free(slot);
        assert was[slot := 0] == was;
      }
    }

    /** The slot of a finished command. */
    method Free(i: nat)
      requires Inv() && i < maxBusy && slots[i] != 0
      modifies this`currBusy, slots
      ensures Inv() && currBusy == old(currBusy) - 1 && slots[..] == old(slots[..])[i := 0]
    {
      hide Taken, Commands, BarrierLines, Last;
      TakenUpdate(slots[..], i, 0);
      CommandsFree(slots[..], nextId, lineOf, LastResolved(), lineNo, i);
      slots[i] := 0;
      assert slots[..] == old(slots[..])[i := 0];
      currBusy := currBusy - 1;
    }

    method SetFile(f: File)
      requires Inv() && !barrier
      modifies this`currFile
      ensures Inv() && currFile == f
    {
      hide Taken, Commands, BarrierLines;
      currFile := f;
    }

    /** Note a line that has been read; a barrier stays open until it is resolved. */
    method NoteLine(line: Line)
      requires Inv() && currFile.Open? && !barrier
      modifies this`lineNo, this`barrier, this`barriers
      ensures Inv() && lineNo == old(lineNo) + 1 && barrier == line.Barrier? && lineNo > LastResolved()
      ensures barriers == old(barriers) + (if line.Barrier? then [lineNo] else [])
    {
      hide Taken, Commands, BarrierLines, Last;
      CommandsLater(slots[..], nextId, lineOf, LastResolved(), lineNo);
      BarrierRead(barriers, resolved, lineNo);
      lineNo := lineNo + 1;
      if line.Barrier? {
        barrier := true;
        barriers := barriers + [lineNo];
      }
    }

    /** The next line is a command that can be set up. */
    ghost predicate Starts(rest: seq<Line>)
    {
      rest != [] && Runs(rest[0])
    }

    /**
     The line just read has been started: it gets the next number, and a slot
     that was free, unless it is done already.
     */
    ghost predicate Started(id: nat, lines: map<nat, nat>, was: seq<nat>, atOnce: bool)
      reads this, slots
    {
      && nextId == id + 1 && lineOf == lines[id := lineNo]
      && (atOnce ==> slots[..] == was)
      && (!atOnce ==> currIndex < |was| && was[currIndex] == 0 && slots[..] == was[currIndex := id])
    }

    /** The part of add_line that reads a line. */
    method NextLine()
      requires Inv() && Noted() && currFile.Open? && currBusy < maxBusy && !barrier
      modifies this`currFile, this`lineNo, this`barrier, this`barriers, this`currBusy, this`currIndex, this`nextId,
               this`lineOf, this`taken, slots
      ensures Inv() && Noted()
      ensures taken == old(taken) + (if old(currFile.rest) == [] then [] else [old(currFile.rest)[0]])
      ensures currFile == (if old(currFile.rest) == [] then Closed else Open(old(currFile.rest)[1..]))
      ensures lineNo == old(lineNo) + (if old(currFile.rest) == [] then 0 else 1)
      ensures barrier == (old(currFile.rest) != [] && old(currFile.rest)[0].Barrier?)
      ensures if Starts(old(currFile.rest)) then Started(old(nextId), old(lineOf), old(slots[..]),
              old(currFile.rest)[0].atOnce)
              else nextId == old(nextId) && lineOf == old(lineOf) && slots[..] == old(slots[..])
    {
      hide Taken, Commands, BarrierLines, Last, InOrder, Flat;
      if currFile.rest == [] {
        SetFile(Closed);
        return;
      }
      var line := currFile.rest[0];
      InOrderMore(taken, lineNo, nextId, lineOf, barriers, line);
      SetFile(Open(currFile.rest[1..]));
      NoteLine(line);
      if line.Command? && line.init {
        StartCommand(line.atOnce);
      }
      taken := taken + [line];
    }

    /** add_line: -1 if a barrier has to wait, and then nothing changes. */
    method AddLine() returns (r: int)
      requires Inv() && Noted() && currFile.Open? && currBusy < maxBusy
      modifies this, slots
      ensures Inv() && Noted() && files == old(files) && (r == 0 || r == -1)
      ensures r == -1 <==> old(barrier) && old(currBusy) > 0
      ensures r == -1 ==> unchanged(this) && unchanged(slots)
      ensures r == 0 ==> resolved == old(resolved) + (if old(barrier) then [old(lineNo)] else [])
      ensures r == 0 ==> currFile == (if old(currFile.rest) == [] then Closed else Open(old(currFile.rest)[1..]))
      ensures r == 0 ==> taken == old(taken) + (if old(currFile.rest) == [] then [] else [old(currFile.rest)[0]])
      ensures r == 0 ==> lineNo == old(lineNo) + (if old(currFile.rest) == [] then 0 else 1)
      ensures r == 0 ==> barrier == (old(currFile.rest) != [] && old(currFile.rest)[0].Barrier?)
      ensures r == 0 ==>
                if Starts(old(currFile.rest)) then Started(old(nextId), old(lineOf), old(slots[..]),
                    old(currFile.rest)[0].atOnce)
                else nextId == old(nextId) && lineOf == old(lineOf) && slots[..] == old(slots[..])
      ensures queueFile == old(queueFile)
    {
      hide Taken, Commands, BarrierLines, Last, InOrder, Flat;
      if barrier {
        if currBusy > 0 {
          return -1;
        }
        Resolve();
      }
      NextLine();
      return 0;
    }

    /** The lines that wait to be read: the rest of the file, or a new file if there is none. */
    ghost function Waiting(): seq<Line>
      reads this
    {
      if currFile == Closed then Rest(queueFile) else Rest(currFile)
    }

    /** The queue file becomes the current one. */
    method OpenNext()
      requires Inv() && Noted() && currFile == Closed && queueFile.Open?
      modifies this`currFile, this`queueFile, this`files
      ensures Inv() && Noted() && currFile == old(queueFile) && queueFile == Closed
      ensures files == old(files) + [old(queueFile.rest)]
    {
      hide Taken, Commands, BarrierLines, Last, InOrder, Flat;
      FlatMore(files, queueFile.rest);
      files := files + [queueFile.rest];
      currFile := queueFile;
      queueFile := Closed;
    }

    /** Lines are read as long as there are lines and free slots, up to a barrier that has to wait. */
    method ReadLines()
      requires Inv() && Noted()
      modifies this, slots
      ensures Inv() && Noted() && queueFile == old(queueFile) && files == old(files)
      ensures currFile.Open? ==> currBusy == maxBusy || (barrier && currBusy > 0)
      ensures old(taken) <= taken && old(Rest(currFile)) == taken[|old(taken)|..] + Rest(currFile)
    {
      hide Taken, Commands, BarrierLines, Barriers, Last, Noted, Started;
      while currFile.Open? && currBusy < maxBusy
        invariant Inv() && Noted() && queueFile == old(queueFile) && files == old(files)
        invariant old(taken) <= taken && old(taken + Rest(currFile)) == taken + Rest(currFile)
        decreases currFile.Open?, |Rest(currFile)|
      {
        FirstLine(taken, Rest(currFile));
        var r := AddLine();
        if r == -1 {
          break;
        }
      }
      SameLines(old(taken), old(Rest(currFile)), taken, Rest(currFile));
    }

    /**
     checkQueue: take the next file if there is none, and read lines while there
     are free slots. What was waiting has been read or is still waiting.
     */
    method CheckQueue()
      requires Inv() && Noted()
      modifies this, slots
      ensures Inv() && Noted() && currBusy <= maxBusy
      ensures currFile.Open? ==> currBusy == maxBusy || (barrier && currBusy > 0)
      ensures queueFile == (if old(currFile) == Closed then Closed else old(queueFile))
      ensures if old(currFile) == Closed && old(queueFile).Open? then files == old(files) + [old(queueFile).rest]
              else files == old(files)
      ensures old(taken) <= taken && old(Waiting()) == taken[|old(taken)|..] + Rest(currFile)
      ensures nextId == old(nextId) + |CommandLines(taken[|old(taken)|..])|
    {
      hide Taken, Commands, BarrierLines, Barriers, Last, CommandLines, BarrierNumbers, Flat;
      if currFile == Closed {
        if queueFile == Closed {
          CommandsConcat([], []);
          return;
        }
        OpenNext();
      }
      ReadLines();
      CommandsConcat(old(taken), taken[|old(taken)|..]);
      assert old(taken) + taken[|old(taken)|..] == taken;
    }

    /** After a tick no line waits for a slot that is free; after the end of a command its slot is free. */
    ghost predicate Handled(e: Event)
      reads this, slots
    {
      && (e.Tick? && currFile.Open? ==> currBusy == maxBusy || (barrier && currBusy > 0))
      && (e.Done? && e.id != 0 && e.deleted ==> e.id !in slots[..])
      && (e.NewFile? ==> queueFile == Open(e.lines))
    }

    /** cmddone: the command's slot is released, unless the command says that it is busy. */
    method CmdDone(id: nat, deleted: bool)
      requires Inv() && id != 0
      modifies this`currBusy, slots
      ensures Inv() && currBusy == old(currBusy) - (if deleted && id in old(slots[..]) then 1 else 0)
      ensures forall k | 0 <= k < maxBusy :: slots[k] == if deleted && old(slots[k]) == id then 0 else old(slots[k])
      ensures deleted ==> id !in slots[..]
    {
      hide Taken, BarrierLines, Last;
      var i := 0;
      while i < maxBusy && slots[i] != id
        invariant 0 <= i <= maxBusy && forall k | 0 <= k < i :: slots[k] != id
      {
        i := i + 1;
      }
      if i >= maxBusy {
        return;
      }
      assert slots[..][i] == id;
      if deleted {
        Free(i);
      }
    }

    /**
     Every sequence of events keeps the slots, the count and the barriers in
     order, and the lines read are a prefix of the files opened. The files opened
     are some of the files produced, in their order; one is passed over only if
     the next one was put in its place, and the last one is still there if it was
     not opened.
     */
    method Process(events: seq<Event>) returns (ghost picks: seq<nat>)
      requires Inv() && Noted()
      modifies this, slots
      ensures Inv() && Noted() && Separated()
      ensures old(taken) <= taken <= Flat(files)
      ensures Picked(Produced(old(queueFile), events), picks, old(files), files, queueFile)
      ensures events != [] ==> Handled(events[|events| - 1])
    {
      hide Taken, Commands, Barriers, InOrder, Flat, Picked, BarrierLines, Separated, Produced;
      picks := [];
      NothingPicked(queueFile, events, files);
      for n := 0 to |events|
        invariant Inv() && Noted() && old(taken) <= taken
        invariant Picked(Produced(old(queueFile), events[..n]), picks, old(files), files, queueFile)
        invariant n > 0 ==> Handled(events[n - 1])
      {
        ProducedMore(old(queueFile), events, n);
        ghost var seen := Produced(old(queueFile), events[..n]);
        match events[n] {
          case Tick =>
            if currFile == Closed && queueFile.Open? {
              PickLast(seen, picks, old(files), files, queueFile);
              picks := picks + [|seen| - 1];
            }
            CheckQueue();
          case Done(id, deleted) =>
            if id != 0 {
              CmdDone(id, deleted);
            }
          case NewFile(lines) =>
            PutNext(seen, picks, old(files), files, queueFile, lines);
            NewQueue(lines);
        }
      }
      assert events[..|events|] == events;
      NoneAcross(this);
    }

    /** A producer puts a new queue file in place. */
    method NewQueue(lines: seq<Line>)
      requires Inv()
      modifies this`queueFile
      ensures Inv() && queueFile == Open(lines)
    {
      hide Taken;
      queueFile := Open(lines);
    }
  }

  /** Two commands that run at the same time are never on different sides of a barrier. */
  lemma NotAcross(q: Queue, i: nat, j: nat, k: nat)
    requires q.Inv() && i < q.maxBusy && j < q.maxBusy && k < |q.barriers|
    ensures q.SameSide(i, j, k)
  {
    hide Taken;
    if k < |q.resolved| {
      Increasing(q.resolved, k);
    }
  }

  lemma NoneAcross(q: Queue)
    requires q.Inv()
    ensures q.Separated()
  {
    hide Taken, Commands, Queue.Barriers, Queue.SameSide;
    forall i: nat, j: nat, k: nat | i < q.maxBusy && j < q.maxBusy && k < |q.barriers|
      ensures q.SameSide(i, j, k)
    {
      NotAcross(q, i, j, k);
    }
  }

  lemma {:induction false} Increasing(s: seq<nat>, k: nat)
    requires k < |s| && forall i | 0 < i < |s| :: s[i - 1] < s[i]
    ensures s[k] <= s[|s| - 1]
    decreases |s|
  {
    if k < |s| - 1 {
      var t := s[..|s| - 1];
      assert forall i | 0 < i < |t| :: t[i - 1] < t[i];
      Increasing(t, k);
    }
  }
}
