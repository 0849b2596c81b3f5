/**
 The live list of periodic jobs and its reconciliation with a crontab that is
 read again, and the arithmetic of the cycles in which a job runs.
 */
module Crontab {
  import Bits
  import opened Canonical

  const MICRO: nat := 1000000

  type Micros = u: nat | u < MICRO

  const MAX_INTERVAL: nat := 2 * 366 * 24 * 3600

  /** What identifies a job. */
  datatype Key = Key(interval: nat, start: nat, shell: string)

  /**
   A line of the file that could be parsed; distr is the width of a uniform
   distribution, init says whether its command can be set up, state is the
   state it gets.
   */
  datatype Entry = Entry(key: Key, end: nat, distr: Option<nat>, init: bool, state: nat)

  datatype Raw = Bad | Good(e: Entry)

  /** The lines that become jobs. */
  predicate Accepted(r: Raw)
  {
    r.Good? && 0 < r.e.key.interval <= MAX_INTERVAL
  }

  function KeysOf(lines: seq<Raw>): set<Key>
  {
    if lines == [] then {}
    else
      var last := lines[|lines| - 1];
      KeysOf(lines[..|lines| - 1]) + (if Accepted(last) then {last.e.key} else {})
  }

  /** The end time given by the last accepted line with a key. */
  function LastEnd(lines: seq<Raw>, k: Key): nat
    requires k in KeysOf(lines)
  {
    var last := lines[|lines| - 1];
    if Accepted(last) && last.e.key == k then last.e.end else LastEnd(lines[..|lines| - 1], k)
  }

  /** The first accepted line with a key. */
  function FirstEntry(lines: seq<Raw>, k: Key): (e: Entry)
    requires k in KeysOf(lines)
    ensures e.key == k
  {
    var front := lines[..|lines| - 1];
    if k in KeysOf(front) then FirstEntry(front, k) else lines[|lines| - 1].e
  }

  /** How far from the start of its cycle a job runs. */
  datatype Offset = Offset(sec: int, usec: Micros)

  /** What RunJob does that bears on the cycles: a cycle is run, or the timer is set anew; next is the cycle chosen. */
  datatype Mark = Ran(cycle: nat, next: nat) | Set(now: nat, next: nat)

  class CronLine {
    const key: Key
    const distr: Option<nat>
    var next: CronLine?
    var endTime: nat
    var nextcycle: nat
    var needsDelete: bool
    var testops: bool
    var teststate: nat
    var running: bool
    var offset: Offset
    var nexttime: int
    var pending: bool
    var due: nat
    ghost var log: seq<Mark>

    constructor (e: Entry)
      ensures key == e.key && next == null && endTime == e.end && nextcycle == 0 && !needsDelete && !testops
              && teststate == 0 && !running
      ensures distr == e.distr && !pending && log == []
    {
      log := [];
      key, endTime, distr := e.key, e.end, e.distr;
      offset, nexttime, pending, due := Offset(0, 0), 0, false, 0;
      next, nextcycle, needsDelete, testops, teststate, running := null, 0, false, false, 0, false;
    }

    /** The delete operation of the test would report that it is busy. */
    predicate Busy()
      reads this
    {
      testops && teststate != 0 && running
    }
  }

  /** The job itself has not changed: not its end, its next cycle or the state of its test. */
  twostate predicate SameJob(n: CronLine)
    reads n
  {
    n.endTime == old(n.endTime) && Kept(n)
  }

  twostate predicate Kept(n: CronLine)
    reads n
  {
    n.nextcycle == old(n.nextcycle) && n.testops == old(n.testops) && n.teststate == old(n.teststate)
        && n.running == old(n.running)
  }

  /** What an insertion does to a job that was there. */
  twostate predicate Updated(n: CronLine, line: CronLine)
    reads n, line
  {
    && Kept(n)
    && n.endTime == (if n.key == line.key then line.endTime else old(n.endTime))
    && n.needsDelete == (n.key != line.key && old(n.needsDelete))
  }

  twostate predicate SameTimer(n: CronLine)
    reads n
  {
    n.offset == old(n.offset) && n.nexttime == old(n.nexttime) && n.pending == old(n.pending) && n.due == old(n.due)
  }

  /** The timer of a job goes off at its time in its next cycle, or at once if that has passed. */
  ghost predicate TimerOk(key: Key, cycle: nat, offset: Offset, nexttime: int, due: nat, now: nat)
  {
    var start := StartOf(cycle, key.start, key.interval);
    var target := (start + offset.sec) * MICRO + offset.usec;
    nexttime == start + offset.sec && due == if target < now then now else target
  }

  ghost predicate Scheduled(n: CronLine, now: nat)
    reads n
  {
    n.pending && TimerOk(n.key, n.nextcycle, n.offset, n.nexttime, n.due, now)
  }

  predicate Expired(n: CronLine, now: nat)
    reads n
  {
    now / MICRO > n.endTime
  }

  ghost predicate Timed(n: CronLine, was: seq<CronLine>, lines: seq<Raw>, now: nat)
    reads n
  {
    n.key in KeysOf(lines) && !Expired(n, now) && (n in was || n.testops) ==> Scheduled(n, now)
  }

  /**
   A job made from a line: its command is set up if it can be, and then the first
   cycle after now is chosen, unless the line has expired.
   */
  ghost predicate MadeFrom(n: CronLine, e: Entry, now: nat)
    reads n
  {
    Made(n.testops, n.teststate, n.distr, n.nextcycle, e, now)
  }

  ghost predicate Made(testops: bool, teststate: nat, distr: Option<nat>, cycle: nat, e: Entry, now: nat)
  {
    && testops == e.init && teststate == (if e.init then e.state else 0) && distr == e.distr
    && if e.init && now / MICRO <= e.end then FirstAfter(cycle, now / MICRO, e.key.start, e.key.interval)
       else cycle == 0
  }

  /** A job that was not there before is made from the first line with its key. */
  ghost predicate NewOk(n: CronLine, was: seq<CronLine>, lines: seq<Raw>, now: nat)
    reads n
  {
    n !in was && n.key in KeysOf(lines) ==> MadeFrom(n, FirstEntry(lines, n.key), now)
  }

  ghost predicate Distinct(spine: seq<CronLine>)
  {
    forall i, j | 0 <= i < j < |spine| :: spine[i] != spine[j] && spine[i].key != spine[j].key
  }

  lemma UniqueKey(spine: seq<CronLine>, a: CronLine, b: CronLine)
    requires Distinct(spine) && a in spine && b in spine && a.key == b.key
    ensures a == b
  {}

  lemma DistinctAppend(spine: seq<CronLine>, line: CronLine)
    requires Distinct(spine) && line !in spine && forall k | 0 <= k < |spine| :: spine[k].key != line.key
    ensures Distinct(spine + [line])
  {}

  ghost function At(spine: seq<CronLine>, i: int): CronLine?
  {
    if 0 <= i < |spine| then spine[i] else null
  }

  /** The nodes are linked in this order. */
  ghost predicate Linked(base: CronLine?, spine: seq<CronLine>)
    reads spine
  {
    base == At(spine, 0) && forall i | 0 <= i < |spine| :: spine[i].next == At(spine, i + 1)
  }

  /** A job that is no longer in the list: its timer is off and nothing is left to be run. */
  ghost predicate Dismissed(n: CronLine)
    reads n
  {
    !n.pending && !(n.testops && n.teststate != 0)
  }

  class Jobs {
    var lineBase: CronLine?
    var oldLine: CronLine?
    ghost var spine: seq<CronLine>

    ghost predicate Valid()
      reads this, spine
    {
      Linked(lineBase, spine) && Distinct(spine) && (oldLine != null ==> oldLine in spine)
    }

    ghost function Nodes(): set<CronLine>
      reads this
    {
      set n | n in spine
    }

    constructor ()
      ensures Valid() && spine == []
    {
      lineBase, oldLine, spine := null, null, [];
    }

    /** The loop at the start of SynchronizeFile. */
    method MarkAll()
      requires Valid()
      modifies Nodes()
      ensures Valid() && forall n | n in spine :: n.needsDelete && SameJob(n)
    {
      hide Distinct, At;
      var line := lineBase;
      ghost var i, sp := 0, spine;
      while line != null
        invariant 0 <= i <= |sp| && line == At(sp, i) && spine == sp
        invariant Linked(lineBase, sp) && (forall k | 0 <= k < i :: sp[k].needsDelete)
                  && (forall k | 0 <= k < |sp| :: SameJob(sp[k]))
        decreases |sp| - i
      {
        Step(lineBase, sp, i);
        line.needsDelete := true;
        line := line.next;
        i := i + 1;
      }
      NoMore(sp, i);
    }

    /** The search through the list; last is where it ended. */
    method Find(key: Key) returns (found: CronLine?, last: CronLine?)
      requires Valid()
      ensures found != null ==> found in spine && found.key == key
      ensures found == null ==> (forall k | 0 <= k < |spine| :: spine[k].key != key) && last == At(spine, |spine| - 1)
    {
      ghost var i, sp := 0, spine;
      last, found := null, lineBase;
      while found != null && found.key != key
        invariant spine == sp && Linked(lineBase, sp)
        invariant 0 <= i <= |sp| && found == At(sp, i) && last == At(sp, i - 1)
        invariant forall k | 0 <= k < i :: sp[k].key != key
        decreases |sp| - i
      {
        assert sp[i].next == At(sp, i + 1);
        last := found;
        found := found.next;
        i := i + 1;
      }
    }

    /** A new node at the end of the list. */
    method Append(last: CronLine?, line: CronLine)
      requires Valid() && oldLine == null && line !in spine && last == At(spine, |spine| - 1)
      requires forall k | 0 <= k < |spine| :: spine[k].key != line.key
      modifies this`lineBase, this`spine, Nodes(), line`next
      ensures Valid() && spine == old(spine) + [line] && oldLine == null
      ensures forall n | n in old(spine) :: SameJob(n) && SameTimer(n) && n.needsDelete == old(n.needsDelete)
    {
      hide Distinct, At;
      ghost var sp := spine;
      DistinctAppend(sp, line);
      Places(sp, line);
      line.next := null;
      if last != null {
        last.next := line;
      } else {
        lineBase := line;
      }
      spine := sp + [line];
      forall k | 0 <= k < |spine|
        ensures spine[k].next == At(spine, k + 1)
      {
        if k < |sp| - 1 {
          assert sp[k] != last;
        }
      }
    }

    /** The job with the same key takes the end time of the line. */
    method Reuse(job: CronLine, line: CronLine, now: nat)
      requires Valid() && job in spine && job.key == line.key && line !in spine && job.key.interval > 0
      modifies Nodes()
      ensures Valid() && forall n | n in spine :: Updated(n, line)
      ensures forall n | n in spine :: if n.key == line.key then !Expired(n, now) ==>
              Scheduled(n, now) else SameTimer(n)
    {
      hide Distinct, At, TimerOk;
      ghost var sp := spine;
      job.endTime := line.endTime;
      job.needsDelete := false;
      SetTimeout(job, false, now);
      forall n | n in sp
        ensures Updated(n, line) && if n.key == line.key then !Expired(n, now) ==> Scheduled(n, now) else SameTimer(n)
      {
        if n.key == line.key {
          UniqueKey(sp, n, job);
        }
      }
    }

    /** Insert: the job with the same key is kept and gets the new end time, or the line becomes a new job. */
    method Insert(line: CronLine, now: nat) returns (added: bool)
      requires Valid() && line !in spine && line.key.interval > 0
      modifies this`lineBase, this`oldLine, this`spine, Nodes(), line`next
      ensures forall n | n in old(spine) :: if n.key == line.key then !Expired(n, now) ==>
              Scheduled(n, now) else SameTimer(n)
      ensures Valid() && (added <==> forall k | 0 <= k < |old(spine)| :: old(spine)[k].key != line.key)
      ensures spine == if added then old(spine) + [line] else old(spine)
      ensures forall n | n in old(spine) :: Updated(n, line)
    {
      hide Distinct, At, Linked, TimerOk;
      if oldLine != null && oldLine.key != line.key {
        oldLine := null;
      }
      var last: CronLine? := null;
      if oldLine == null {
        var found;
        found, last := Find(line.key);
        oldLine := found;
      }
      if oldLine != null {
        Reuse(oldLine, line, now);
        return false;
      }
      Append(last, line);
      return true;
    }

    /** DeleteFile keeps what is not marked and what is busy. */
    twostate predicate Stays(n: CronLine)
    {
      old(!n.needsDelete || n.Busy())
    }

    /** The test of a job that goes is deleted, and its timer too. */
    method Dismiss(line: CronLine)
      modifies line`testops, line`teststate, line`pending
      ensures Dismissed(line)
    {
      if line.testops && line.teststate != 0 {
        line.testops, line.teststate := false, 0;
      }
      line.pending := false;
    }

    /** Unlink the node after prev, or the first one. */
    method Unlink(prev: CronLine?, line: CronLine, ghost i: nat)
      requires Valid() && oldLine == null && i < |spine| && spine[i] == line && prev == At(spine, i - 1)
      modifies this`lineBase, this`spine, prev
      ensures Valid() && oldLine == null && spine == old(spine)[..i] + old(spine)[i + 1..] && line !in spine
      ensures forall n | n in old(spine) :: SameJob(n) && SameTimer(n) && n.needsDelete == old(n.needsDelete)
    {
      hide Distinct;
      ghost var sp := spine;
      DistinctRemove(sp, i);
      assert sp[i].next == At(sp, i + 1);
      if prev != null {
        prev.next := line.next;
      } else {
        lineBase := line.next;
      }
      spine := sp[..i] + sp[i + 1..];
      assert forall k | 0 <= k < |spine| :: spine[k].next == At(spine, k + 1);
    }

    /** A job goes: it leaves the list, with its test and its timer. */
    method Remove(prev: CronLine?, line: CronLine, ghost i: nat)
      requires Valid() && oldLine == null && i < |spine| && spine[i] == line && prev == At(spine, i - 1)
      modifies this`lineBase, this`spine, prev, line`testops, line`teststate, line`pending
      ensures Valid() && oldLine == null && spine == old(spine)[..i] + old(spine)[i + 1..] && line !in spine
      ensures Dismissed(line)
      ensures forall n | n in old(spine) && n != line ::
                SameJob(n) && SameTimer(n) && n.needsDelete == old(n.needsDelete)
    {
      hide Distinct, Linked, At;
      Unlink(prev, line, i);
      Dismiss(line);
    }

    /** DeleteFile: the marked jobs go, with their tests and timers, unless their test is busy. */
    method DeleteFile()
      requires Valid()
      modifies this, Nodes()
      ensures Valid() && oldLine == null
      ensures forall n | n in old(spine) :: n in spine <==> Stays(n)
      ensures forall n | n in old(spine) && n !in spine :: Dismissed(n)
      ensures forall n | n in spine ::
                n in old(spine) && SameJob(n) && SameTimer(n) && n.needsDelete == old(n.needsDelete)
    {
      hide Distinct, Linked, At, Filtering, Dismissed;
      oldLine := null;
      ghost var sp := spine;
      ghost var stay := set n | n in sp && (!n.needsDelete || n.Busy());
      ghost var i, j := 0, 0;
      var prev: CronLine? := null;
      Ends(spine, lineBase, stay);
      var line := lineBase;
      while line != null
        invariant Valid() && oldLine == null && line == At(spine, i) && prev == At(spine, i - 1)
                  && Filtering(spine, sp, i, j, stay)
        invariant i <= |spine| && forall n | n in sp && n in spine ::
                    SameJob(n) && SameTimer(n) && n.needsDelete == old(n.needsDelete)
        invariant forall n | n in sp && n !in spine :: Dismissed(n)
        decreases |spine| - i
      {
        Step(lineBase, spine, i);
        FilterStep(spine, sp, i, j, stay);
        Subset(spine, sp, i, j, stay);
        AtIn(spine, i - 1);
        if !line.needsDelete || line.Busy() {
          prev := line;
          line := line.next;
          i := i + 1;
        } else {
          var next := line.next;
          Remove(prev, line, i);
          line := next;
        }
        j := j + 1;
      }
      Ended(spine, sp, i, j, stay);
    }

    /** Start: the test is set up and the first cycle is chosen, if the command is a good one. */
    method Start(line: CronLine, e: Entry, now: nat)
      requires line.key == e.key && e.key.interval > 0
      modifies line`testops, line`teststate, line`nextcycle, line`offset, line`nexttime, line`due, line`pending
      ensures line.testops == e.init && line.teststate == if e.init then e.state else old(line.teststate)
      ensures e.init && !Expired(line, now) ==>
                Scheduled(line, now) && FirstAfter(line.nextcycle, now / MICRO, e.key.start, e.key.interval)
      ensures !e.init || Expired(line, now) ==> line.nextcycle == old(line.nextcycle) && SameTimer(line)
    {
      hide TimerOk, FirstAfter;
      line.testops := false;
      if !e.init {
        return;
      }
      line.testops, line.teststate := true, e.state;
      SetTimeout(line, true, now);
    }

    /** A new job, or a new end time for the job that is there. */
    method Enter(line: CronLine, e: Entry, now: nat) returns (added: bool)
      requires Valid() && line !in spine && line.key == e.key && e.key.interval > 0 && line.endTime == e.end
               && !line.needsDelete
      requires line.distr == e.distr && line.teststate == 0 && line.nextcycle == 0
      modifies this, Nodes(), line
      ensures Valid() && (added <==> forall k | 0 <= k < |old(spine)| :: old(spine)[k].key != line.key)
      ensures spine == if added then old(spine) + [line] else old(spine)
      ensures forall n | n in old(spine) :: Updated(n, line)
      ensures forall n | n in old(spine) :: if n.key == line.key then !Expired(n, now) ==>
              Scheduled(n, now) else SameTimer(n)
      ensures line.endTime == e.end && !line.needsDelete
      ensures added ==> MadeFrom(line, e, now) && (line.testops && !Expired(line, now) ==> Scheduled(line, now))
    {
      hide Distinct, At, TimerOk, FirstAfter;
      added := Insert(line, now);
      if added {
        Start(line, e, now);
      }
    }

    /** One line of the file. */
    method AddLine(raw: Raw, now: nat, ghost done: seq<Raw>, ghost was: seq<CronLine>)
      requires Valid() && was <= spine && InStep(spine, was, done)
      requires forall n | n in spine :: Timed(n, was, done, now) && NewOk(n, was, done, now)
      modifies this, Nodes()
      ensures Valid() && was <= spine && InStep(spine, was, done + [raw]) && old(spine) <= spine
      ensures forall n | n in spine :: Timed(n, was, done + [raw], now) && NewOk(n, was, done + [raw], now)
      ensures fresh(Nodes() - old(Nodes()))
      ensures forall n | n in old(spine) :: Kept(n) && (n.key !in KeysOf(done + [raw]) ==> n.endTime == old(n.endTime))
    {
      hide Distinct, At, StatusOk, KeysOf, LastEnd, FirstEntry, TimerOk, FirstAfter, Made;
      ghost var sp, all := spine, done + [raw];
      KeysStep(done, raw);
      if !Accepted(raw) {
        forall n | n in sp
          ensures NodeOk(n, was, all) && NewOk(n, was, all, now)
        {
          NodeSkipped(n, was, done, raw);
          NewStays(n, n.needsDelete, n.endTime, was, done, raw, now);
        }
        return;
      }
      var line := new CronLine(raw.e);
      var added := Enter(line, raw.e, now);
      forall n | n in sp
        ensures NodeOk(n, was, all) && Timed(n, was, all, now) && NewOk(n, was, all, now)
      {
        NodeUpdated(n, old(n.needsDelete), old(n.endTime), was, done, raw);
        NewStays(n, old(n.needsDelete), old(n.endTime), was, done, raw, now);
      }
      NodeNew(line, was, done, raw);
      FirstStep(done, raw, line.key);
      KeysCovered(spine, sp, done, raw, line);
    }

    /** The loop of SynchronizeFile over the lines. */
    method AddLines(lines: seq<Raw>, now: nat)
      requires Valid() && forall n | n in spine :: n.needsDelete
      modifies this, Nodes()
      ensures Valid() && old(spine) <= spine && InStep(spine, old(spine), lines)
      ensures forall n | n in spine :: Timed(n, old(spine), lines, now) && NewOk(n, old(spine), lines, now)
      ensures fresh(Nodes() - old(Nodes()))
      ensures forall n | n in old(spine) :: Kept(n) && (n.key !in KeysOf(lines) ==> n.endTime == old(n.endTime))
    {
      hide Distinct, Linked, At, InStep, KeysOf, TimerOk;
      ghost var was := spine;
      NothingRead(spine);
      NoKeys();
      assert lines[..0] == [];
      for k := 0 to |lines|
        invariant Valid() && was <= spine && InStep(spine, was, lines[..k])
        invariant forall n | n in spine :: Timed(n, was, lines[..k], now) && NewOk(n, was, lines[..k], now)
        invariant fresh(Nodes() - old(Nodes()))
        invariant forall n | n in was :: Kept(n) && (n.key !in KeysOf(lines[..k]) ==> n.endTime == old(n.endTime))
      {
        assert lines[..k + 1] == lines[..k] + [lines[k]];
        KeysStep(lines[..k], lines[k]);
        AddLine(lines[k], now, lines[..k], was);
      }
      assert lines[..|lines|] == lines;
    }

    /**
     SynchronizeFile: mark all jobs, read the lines, delete what is still marked.
     The list then holds one job for each key read, and what could not be
     deleted; a job that was there keeps its cycle and its test, a new one is
     started as its first line says, and one that goes never runs again.
     */
    method SynchronizeFile(present: bool, file: seq<Raw>, maxLines: nat, now: nat, ghost lines: seq<Raw>)
      requires Valid() && maxLines > 0
      requires lines == if present then file[..if |file| < maxLines then |file| else maxLines - 1] else []
      modifies this, Nodes()
      ensures Valid()
      ensures forall k | k in KeysOf(lines) :: exists n | n in spine :: n.key == k
      ensures forall n | n in old(spine) :: n in spine <==> n.key in KeysOf(lines) || old(n.Busy())
      ensures fresh(Nodes() - old(Nodes())) && forall n | n in spine && n !in old(spine) :: n.key in KeysOf(lines)
      ensures forall n | n in spine && n.key in KeysOf(lines) :: n.endTime == LastEnd(lines, n.key)
      ensures forall n | n in spine && n in old(spine) :: Kept(n)
      ensures forall n | n in spine :: Timed(n, old(spine), lines, now) && NewOk(n, old(spine), lines, now)
      ensures forall n | n in old(spine) && n !in spine :: Dismissed(n)
    {
      hide Distinct, Linked, At, KeysOf, LastEnd, FirstEntry, FirstAfter, TimerOk;
      ghost var was := spine;
      MarkAll();
      if !present {
        NoKeys();
        DeleteFile();
        return;
      }
      AddLines(file[..if |file| < maxLines then |file| else maxLines - 1], now);
      ghost var sp := spine;
      DeleteFile();
      forall k | k in KeysOf(lines)
        ensures exists n | n in spine :: n.key == k
      {
        var n :| n in sp && n.key == k;
        assert n in spine;
      }
    }
  }

  lemma NothingRead(spine: seq<CronLine>)
    requires forall n | n in spine :: n.needsDelete
    ensures InStep(spine, spine, [])
  {}

  lemma NoKeys()
    ensures KeysOf([]) == {}
  {}

  lemma KeysStep(done: seq<Raw>, raw: Raw)
    ensures KeysOf(done + [raw]) == KeysOf(done) + (if Accepted(raw) then {raw.e.key} else {})
    ensures forall k | k in KeysOf(done + [raw]) ::
              LastEnd(done + [raw], k) == if Accepted(raw) && raw.e.key == k then raw.e.end else LastEnd(done, k)
  {
    assert (done + [raw])[..|done|] == done;
  }

  lemma FirstStep(done: seq<Raw>, raw: Raw, k: Key)
    requires k in KeysOf(done) || (Accepted(raw) && raw.e.key == k)
    ensures k in KeysOf(done + [raw])
    ensures FirstEntry(done + [raw], k) == if k in KeysOf(done) then FirstEntry(done, k) else raw.e
  {
    assert (done + [raw])[..|done|] == done;
  }

  /** A line with a key that was there does not change what a new job was made from. */
  lemma NewStays(n: CronLine, marked: bool, end: nat, was: seq<CronLine>, done: seq<Raw>, raw: Raw, now: nat)
    requires StatusOk(n.key, marked, end, n in was, done) && NewOk(n, was, done, now)
    ensures NewOk(n, was, done + [raw], now)
  {
    hide KeysOf, FirstEntry, Made;
    if n.key in KeysOf(done) {
      FirstStep(done, raw, n.key);
    }
  }

  lemma NodeSkipped(n: CronLine, was: seq<CronLine>, done: seq<Raw>, raw: Raw)
    requires NodeOk(n, was, done) && !Accepted(raw)
    ensures NodeOk(n, was, done + [raw])
  {
    hide KeysOf, LastEnd;
    KeysStep(done, raw);
  }

  lemma NodeUpdated(n: CronLine, marked: bool, end: nat, was: seq<CronLine>, done: seq<Raw>, raw: Raw)
    requires StatusOk(n.key, marked, end, n in was, done) && Accepted(raw)
    requires n.endTime == (if n.key == raw.e.key then raw.e.end else end)
             && n.needsDelete == (n.key != raw.e.key && marked)
    ensures NodeOk(n, was, done + [raw])
  {
    hide KeysOf, LastEnd;
    KeysStep(done, raw);
  }

  lemma NodeNew(line: CronLine, was: seq<CronLine>, done: seq<Raw>, raw: Raw)
    requires Accepted(raw) && line.key == raw.e.key && line.endTime == raw.e.end && !line.needsDelete
    ensures NodeOk(line, was, done + [raw])
  {
    hide KeysOf, LastEnd;
    KeysStep(done, raw);
  }

  /** Every key read has its job. */
  lemma KeysCovered(spine: seq<CronLine>, sp: seq<CronLine>, done: seq<Raw>, raw: Raw, line: CronLine)
    requires sp <= spine && Accepted(raw) && line.key == raw.e.key
    requires line in spine || exists n | n in sp :: n.key == line.key
    requires forall k | k in KeysOf(done) :: exists n | n in sp :: n.key == k
    ensures forall k | k in KeysOf(done + [raw]) :: exists n | n in spine :: n.key == k
  {
    hide KeysOf;
    KeysStep(done, raw);
    forall k | k in KeysOf(done + [raw])
      ensures exists n | n in spine :: n.key == k
    {
      if k == raw.e.key {
        if line !in spine {
          var n :| n in sp && n.key == line.key;
          assert n in spine;
        }
      } else {
        var n :| n in sp && n.key == k;
        assert n in spine;
      }
    }
  }

  /** The cycle to begin with: the first one that starts after now, or cycle 0 before the start time. */
  function FirstCycle(now: nat, start: nat, interval: nat): nat
    requires interval > 0
  {
    if now < start then 0 else (now - start) / interval + 1
  }

  /**
   The list after some lines: exactly the jobs with a key among them are not
   marked, and they have their last end time.
   */
  ghost predicate InStep(spine: seq<CronLine>, was: seq<CronLine>, done: seq<Raw>)
    reads spine
  {
    && (forall n | n in spine :: NodeOk(n, was, done))
    && (forall k | k in KeysOf(done) :: exists n | n in spine :: n.key == k)
  }

  ghost predicate NodeOk(n: CronLine, was: seq<CronLine>, done: seq<Raw>)
    reads n
  {
    StatusOk(n.key, n.needsDelete, n.endTime, n in was, done)
  }

  ghost predicate StatusOk(key: Key, marked: bool, end: nat, old_: bool, done: seq<Raw>)
  {
    && (marked <==> key !in KeysOf(done))
    && (key in KeysOf(done) ==> end == LastEnd(done, key))
    && (!old_ ==> key in KeysOf(done))
  }

  /** The first j nodes of the old list are done; those of them that stay are the first i nodes now. */
  ghost predicate Filtering(spine: seq<CronLine>, sp: seq<CronLine>, i: nat, j: nat, stay: set<CronLine>)
  {
    && i <= |spine| && j <= |sp| && spine[i..] == sp[j..]
    && (forall k | 0 <= k < i :: spine[k] in sp && spine[k] in stay)
    && (forall k | 0 <= k < j && sp[k] in stay :: sp[k] in spine[..i])
  }

  lemma FilterStep(spine: seq<CronLine>, sp: seq<CronLine>, i: nat, j: nat, stay: set<CronLine>)
    requires Filtering(spine, sp, i, j, stay) && i < |spine|
    ensures j < |sp| && spine[i] == sp[j] && spine[i] in sp
    ensures spine[i] in stay ==> Filtering(spine, sp, i + 1, j + 1, stay)
    ensures spine[i] !in stay ==> Filtering(spine[..i] + spine[i + 1..], sp, i, j + 1, stay)
    ensures At(spine[..i] + spine[i + 1..], i) == At(spine, i + 1)
            && At(spine[..i] + spine[i + 1..], i - 1) == At(spine, i - 1)
  {
    assert spine[i..][0] == sp[j..][0];
    assert spine[i + 1..] == spine[i..][1..] == sp[j..][1..] == sp[j + 1..];
    assert spine[..i + 1] == spine[..i] + [spine[i]];
    assert (spine[..i] + spine[i + 1..])[i..] == spine[i + 1..];
    assert (spine[..i] + spine[i + 1..])[..i] == spine[..i];
  }

  lemma Subset(spine: seq<CronLine>, sp: seq<CronLine>, i: nat, j: nat, stay: set<CronLine>)
    requires Filtering(spine, sp, i, j, stay)
    ensures forall n | n in spine :: n in sp
  {
    forall n | n in spine
      ensures n in sp
    {
      var k :| 0 <= k < |spine| && spine[k] == n;
      if k >= i {
        assert spine[k] == spine[i..][k - i] == sp[j..][k - i];
      }
    }
  }

  lemma AtIn(spine: seq<CronLine>, k: int)
    ensures At(spine, k) != null ==> At(spine, k) in spine
  {}

  /** Places in a list and in the list with one more node. */
  lemma Places(sp: seq<CronLine>, line: CronLine)
    requires Distinct(sp) && line !in sp
    ensures At(sp, |sp|) == null && At(sp + [line], |sp|) == line && At(sp + [line], |sp| + 1) == null
            && At(sp + [line], 0) != null
    ensures forall k | 0 <= k < |sp| :: At(sp + [line], k) == At(sp, k) == sp[k]
    ensures forall k | 0 <= k < |sp| - 1 :: sp[k] != sp[|sp| - 1]
    ensures |sp| > 0 ==> At(sp, |sp| - 1) != null
    ensures |sp| == 0 ==> At(sp, |sp| - 1) == null
  {}

  lemma Ends(spine: seq<CronLine>, base: CronLine?, stay: set<CronLine>)
    requires Linked(base, spine)
    ensures At(spine, -1) == null && base == At(spine, 0) && Filtering(spine, spine, 0, 0, stay)
  {}

  lemma Ended(spine: seq<CronLine>, sp: seq<CronLine>, i: nat, j: nat, stay: set<CronLine>)
    requires At(spine, i) == null && Filtering(spine, sp, i, j, stay) && stay <= set n | n in sp
    ensures forall n | n in sp :: n in spine <==> n in stay
    ensures forall n | n in spine :: n in sp
  {
    assert spine[i..] == [] && j == |sp| && spine[..i] == spine;
    forall n | n in sp
      ensures n in spine <==> n in stay
    {
      var k :| 0 <= k < |sp| && sp[k] == n;
    }
  }

  lemma Step(base: CronLine?, spine: seq<CronLine>, i: nat)
    requires Linked(base, spine) && At(spine, i) != null
    ensures i < |spine| && At(spine, i) == spine[i] && spine[i].next == At(spine, i + 1)
  {}

  lemma NoMore(spine: seq<CronLine>, i: nat)
    requires At(spine, i) == null && i <= |spine|
    ensures i == |spine|
  {}

  lemma DistinctRemove(spine: seq<CronLine>, i: nat)
    requires Distinct(spine) && i < |spine|
    ensures Distinct(spine[..i] + spine[i + 1..]) && spine[i] !in spine[..i] + spine[i + 1..]
  {}

  // ----- cycles -----

  /** When a cycle starts. */
  function StartOf(cycle: nat, start: nat, interval: nat): nat
  {
    start + cycle * interval
  }

  lemma Later(a: nat, b: nat, start: nat, interval: nat)
    requires a <= b
    ensures StartOf(a, start, interval) <= StartOf(b, start, interval)
  {
    assert a * interval <= b * interval;
  }

  lemma Between(now: nat, start: nat, interval: nat)
    requires interval > 0 && start <= now
    ensures var q := (now - start) / interval;
            StartOf(q, start, interval) <= now < StartOf(q + 1, start, interval)
  {
    Bits.ModLess(now - start, interval);
    var q := (now - start) / interval;
    assert (q + 1) * interval == q * interval + interval;
  }

  /** The cycle chosen first is the first one that starts after now. */
  lemma FirstCycleIs(now: nat, start: nat, interval: nat)
    requires interval > 0
    ensures now < StartOf(FirstCycle(now, start, interval), start, interval)
    ensures forall c: nat | c < FirstCycle(now, start, interval) :: StartOf(c, start, interval) <= now
  {
    hide StartOf;
    if now < start {
      Begins(start, interval);
    } else {
      Between(now, start, interval);
      var q := (now - start) / interval;
      forall c: nat | c < q + 1
        ensures StartOf(c, start, interval) <= now
      {
        Later(c, q, start, interval);
      }
    }
  }

  lemma Begins(start: nat, interval: nat)
    ensures StartOf(0, start, interval) == start
  {}

  /** The cycle after one that has run: the next one, or a later one if that has passed. */
  function NextCycle(cycle: nat, now: nat, start: nat, interval: nat): nat
    requires interval > 0
  {
    if StartOf(cycle + 1, start, interval) < now then FirstCycle(now, start, interval) else cycle + 1
  }

  /** The cycle after one that was run is later, has not passed, and only cycles that have started are left out. */
  lemma NextCycleIs(cycle: nat, now: nat, start: nat, interval: nat)
    requires interval > 0
    ensures var next := NextCycle(cycle, now, start, interval);
            && cycle < next && now <= StartOf(next, start, interval)
            && forall c: nat | cycle < c < next :: StartOf(c, start, interval) <= now
  {
    hide StartOf;
    if StartOf(cycle + 1, start, interval) < now {
      Begins(start, interval);
      Later(0, cycle + 1, start, interval);
      Between(now, start, interval);
      var q := (now - start) / interval;
      if q < cycle + 1 {
        Later(q + 1, cycle + 1, start, interval);
      }
      forall c: nat | cycle < c < q + 1
        ensures StartOf(c, start, interval) <= now
      {
        Later(c, q, start, interval);
      }
    }
  }

  /** The delay set_timeout computes, in seconds and microseconds. */
  function Delay(sec: int, usec: int): (int, int)
  {
    var s, u := if usec < 0 then sec - 1 else sec, if usec < 0 then usec + MICRO else usec;
    if s < 0 then (0, 0) else (s, u)
  }

  /** The delay ends at the time of the cycle, or at once if that has passed. */
  lemma DelayIs(sec: int, offset: nat, now: nat)
    requires offset < MICRO && now < MICRO
    ensures var (s, u) := Delay(sec, offset - now);
            var total := sec * MICRO + offset - now;
            0 <= s && 0 <= u < MICRO && s * MICRO + u == if total < 0 then 0 else total
  {}

  /** What RunJob does with a line: nothing, a new choice of cycle, or a run and the next cycle. */
  datatype Outcome = Nothing | Rescheduled | Started

  /** The first cycle that starts after now. */
  ghost predicate FirstAfter(cycle: nat, now: nat, start: nat, interval: nat)
  {
    now < StartOf(cycle, start, interval) && forall c: nat | c < cycle :: StartOf(c, start, interval) <= now
  }

  /** A draw from the distribution of the job. */
  method DoDistr(line: CronLine)
    modifies line`offset
    ensures line.distr.None? ==> line.offset == Offset(0, 0)
    ensures line.distr.Some? ==> -(line.distr.value / 2) <= line.offset.sec <= line.distr.value - line.distr.value / 2
  {
    line.offset := Offset(0, 0);
    if line.distr.Some? {
      var param := line.distr.value;
      var r: nat, u: nat := *, *;
      Bits.ModLess(r, param + 1);
      line.offset := Offset(r % (param + 1) - param / 2, u % MICRO);
    }
  }

  /** set_timeout: nothing for a job that has expired, else its timer is set, for a new choice of cycle if asked to. */
  method SetTimeout(line: CronLine, init: bool, now: nat)
    requires line.key.interval > 0
    modifies line`nextcycle, line`offset, line`nexttime, line`due, line`pending
    ensures Expired(line, now) ==> line.nextcycle == old(line.nextcycle) && SameTimer(line)
    ensures !Expired(line, now) ==> Scheduled(line, now)
    ensures !Expired(line, now) && init ==> FirstAfter(line.nextcycle, now / MICRO, line.key.start, line.key.interval)
    ensures !init ==> line.nextcycle == old(line.nextcycle) && line.offset == old(line.offset)
    ensures !Expired(line, now) && init && line.distr.None? ==> line.offset == Offset(0, 0)
  {
    hide StartOf, FirstCycle;
    var sec, usec := now / MICRO, now % MICRO;
    if sec > line.endTime {
      return;
    }
    if init {
      FirstCycleIs(sec, line.key.start, line.key.interval);
      line.nextcycle := FirstCycle(sec, line.key.start, line.key.interval);
      DoDistr(line);
    }
    line.nexttime := StartOf(line.nextcycle, line.key.start, line.key.interval) + line.offset.sec;
    DelayIs(line.nexttime - sec, line.offset.usec, usec);
    var (s, u) := Delay(line.nexttime - sec, line.offset.usec - usec);
    line.due := now + s * MICRO + u;
    line.pending := true;
  }

  /**
   RunJob, when the timer of a line goes off: the job is run and goes on to a
   later cycle, or a cycle is chosen anew because the clock is far from the plan.
   */
  method RunJob(line: CronLine, now: nat) returns (o: Outcome)
    requires line.key.interval > 0
    modifies line`nextcycle, line`offset, line`nexttime, line`due, line`pending, line`log
    ensures o == Started <==>
            !line.needsDelete && -10 <= now / MICRO - old(line.nexttime) <= 10 && !Expired(line, now)
                && line.teststate != 0
    ensures o == Rescheduled <==> !line.needsDelete && !(-10 <= now / MICRO - old(line.nexttime) <= 10)
    ensures o == Started ==>
              && old(line.nextcycle) < line.nextcycle
              && now / MICRO <= StartOf(line.nextcycle, line.key.start, line.key.interval)
              && forall c: nat | old(line.nextcycle) < c < line.nextcycle ::
                  StartOf(c, line.key.start, line.key.interval) <= now / MICRO
    ensures o == Rescheduled && !Expired(line, now) ==>
              FirstAfter(line.nextcycle, now / MICRO, line.key.start, line.key.interval)
    ensures o != Nothing && !Expired(line, now) ==>
              Scheduled(line, now) && (line.distr.None? ==> line.offset == Offset(0, 0))
    ensures o == Nothing || Expired(line, now) ==> !line.pending && line.nextcycle == old(line.nextcycle)
    ensures line.log == old(line.log) + (if o == Started then [Ran(old(line.nextcycle), line.nextcycle)]
                                         else if o == Rescheduled
                                             && !Expired(line, now) then [Set(now / MICRO, line.nextcycle)] else [])
  {
    hide StartOf, FirstCycle, TimerOk, FirstAfter;
    line.pending := false;
    if line.needsDelete {
      return Nothing;
    }
    var sec := now / MICRO;
    if sec < line.nexttime - 10 || sec > line.nexttime + 10 {
      SetTimeout(line, true, now);
      if !Expired(line, now) {
        line.log := line.log + [Set(sec, line.nextcycle)];
      }
      return Rescheduled;
    }
    if sec > line.endTime || line.teststate == 0 {
      return Nothing;
    }
    NextCycleIs(line.nextcycle, sec, line.key.start, line.key.interval);
    ghost var cycle := line.nextcycle;
    line.nextcycle := NextCycle(line.nextcycle, sec, line.key.start, line.key.interval);
    line.log := line.log + [Ran(cycle, line.nextcycle)];
    DoDistr(line);
    SetTimeout(line, false, now);
    return Started;
  }

  // ----- which cycles are run -----

  /** Each mark is what RunJob can leave, and the cycle run is the one chosen before. */
  ghost predicate Traced(log: seq<Mark>, nextcycle: nat, start: nat, interval: nat)
  {
    && (forall i | 0 <= i < |log| && log[i].Ran? :: log[i].cycle < log[i].next)
    && (forall i | 0 <= i < |log| && log[i].Set? :: FirstAfter(log[i].next, log[i].now, start, interval))
    && (forall i | 0 < i < |log| && log[i].Ran? :: log[i].cycle == log[i - 1].next)
    && (log != [] ==> log[|log| - 1].next == nextcycle)
  }

  ghost function LastRun(log: seq<Mark>): Option<nat>
  {
    if log == [] then None
    else
      match log[|log| - 1]
      case Ran(cycle, _) => Some(cycle)
      case Set(_, _) => LastRun(log[..|log| - 1])
  }

  /** A mark that sets the timer anew is made no earlier than the start of the last cycle run. */
  ghost predicate MarkInTime(log: seq<Mark>, i: nat, start: nat, interval: nat)
    requires i < |log|
  {
    log[i].Set? && LastRun(log[..i]).Some? ==> StartOf(LastRun(log[..i]).value, start, interval) <= log[i].now
  }

  ghost predicate InTime(log: seq<Mark>, start: nat, interval: nat)
  {
    forall i: nat | i < |log| :: MarkInTime(log, i, start, interval)
  }

  /** At every time the cycle to be run next is later than all cycles that have been run. */
  ghost predicate AlwaysNew(log: seq<Mark>)
  {
    forall i, j | 0 <= j <= i < |log| && log[j].Ran? :: log[j].cycle < log[i].next
  }

  ghost predicate NoneTwice(log: seq<Mark>)
  {
    forall i, j | 0 <= i < j < |log| && log[i].Ran? && log[j].Ran? :: log[i].cycle != log[j].cycle
  }

  lemma NewMeansOnce(log: seq<Mark>, nextcycle: nat, start: nat, interval: nat)
    requires Traced(log, nextcycle, start, interval) && AlwaysNew(log)
    ensures NoneTwice(log)
  {
    forall i, j | 0 <= i < j < |log| && log[i].Ran? && log[j].Ran?
      ensures log[i].cycle != log[j].cycle
    {
      assert log[i].cycle < log[j - 1].next;
    }
  }

  lemma LastIsLatest(log: seq<Mark>, n: nat)
    requires AlwaysNew(log) && n < |log| && log[n].Ran? && (n > 0 ==> log[n].cycle == log[n - 1].next)
    ensures forall j | 0 <= j <= n && log[j].Ran? :: log[j].cycle <= log[n].cycle
  {
    forall j | 0 <= j <= n && log[j].Ran?
      ensures log[j].cycle <= log[n].cycle
    {
      if j < n {
        assert log[j].cycle < log[n - 1].next;
      }
    }
  }

  lemma {:induction false} LastRunIsMax(log: seq<Mark>, nextcycle: nat, start: nat, interval: nat)
    requires Traced(log, nextcycle, start, interval) && AlwaysNew(log)
    ensures forall j | 0 <= j < |log| && log[j].Ran? :: LastRun(log).Some? && log[j].cycle <= LastRun(log).value
    ensures LastRun(log).Some? ==> exists j :: 0 <= j < |log| && log[j] == Ran(LastRun(log).value, log[j].next)
    decreases |log|
  {
    hide FirstAfter;
    if log != [] {
      var n := |log| - 1;
      var front := log[..n];
      LastRunIsMax(front, if n == 0 then 0 else log[n - 1].next, start, interval);
      if log[n].Ran? {
        LastIsLatest(log, n);
      } else if LastRun(front).Some? {
        var j :| 0 <= j < |front| && front[j] == Ran(LastRun(front).value, front[j].next);
        assert log[j] == front[j];
      }
    }
  }

  lemma Earlier(c: nat, cycle: nat, now: nat, start: nat, interval: nat)
    requires FirstAfter(cycle, now, start, interval)
    ensures c < cycle <==> StartOf(c, start, interval) <= now
  {
    if cycle <= c {
      Later(cycle, c, start, interval);
    }
  }

  /**
   The next cycle is always a new one exactly if the timer is never set anew
   before the start of the last cycle run.
   */
  lemma {:induction false} NewIffInTime(log: seq<Mark>, nextcycle: nat, start: nat, interval: nat)
    requires Traced(log, nextcycle, start, interval)
    ensures AlwaysNew(log) <==> InTime(log, start, interval)
    decreases |log|
  {
    hide FirstAfter, StartOf;
    if log != [] {
      var n := |log| - 1;
      var front := log[..n];
      NewIffInTime(front, if n == 0 then 0 else log[n - 1].next, start, interval);
      InTimeFront(log, start, interval);
      if InTime(front, start, interval) {
        LastRunIsMax(front, if n == 0 then 0 else log[n - 1].next, start, interval);
        LastMark(log, nextcycle, start, interval);
      } else {
        assert !AlwaysNew(front);
        if AlwaysNew(log) {
          NewFront(log);
        }
      }
    }
  }

  lemma InTimeFront(log: seq<Mark>, start: nat, interval: nat)
    requires log != []
    ensures var n := |log| - 1;
            InTime(log, start, interval) <==> InTime(log[..n], start, interval) && MarkInTime(log, n, start, interval)
  {
    var n := |log| - 1;
    forall i: nat | i < n
      ensures MarkInTime(log, i, start, interval) <==> MarkInTime(log[..n], i, start, interval)
    {
      assert log[..n][..i] == log[..i];
    }
  }

  lemma NewFront(log: seq<Mark>)
    requires log != [] && AlwaysNew(log)
    ensures AlwaysNew(log[..|log| - 1])
  {}

  /** One mark more. */
  lemma LastMark(log: seq<Mark>, nextcycle: nat, start: nat, interval: nat)
    requires log != [] && Traced(log, nextcycle, start, interval) && AlwaysNew(log[..|log| - 1])
    requires var front := log[..|log| - 1];
             && (forall j | 0 <= j < |front| && front[j].Ran? ::
                   LastRun(front).Some? && front[j].cycle <= LastRun(front).value)
             && (LastRun(front).Some? ==> exists j ::
                   0 <= j < |front| && front[j] == Ran(LastRun(front).value, front[j].next))
    ensures AlwaysNew(log) <==> MarkInTime(log, |log| - 1, start, interval)
  {
    hide FirstAfter, StartOf;
    var n := |log| - 1;
    var front := log[..n];
    if log[n].Set? && LastRun(front).Some? {
      var last := LastRun(front).value;
      Earlier(last, log[n].next, log[n].now, start, interval);
      var j :| 0 <= j < |front| && front[j] == Ran(last, front[j].next);
      assert log[j] == front[j];
      forall i | 0 <= i < n && log[i].Ran?
        ensures log[i].cycle <= last
      {
        assert front[i] == log[i];
      }
    }
    forall i, j | 0 <= j <= i < n && log[j].Ran?
      ensures log[j].cycle < log[i].next
    {
      assert front[j] == log[j] && front[i] == log[i];
    }
  }

  lemma TracedMore(log: seq<Mark>, m: Mark, nextcycle: nat, start: nat, interval: nat)
    requires Traced(log, nextcycle, start, interval)
    requires if m.Ran? then m.cycle == nextcycle < m.next else FirstAfter(m.next, m.now, start, interval)
    ensures Traced(log + [m], m.next, start, interval)
  {}

  /**
   The timer of a job goes off again and again, at any times: no cycle is run
   twice, and the next one is always new, if and only if each time the timer is
   set anew is not before the start of the last cycle run. Each time leaves its
   mark as long as the timer is set.
   */
  method RunTimes(line: CronLine, times: seq<nat>)
    requires line.key.interval > 0 && Traced(line.log, line.nextcycle, line.key.start, line.key.interval)
    modifies line`nextcycle, line`offset, line`nexttime, line`due, line`pending, line`log
    ensures Traced(line.log, line.nextcycle, line.key.start, line.key.interval) && old(line.log) <= line.log
    ensures AlwaysNew(line.log) <==> InTime(line.log, line.key.start, line.key.interval)
    ensures InTime(line.log, line.key.start, line.key.interval) ==> NoneTwice(line.log)
    ensures line.pending ==> |line.log| == |old(line.log)| + |times|
  {
    hide FirstAfter, StartOf, TimerOk, Traced, AlwaysNew, InTime, NoneTwice;
    ghost var start, interval := line.key.start, line.key.interval;
    var i := 0;
    while i < |times| && line.pending
      invariant Traced(line.log, line.nextcycle, start, interval) && old(line.log) <= line.log
      invariant 0 <= i <= |times| && (line.pending ==> |line.log| == |old(line.log)| + i)
    {
      ghost var log, next := line.log, line.nextcycle;
      var o := RunJob(line, times[i]);
      if |line.log| > |log| {
        assert line.log == log + [line.log[|log|]];
        TracedMore(log, line.log[|log|], next, start, interval);
      } else {
        assert line.log == log;
      }
      i := i + 1;
    }
    NewIffInTime(line.log, line.nextcycle, start, interval);
    if AlwaysNew(line.log) {
      NewMeansOnce(line.log, line.nextcycle, start, interval);
    }
  }

  /** The job is live and its timer is set for the start of its next cycle. */
  ghost predicate OnTime(line: CronLine)
    reads line
  {
    && line.key.interval > 0 && !line.needsDelete && line.teststate != 0 && line.distr.None?
        && line.offset == Offset(0, 0)
    && line.nexttime == StartOf(line.nextcycle, line.key.start, line.key.interval) && line.due == line.nexttime * MICRO
  }

  lemma Strictly(a: nat, b: nat, start: nat, interval: nat)
    requires interval > 0
    ensures a < b <==> StartOf(a, start, interval) < StartOf(b, start, interval)
  {
    if a < b {
      assert a * interval < b * interval;
    } else {
      assert b * interval <= a * interval;
    }
  }

  /** One run on time goes on to the very next cycle. */
  method RunOnTime(line: CronLine)
    requires OnTime(line) && line.nexttime <= line.endTime
    modifies line`nextcycle, line`offset, line`nexttime, line`due, line`pending, line`log
    ensures OnTime(line) && line.nextcycle == old(line.nextcycle) + 1
            && line.log == old(line.log) + [Ran(old(line.nextcycle), line.nextcycle)]
  {
    hide StartOf;
    ghost var cycle, start, interval := line.nextcycle, line.key.start, line.key.interval;
    var o := RunJob(line, line.due);
    Strictly(cycle, cycle + 1, start, interval);
    Strictly(cycle, line.nextcycle, start, interval);
  }

  /** The last cycle run has its mark. */
  lemma {:induction false} LastRunAt(log: seq<Mark>) returns (j: nat)
    requires LastRun(log).Some?
    ensures j < |log| && log[j].Ran? && log[j].cycle == LastRun(log).value
    decreases |log|
  {
    j := |log| - 1;
    if log[j].Set? {
      j := LastRunAt(log[..j]);
    }
  }

  lemma RanBefore(log0: seq<Mark>, log: seq<Mark>, last: nat)
    requires LastRun(log0) == Some(last) && log0 <= log && |log| > |log0| && log[|log| - 1].Ran?
             && log[|log| - 1].cycle == last
    ensures !NoneTwice(log)
  {
    var j := LastRunAt(log0);
    assert log[j] == log0[j];
  }

  lemma TargetAhead(x: nat, now: nat)
    requires now / MICRO < x
    ensures now < x * MICRO
  {}

  /**
   If the timer is set anew before the start of the last cycle run, and then goes
   off on time, that cycle is run again.
   */
  method RunAgain(line: CronLine, now: nat, last: nat)
    requires line.key.interval > 0 && !line.needsDelete && line.teststate != 0 && line.distr.None?
    requires LastRun(line.log) == Some(last) && line.endTime >= StartOf(last, line.key.start, line.key.interval)
    requires !(-10 <= now / MICRO - line.nexttime <= 10)
             && now / MICRO < StartOf(last, line.key.start, line.key.interval)
    modifies line`nextcycle, line`offset, line`nexttime, line`due, line`pending, line`log
    ensures old(line.log) <= line.log && !NoneTwice(line.log) && line.nextcycle == last + 1
  {
    hide StartOf, NoneTwice, LastRun;
    ghost var log0, start, interval := line.log, line.key.start, line.key.interval;
    var o := RunJob(line, now);
    Earlier(last, line.nextcycle, now / MICRO, start, interval);
    TargetAhead(StartOf(line.nextcycle, start, interval), now);
    while line.nextcycle <= last
      invariant OnTime(line) && log0 <= line.log && line.nextcycle <= last + 1
      invariant line.nextcycle == last + 1 ==>
                  |line.log| > |log0| && line.log[|line.log| - 1].Ran? && line.log[|line.log| - 1].cycle == last
      decreases last + 1 - line.nextcycle
    {
      Strictly(last, line.nextcycle, start, interval);
      RunOnTime(line);
    }
    RanBefore(log0, line.log, last);
  }

  /** The clock is set back to 160 after cycle 5 of a job that runs every minute: cycle 3 is next. */
  method ClockSetBack(line: CronLine)
    requires line.key.interval == 60 && line.key.start == 0 && !line.needsDelete && line.endTime >= 160
    requires line.log == [Ran(5, 6)] && line.nextcycle == 6 && line.nexttime == 360
    modifies line`nextcycle, line`offset, line`nexttime, line`due, line`pending, line`log
    ensures line.log == [Ran(5, 6), Set(160, 3)] && line.nextcycle == 3
    ensures !InTime(line.log, 0, 60) && !AlwaysNew(line.log)
  {
    var o := RunJob(line, 160 * MICRO);
    Chooses(line.nextcycle, 3, 160, 0, 60);
    LateMark(line.log);
  }

  lemma Chooses(cycle: nat, c: nat, now: nat, start: nat, interval: nat)
    requires FirstAfter(cycle, now, start, interval) && FirstAfter(c, now, start, interval)
    ensures cycle == c
  {
    hide StartOf;
    Earlier(c, cycle, now, start, interval);
    Earlier(cycle, c, now, start, interval);
  }

  lemma LateMark(log: seq<Mark>)
    requires |log| == 2 && log[0].Ran? && log[1].Set? && log[0].cycle * 60 > log[1].now && log[1].next <= log[0].cycle
    ensures !InTime(log, 0, 60) && !AlwaysNew(log)
  {
    assert log[..1] == [log[0]];
    assert !MarkInTime(log, 1, 0, 60);
    assert log[0].cycle >= log[1].next;
  }

  /**
   It also happens with a steady clock, if the distribution is wide: cycle 10 is
   run 100 seconds early, 200 seconds early is drawn for cycle 11, and cycle 9 is
   next.
   */
  method SteadyClock(line: CronLine) returns (ghost drawn: int)
    requires line.key.interval == 60 && line.key.start == 0 && !line.needsDelete && line.teststate != 0
             && line.endTime >= 500
    requires line.log == [] && line.nextcycle == 10 && line.nexttime == 500 && line.distr == Some(400)
    modifies line`nextcycle, line`offset, line`nexttime, line`due, line`pending, line`log
    ensures drawn == -200 ==> line.log == [Ran(10, 11), Set(500, 9)] && !InTime(line.log, 0, 60) && !AlwaysNew(line.log)
  {
    var o := RunJob(line, 500 * MICRO);
    assert StartOf(11, 0, 60) == 660 && line.nextcycle == 11;
    drawn := line.offset.sec;
    if line.offset.sec == -200 {
      o := RunJob(line, line.due);
      Chooses(line.nextcycle, 9, 500, 0, 60);
      LateMark(line.log);
    }
  }
}
