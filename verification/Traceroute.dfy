/**
 A traceroute run as a state machine: rounds of probes at increasing hop
 counts, driven by replies, duplicates, late replies and timeouts in any order.
 */
module Traceroute {
  import Bits
  import Checksum

  const LAST_DITCH_HOP: nat := 255

  /** How a reply was classified. */
  datatype Class = Ignored | Late | Duplicate | Fresh

  /**
   A reply: an echo reply or an error message. An unreachable may be about
   fragmentation in IPv4; IPv6 has a message of its own for this.
   */
  datatype Reply = Echo(seq_: nat) | Exceeded(seq_: nat) | Unreachable(seq_: nat, needFrag: bool) | TooBig(seq_: nat)

  datatype Protocol = Udp | Icmp | Tcp

  /** How a run probes; in Paris mode the flow of its packets stays the same. */
  datatype Mode = Mode(v6: bool, protocol: Protocol, paris: bool)

  /** The replies that exist for a mode. */
  predicate Known(mode: Mode, r: Reply)
  {
    && (r.Echo? ==> mode.protocol == Icmp)
    && (if mode.v6 then !(r.Unreachable? && r.needFrag) else !r.TooBig?)
  }

  /**
   The sequence number a reply is taken to have. In Paris mode an IPv4 UDP probe
   has it in the checksum, which may have been changed on the way; a number that
   is too large is taken for the current one.
   */
  function SeqOf(mode: Mode, r: Reply, current: nat): nat
  {
    if !mode.v6 && mode.protocol == Udp && mode.paris && r.seq_ > current then current else r.seq_
  }

  /** A reply that was not ignored, with how it was classified. */
  datatype Note = Note(reply: Reply, class_: Class)

  /**
   The reply comes from the target; a late error message says nothing, and
   neither does an IPv6 echo reply that is not the first.
   */
  predicate FromTarget(mode: Mode, n: Note)
  {
    (n.reply.Echo? && (mode.v6 ==> n.class_.Fresh?)) || (n.reply.Unreachable? && !n.class_.Late?)
  }

  /** The reply says that there is more beyond this hop; for some modes only the first reply to a probe can say so. */
  predicate MoreBeyond(mode: Mode, n: Note)
  {
    || (n.reply.Exceeded? && !n.class_.Late? && (mode.v6 || mode.protocol == Icmp ==> n.class_.Fresh?))
    || (n.reply.Unreachable? && n.reply.needFrag && !n.class_.Late?)
    || (n.reply.TooBig? && !n.class_.Late?)
  }

  /** The flags say what the replies of the round said. */
  ghost predicate Says(mode: Mode, done: bool, notDone: bool, seen: seq<Note>)
  {
    (done <==> exists n | n in seen :: FromTarget(mode, n))
        && (notDone <==> exists n | n in seen :: MoreBeyond(mode, n))
  }

  lemma SaysNothing(mode: Mode)
    ensures Says(mode, false, false, [])
  {}

  lemma SaysMore(mode: Mode, done: bool, notDone: bool, seen: seq<Note>, n: Note)
    requires Says(mode, done, notDone, seen)
    ensures Says(mode, done || FromTarget(mode, n), notDone || MoreBeyond(mode, n), seen + [n])
  {
    assert n in seen + [n] && forall x | x in seen :: x in seen + [n];
  }

  lemma SaysFound(mode: Mode, done: bool, notDone: bool, seen: seq<Note>)
    requires Says(mode, done, notDone, seen)
    ensures Found(mode, seen) <==> done && !notDone
  {}

  /** In a round with these replies the target was found. */
  ghost predicate Found(mode: Mode, seen: seq<Note>)
  {
    (exists n | n in seen :: FromTarget(mode, n)) && forall n | n in seen :: !MoreBeyond(mode, n)
  }

  datatype Event = Timeout(sendFails: bool) | Got(reply: Reply, sendFails: bool)

  function Max(a: int, b: int): int
  {
    if a > b then a else b
  }

  /** The most rounds a run can have. */
  function MaxRounds(firsthop: nat, maxhops: nat): nat
  {
    Max(1, maxhops - firsthop + 1)
  }

  /** The round that probe i belongs to. */
  function RoundOf(i: nat, n: nat): nat
    requires n > 0
  {
    i / n
  }

  /** The hop counts of the probes sent: n probes at each hop, and the hops increase. */
  ghost predicate Rounds(log: seq<nat>, n: nat)
    requires n > 0
  {
    forall i, j | 0 <= i <= j < |log| :: if RoundOf(i, n) == RoundOf(j, n) then log[i] == log[j] else log[i] < log[j]
  }

  class Run {
    const mode: Mode
    const trtcount: nat
    const firsthop: nat
    const maxhops: nat
    const gaplimit: nat
    const duptimeout: nat
    var sent: nat
    var hop: nat
    var seq_: nat
    var lastResponseHop: nat
    var done: bool
    var notDone: bool
    var lastditch: bool
    var busy: bool
    var gotresp: bool
    var timer: bool
    ghost var log: seq<nat>
    ghost var rounds: nat
    ghost var answered: set<nat>
    ghost var reports: nat
    ghost var seen: seq<Note>
    ghost var failed: bool
    /** The hops that sent a response that counts. */
    ghost var responded: set<nat>

    /** The parameters are bytes; a run is asked for at least one probe per round and a gap of at least one hop. */
    ghost predicate Params()
    {
      1 <= trtcount <= 127 && firsthop <= 255 && maxhops <= 255 && 1 <= gaplimit <= 255
    }

    constructor (mode: Mode, trtcount: nat, firsthop: nat, maxhops: nat, gaplimit: nat, duptimeout: nat)
      requires 1 <= trtcount <= 127 && firsthop <= 255 && maxhops <= 255 && 1 <= gaplimit <= 255
      ensures Params() && !busy
      ensures this.trtcount == trtcount && this.firsthop == firsthop && this.maxhops == maxhops
              && this.gaplimit == gaplimit && this.mode == mode
    {
      this.mode := mode;
      this.trtcount, this.firsthop, this.maxhops, this.gaplimit, this.duptimeout := trtcount, firsthop, maxhops,
          gaplimit, duptimeout;
      sent, hop, seq_, lastResponseHop := 0, 0, 0, 0;
      done, notDone, lastditch, busy, gotresp, timer := false, false, false, false, false, false;
      log, rounds, answered, reports, seen, failed, responded := [], 0, {}, 0, [], false, {};
    }

    /** The hop in relation to the rounds, the last response and the gap limit. */
    ghost predicate Hops()
      reads this
    {
      && rounds >= 1 && rounds <= MaxRounds(firsthop, maxhops) && firsthop - 1 <= lastResponseHop <= hop
      && (lastditch ==> hop == LAST_DITCH_HOP)
      && (!lastditch ==> hop == firsthop + rounds - 1 && hop - lastResponseHop <= gaplimit)
    }

    /** The probes sent so far. */
    ghost predicate Sent()
      reads this
      requires Params()
    {
      && |log| == seq_ && seq_ == (rounds - 1) * trtcount + sent && sent <= trtcount
      && Rounds(log, trtcount) && (|log| > 0 ==> log[|log| - 1] <= hop)
      && (0 < sent ==> |log| > 0 && log[|log| - 1] == hop) && (sent == 0 && |log| > 0 ==> log[|log| - 1] < hop)
      && (lastResponseHop in log || lastResponseHop == Max(firsthop - 1, 0))
    }

    /** The next hop is the one after the last that was probed, or the last-ditch hop after too many silent ones. */
    ghost predicate Leads()
      reads this
    {
      sent == 0 && log != [] ==>
        var last := log[|log| - 1];
        hop == last + 1 || (hop == LAST_DITCH_HOP && last + 1 - lastResponseHop > gaplimit)
    }

    /** Hops are left out only once, for hop 255, and only after as many silent hops as the gap limit says. */
    ghost predicate Gaps()
      reads this
    {
      AllGaps(log, firsthop, gaplimit, responded)
    }

    /** The hops that responded; what is said about gaps is about those. */
    ghost predicate Responses()
      reads this
    {
      Gaps() && (forall h | h in responded :: h <= hop) && (busy ==> forall h | h in responded :: h <= lastResponseHop)
    }

    ghost predicate Marks()
      reads this
    {
      Says(mode, done, notDone, seen)
    }

    /** The round is complete, and it was the last one: for the number of hops, or because the target was found. */
    ghost predicate Over(seen: seq<Note>)
      reads this
    {
      sent == trtcount && (hop >= maxhops || Found(mode, seen))
    }

    /** The hop after a round that was not the last one. */
    ghost function HopAfter(lastResponse: nat): nat
      reads this
    {
      if hop + 1 - lastResponse > gaplimit then LAST_DITCH_HOP else hop + 1
    }

    /** What holds of the probes of a run, also when it is over. */
    ghost predicate Bounded()
      reads this
      requires Params()
    {
      |log| <= trtcount * MaxRounds(firsthop, maxhops) && Rounds(log, trtcount)
    }

    ghost predicate Inv()
      reads this
    {
      && Params() && hop <= 255 && Bounded() && Responses()
      && (busy ==> Hops() && Sent() && Marks() && timer && 1 <= sent && reports == 0 && !failed)
      && (!busy ==> !timer && reports == 1 && (failed || Over(seen)))
      && (forall s | s in answered :: s <= seq_) && (busy ==> (seq_ in answered <==> gotresp))
    }

    /** report: the run is over. */
    method Report()
      modifies this`timer, this`busy, this`reports
      ensures !busy && !timer && reports == old(reports) + 1
    {
      timer := false;
      busy := false;
      reports := reports + 1;
    }

    /** The end of a round: the next hop, the last-ditch hop, or the end of the run. */
    method NextRound() returns (over: bool)
      requires Params() && busy && Hops() && Sent() && Marks() && sent == trtcount && reports == 0 && Responses()
      modifies this`sent, this`hop, this`done, this`notDone, this`lastditch, this`rounds, this`seen
      ensures over <==> old(Over(seen))
      ensures over ==> unchanged(this)
      ensures !over ==> Hops() && Sent() && Marks() && sent == 0 && seen == [] && rounds == old(rounds) + 1
      ensures !over ==> old(hop) < hop <= 255 && hop == old(HopAfter(lastResponseHop)) && Leads() && Responses()
    {
      hide Rounds, Says, Found, AllGaps;
      SaysNothing(mode);
      SaysFound(mode, done, notDone, seen);
      ProductStep(rounds, trtcount);
      if hop >= maxhops || (done && !notDone) {
        return true;
      }
      hop := hop + 1;
      sent := 0;
      done := false;
      notDone := false;
      seen := [];
      rounds := rounds + 1;
      if hop - lastResponseHop > gaplimit {
        if lastditch {
          assert false;
          return true;
        }
        lastditch := true;
        hop := LAST_DITCH_HOP;
      }
      return false;
    }

    /** The probe itself. */
    method Probe(fails: bool)
      requires Params() && busy && Hops() && Sent() && Marks() && sent < trtcount && hop <= 255 && reports == 0
               && !gotresp && !failed && Leads() && Responses()
      requires forall s | s in answered :: s <= seq_
      modifies this`seq_, this`sent, this`timer, this`log, this`busy, this`reports, this`failed
      ensures Inv() && busy == !fails && failed == fails && log == old(log) + (if fails then [] else [hop])
    {
      hide Rounds, Says, Found;
      SeqSmall(trtcount, firsthop, maxhops, rounds, sent);
      MulLe(rounds, MaxRounds(firsthop, maxhops), trtcount);
      RoundsAppend(log, trtcount, rounds, sent, hop);
      GapsAppend(this);
      seq_ := (seq_ + 1) % 0x10000;
      if fails {
        failed := true;
        Report();
        return;
      }
      sent := sent + 1;
      timer := true;
      log := log + [hop];
    }

    /** send_pkt: one more probe, unless the run is over or sending fails. */
    method SendPkt(fails: bool)
      requires Params() && busy && Hops() && Sent() && Marks() && Bounded() && hop <= 255 && reports == 0 && !failed
      requires Leads() && Responses()
      requires forall s | s in answered :: s <= seq_
      modifies this`gotresp, this`sent, this`hop, this`done, this`notDone, this`lastditch, this`rounds, this`seq_,
               this`timer, this`log, this`busy, this`reports, this`seen, this`failed
      ensures Inv() && (busy <==> !fails && !old(Over(seen))) && (failed <==> fails && !old(Over(seen)))
      ensures log == old(log) + (if busy then [hop] else [])
      ensures busy ==> hop == old(if sent < trtcount then hop else HopAfter(lastResponseHop))
      ensures busy ==> !gotresp && seen == old(if sent < trtcount then seen else [])
      ensures seen == old(seen) || seen == []
    {
      hide Rounds, Says, Found, AllGaps;
      gotresp := false;
      if sent >= trtcount {
        var over := NextRound();
        if over {
          Report();
          return;
        }
      }
      Probe(fails);
    }

    /** The fields of a run that begins. */
    method Reset()
      modifies this`hop, this`sent, this`seq_, this`lastResponseHop, this`done, this`notDone, this`lastditch,
               this`gotresp, this`busy
      ensures hop == firsthop && sent == seq_ == 0 && lastResponseHop == Max(firsthop - 1, 0)
      ensures !done && !notDone && !lastditch && !gotresp && busy
    {
      hop, sent, seq_ := firsthop, 0, 0;
      lastResponseHop := if firsthop > 1 then firsthop - 1 else 0;
      done, notDone, lastditch, gotresp := false, false, false, false;
      busy := true;
    }

    ghost method ResetLog()
      modifies this`log, this`rounds, this`answered, this`reports, this`seen, this`failed, this`responded
      ensures log == [] && seen == [] && rounds == 1 && answered == {} && reports == 0 && !failed && responded == {}
    {
      log, rounds, answered, reports, seen, failed, responded := [], 1, {}, 0, [], false, {};
    }

    /** traceroute_start2 and the first send_pkt. */
    method Start(fails: bool)
      requires Params() && !busy
      modifies this
      ensures Inv() && answered == {} && busy == !fails && log == (if fails then [] else [firsthop])
    {
      hide Rounds, Says, Found, MaxRounds;
      SaysNothing(mode);
      NoRounds(trtcount);
      FirstRound(trtcount, firsthop, maxhops);
      Reset();
      ResetLog();
      SendPkt(fails);
    }

    /** noreply_callback: the reply timer or the timer for duplicates has expired. */
    method OnTimeout(fails: bool)
      requires Inv() && busy
      modifies this`gotresp, this`sent, this`hop, this`done, this`notDone, this`lastditch, this`rounds, this`seq_,
               this`timer, this`log, this`busy, this`reports, this`seen, this`failed
      ensures Inv() && (busy <==> !fails && !old(Over(seen))) && log == old(log) + (if busy then [hop] else [])
      ensures busy ==> hop == old(if sent < trtcount then hop else HopAfter(lastResponseHop))
      ensures seen == old(seen) || seen == []
    {
      hide Rounds, Says, Found, AllGaps;
      timer := false;
      SendPkt(fails);
    }

    /** What a reply says about being done. */
    method NoteDone(r: Reply, c: Class)
      requires Marks() && Known(mode, r)
      modifies this`done, this`notDone, this`seen
      ensures Marks() && seen == old(seen) + [Note(r, c)]
    {
      hide Says;
      SaysMore(mode, done, notDone, seen, Note(r, c));
      seen := seen + [Note(r, c)];
      match r
      case Echo(_) =>
        if !mode.v6 || c.Fresh? {
          done := true;
        }
      case Exceeded(_) =>
        if !c.Late? && (!(mode.v6 || mode.protocol == Icmp) || c.Fresh?) {
          notDone := true;
        }
      case Unreachable(_, needFrag) =>
        if !c.Late? {
          done := true;
          if needFrag {
            notDone := true;
          }
        }
      case TooBig(_) =>
        if !c.Late? {
          notDone := true;
        }
    }

    /** The classification of a reply, and what it changes. */
    method Classify(r: Reply) returns (c: Class)
      requires Inv() && busy && Known(mode, r)
      modifies this`lastResponseHop, this`done, this`notDone, this`seen, this`responded
      ensures responded == if c.Fresh? && (mode.v6 || !r.Echo?) then old(responded) + {hop} else old(responded)
      ensures Inv() && seen == old(seen) + (if c.Ignored? then [] else [Note(r, c)])
      ensures c.Ignored? <==> SeqOf(mode, r, seq_) > seq_
      ensures c.Late? <==> r.seq_ < seq_
      ensures c.Fresh? <==> SeqOf(mode, r, seq_) == seq_ && seq_ !in answered
      ensures lastResponseHop == if c.Fresh? && (mode.v6 || !r.Echo?) then hop else old(lastResponseHop)
    {
      hide Rounds, Says, Found;
      var number := SeqOf(mode, r, seq_);
      if number > seq_ {
        return Ignored;
      }
      c := if number != seq_ then Late else if gotresp then Duplicate else Fresh;
      if c.Fresh? && (mode.v6 || !r.Echo?) {
        GapsRespond(this);
        lastResponseHop := hop;
        responded := responded + {hop};
      }
      NoteDone(r, c);
    }

    /**
     The ready callbacks: a reply counts once, for the last probe; an older one is
     late and a second one is a duplicate.
     */
    method OnReply(r: Reply, fails: bool) returns (c: Class)
      requires Inv() && busy && Known(mode, r)
      modifies this
      ensures Inv()
      ensures c.Ignored? <==> SeqOf(mode, r, old(seq_)) > old(seq_)
      ensures c.Late? <==> r.seq_ < old(seq_)
      ensures c.Fresh? <==> SeqOf(mode, r, old(seq_)) == old(seq_) && old(seq_) !in old(answered)
      ensures answered == if c.Fresh? then old(answered) + {old(seq_)} else old(answered)
      ensures !c.Fresh? || duptimeout > 0 ==>
                busy && log == old(log) && hop == old(hop)
                    && seen == old(seen) + (if c.Ignored? then [] else [Note(r, c)])
      ensures c.Fresh? && duptimeout == 0 ==>
                && (busy <==> !fails && !old(Over(seen + [Note(r, Fresh)])))
                && log == old(log) + (if busy then [hop] else [])
                && (busy && old(sent) < trtcount ==> hop == old(hop))
                && (busy && old(sent) == trtcount ==>
                      hop == old(HopAfter(if mode.v6 || !r.Echo? then hop else lastResponseHop)))
      ensures lastResponseHop == if c.Fresh? && (mode.v6 || !r.Echo?) then old(hop) else old(lastResponseHop)
      ensures responded == if c.Fresh? && (mode.v6 || !r.Echo?) then old(responded) + {old(hop)} else old(responded)
      ensures forall n | n in seen :: n in old(seen) || n == Note(r, c)
    {
      hide Rounds, Says, Found, AllGaps;
      c := Classify(r);
      if c.Fresh? {
        answered := answered + {seq_};
        if duptimeout != 0 {
          gotresp := true;
          timer := true;
        } else {
          SendPkt(fails);
        }
      }
    }

    /** A reply to the probe that is still the last one has been noted. */
    ghost predicate Heard(e: Event)
      reads this
    {
      e.Got? && e.reply.seq_ == seq_ && (mode.v6 || mode.protocol != Udp || !mode.paris) ==> seq_ in answered
    }

    /**
     Any interleaving of replies and timeouts: what holds of the run, and that
     timeouts bring it to an end. Replies that only say that the time to live was
     exceeded do not end it before the hop limit.
     */
    method Process(events: seq<Event>)
      requires Inv() && busy && forall i | 0 <= i < |events| && events[i].Got? :: Known(mode, events[i].reply)
      modifies this
      ensures Inv() && |log| <= trtcount * MaxRounds(firsthop, maxhops) && Rounds(log, trtcount)
      ensures !busy ==> reports == 1 && (failed || Over(seen))
      ensures busy ==>
                timer && |log| >= 1 && (hop - lastResponseHop <= gaplimit || hop == LAST_DITCH_HOP) && seq_ == |log|
      ensures Timeouts(events) >= trtcount * MaxRounds(firsthop, maxhops) ==> !busy
      ensures Gaps() && (busy && events != [] ==> Heard(events[|events| - 1]))
      ensures AllExceeded(events) && OnlyExceeded(old(seen)) && !busy ==> failed || hop >= maxhops
    {
      hide Rounds, Says, Found, AllGaps;
      var i := 0;
      while i < |events| && busy
        invariant AllExceeded(events) && OnlyExceeded(old(seen)) ==> OnlyExceeded(seen)
        invariant 0 <= i <= |events| && Inv() && (!busy ==> reports == 1)
        invariant busy ==> |log| >= 1 + Timeouts(events[..i])
        invariant busy && i > 0 ==> Heard(events[i - 1])
      {
        assert events[..i + 1][..i] == events[..i];
        match events[i] {
          case Timeout(fails) => OnTimeout(fails);
          case Got(reply, fails) => var _ := OnReply(reply, fails);
        }
        i := i + 1;
      }
      assert events[..|events|] == events;
      if OnlyExceeded(seen) {
        NotFound(mode, seen);
      }
    }
  }

  ghost predicate AllExceeded(events: seq<Event>)
  {
    forall i | 0 <= i < |events| && events[i].Got? :: events[i].reply.Exceeded?
  }

  ghost predicate OnlyExceeded(seen: seq<Note>)
  {
    forall n | n in seen :: n.reply.Exceeded?
  }

  lemma NotFound(mode: Mode, seen: seq<Note>)
    requires OnlyExceeded(seen)
    ensures !Found(mode, seen)
  {}

  lemma RoundsUp(log: seq<nat>, n: nat, i: nat)
    requires n > 0 && Rounds(log, n) && i < |log|
    ensures log[i] <= log[|log| - 1]
  {
    var last := |log| - 1;
    assert if RoundOf(i, n) == RoundOf(last, n) then log[i] == log[last] else log[i] < log[last];
  }

  /** From hop a to hop b: the next one, or the last-ditch hop after a number of hops that did not respond. */
  ghost predicate GapOk(a: nat, b: nat, firsthop: nat, gaplimit: nat, responded: set<nat>)
  {
    b > a + 1 ==>
      b == LAST_DITCH_HOP && firsthop + gaplimit <= a + 1 && forall h | h in responded :: !(a + 1 - gaplimit <= h <= a)
  }

  ghost predicate GapAt(log: seq<nat>, i: nat, firsthop: nat, gaplimit: nat, responded: set<nat>)
    requires 0 < i < |log|
  {
    GapOk(log[i - 1], log[i], firsthop, gaplimit, responded)
  }

  ghost predicate AllGaps(log: seq<nat>, firsthop: nat, gaplimit: nat, responded: set<nat>)
  {
    forall i: nat | 0 < i < |log| :: GapAt(log, i, firsthop, gaplimit, responded)
  }

  /** One more probe: hops are left out only if the last ones were silent. */
  lemma GapsAppend(run: Run)
    requires run.Params() && run.busy && run.Hops() && run.Sent() && run.Leads() && run.Responses()
    ensures AllGaps(run.log + [run.hop], run.firsthop, run.gaplimit, run.responded)
  {
    hide Rounds;
    var all := run.log + [run.hop];
    forall i: nat | 0 < i < |all|
      ensures GapAt(all, i, run.firsthop, run.gaplimit, run.responded)
    {
      if i < |run.log| {
        assert GapAt(run.log, i, run.firsthop, run.gaplimit, run.responded);
      }
    }
  }

  /** A response from the current hop is behind all gaps. */
  lemma GapsRespond(run: Run)
    requires run.Params() && run.busy && run.Sent() && run.Gaps() && 1 <= run.sent
    ensures AllGaps(run.log, run.firsthop, run.gaplimit, run.responded + {run.hop})
  {
    hide Rounds;
    var all := run.responded + {run.hop};
    forall i: nat | 0 < i < |run.log|
      ensures GapAt(run.log, i, run.firsthop, run.gaplimit, all)
    {
      assert GapAt(run.log, i, run.firsthop, run.gaplimit, run.responded);
      RoundsUp(run.log, run.trtcount, i);
    }
  }

  lemma FirstRound(n: nat, firsthop: nat, maxhops: nat)
    ensures 1 <= MaxRounds(firsthop, maxhops) && 0 <= n * MaxRounds(firsthop, maxhops)
  {}

  lemma NoRounds(n: nat)
    requires n > 0
    ensures Rounds([], n)
  {}

  /** How many of the events are timeouts. */
  function Timeouts(events: seq<Event>): nat
  {
    if events == [] then 0 else Timeouts(events[..|events| - 1]) + (if events[|events| - 1].Timeout? then 1 else 0)
  }

  lemma ProductStep(r: nat, n: nat)
    ensures r * n == (r - 1) * n + n
  {}

  lemma MulLe(a: nat, b: nat, c: nat)
    requires a <= b
    ensures a * c <= b * c && c * a <= c * b
  {}

  /** The sequence number cannot wrap around within a run. */
  lemma SeqSmall(n: nat, firsthop: nat, maxhops: nat, r: nat, sent: nat)
    requires 1 <= n <= 127 && firsthop <= 255 && maxhops <= 255 && 1 <= r <= MaxRounds(firsthop, maxhops) && sent < n
    ensures (r - 1) * n + sent + 1 < 0x10000 && (r - 1) * n + sent + 1 <= r * n
  {
    MulLe(r - 1, 255, n);
    ProductStep(r, n);
  }

  /** The sequence number of a run is never one that the checksum of a packet cannot be steered to. */
  lemma SequenceSteered(run: Run, big: bool, head: seq<Bits.byte>, s: seq<Bits.byte>, k: nat)
    requires run.Inv() && run.busy
    requires |head| % 2 == 0 && |head| + |s| < 0x8000 && k % 2 == 0 && k + 2 <= |s| && s[k] == 0 && s[k + 1] == 0
    ensures 1 <= run.seq_ < 0xffff
    ensures var f := Checksum.Fudge(Checksum.Ntohs(big, Checksum.Cksum(big, head + s)), run.seq_);
            Checksum.Ntohs(big, Checksum.Cksum(big, head + Checksum.Put(s, k, f))) == run.seq_
  {
    hide Rounds, Says, Found, Checksum.Cksum, Checksum.Fudge, Checksum.Ntohs, Checksum.Put;
    MulLe(MaxRounds(run.firsthop, run.maxhops), 256, run.trtcount);
    Checksum.PacketSteered(big, head, s, k, run.seq_);
  }

  lemma Quotients(r: nat, n: nat, s: nat)
    requires n > 0 && s < n
    ensures RoundOf(r * n + s, n) == r
  {
    Bits.DivUnique(r * n + s, n, r, s);
  }

  lemma RoundsAppend(log: seq<nat>, n: nat, r: nat, sent: nat, hop: nat)
    requires n > 0 && r >= 1 && sent < n && |log| == (r - 1) * n + sent && Rounds(log, n)
    requires 0 < sent ==> log[|log| - 1] == hop
    requires sent == 0 && |log| > 0 ==> log[|log| - 1] < hop
    ensures Rounds(log + [hop], n)
  {
    hide RoundOf;
    var all, k := log + [hop], |log|;
    Quotients(r - 1, n, sent);
    forall i, j | 0 <= i <= j < |all|
      ensures if RoundOf(i, n) == RoundOf(j, n) then all[i] == all[j] else all[i] < all[j]
    {
      if j == k && i < k {
        Earlier(r, n, sent, k);
        var last := k - 1;
        Monotone(i, last, n);
        assert if RoundOf(i, n) == RoundOf(last, n) then log[i] == log[last] else log[i] < log[last];
      }
    }
  }

  lemma Earlier(r: nat, n: nat, s: nat, k: nat)
    requires n > 0 && r >= 1 && s < n && k == (r - 1) * n + s && k > 0
    ensures s > 0 ==> RoundOf(k - 1, n) == r - 1
    ensures s == 0 ==> RoundOf(k - 1, n) < r - 1
  {
    hide RoundOf;
    if s > 0 {
      Quotients(r - 1, n, s - 1);
    } else {
      Positive(r, n);
      ProductStep(r - 1, n);
      Quotients(r - 2, n, n - 1);
    }
  }

  lemma Positive(r: nat, n: nat)
    requires r >= 1 && (r - 1) * n > 0
    ensures r >= 2
  {}

  lemma Monotone(i: nat, j: nat, n: nat)
    requires n > 0 && i <= j
    ensures RoundOf(i, n) <= RoundOf(j, n)
  {
    Bits.ModLess(i, n);
    Bits.ModLess(j, n);
    if i / n > j / n {
      MulLe(j / n + 1, i / n, n);
      ProductStep(j / n + 1, n);
    }
  }
}
