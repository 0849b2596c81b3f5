/**
 The NTP measurement as a state machine with two timers: one for a missing
 reply, one for the minimum gap between requests.
 */
module Ntp {
  datatype Timer = Off | At(due: nat)

  /** What can happen: time passes, a reply arrives, a timer fires. */
  datatype Event = Passes(dt: nat) | Reply(sendFails: bool) | TimeoutFires(sendFails: bool) | GapFires(sendFails: bool)

  /** The requests are at least gap apart. */
  ghost predicate Spaced(sends: seq<nat>, gap: nat)
  {
    forall i | 0 < i < |sends| :: sends[i - 1] + gap <= sends[i]
  }

  lemma SpacedAppend(sends: seq<nat>, gap: nat, t: nat)
    requires Spaced(sends, gap) && (sends != [] ==> sends[|sends| - 1] + gap <= t)
    ensures Spaced(sends + [t], gap)
  {}

  const U64: int := 0x1_0000_0000_0000_0000

  /** A difference of two timestamps, as a signed number. */
  function Signed(x: int): int
  {
    var r := x % U64;
    if r < U64 / 2 then r else r - U64
  }

  /** The round-trip time, from timestamps in units of 2^-32 seconds, in the 64 bits of the code. */
  function Rtt(t1: int, t2: int, t3: int, t4: int): int
  {
    Signed(Signed(t4 - t1) - Signed(t3 - t2))
  }

  /** Twice the clock offset. */
  function OffsetTwice(t1: int, t2: int, t3: int, t4: int): int
  {
    Signed(Signed(t2 - t1) + Signed(t3 - t4))
  }

  predicate Fits64(d: int)
  {
    -(U64 / 2) <= d < U64 / 2
  }

  lemma SignedIs(d: int)
    ensures Signed(d) == d <==> Fits64(d)
    ensures exists k :: Signed(d) == d - U64 * k
  {
    var q, r := d / U64, d % U64;
    assert d == U64 * q + r;
    assert Signed(d) == d - U64 * (if r < U64 / 2 then q else q + 1);
  }

  lemma SignedDifference(a: int, d: int)
    ensures Signed((a + d) % U64 - a % U64) == Signed(d)
    ensures Signed((a + d) % U64 - a % U64) == d <==> Fits64(d)
  {
    var k := (a + d) / U64 - a / U64;
    assert (a + d) % U64 - a % U64 == d - U64 * k;
    Shifted(d, k);
    SignedIs(d);
  }

  lemma Shifted(d: int, k: int)
    ensures (d - U64 * k) % U64 == d % U64
  {
    var q, r := d / U64, d % U64;
    assert d - U64 * k == U64 * (q - k) + r;
  }

  /** Wrapping the parts of a sum first does not matter. */
  lemma SignedSum(a: int, b: int)
    ensures Signed(Signed(a) + Signed(b)) == Signed(a + b) && Signed(Signed(a) - Signed(b)) == Signed(a - b)
  {
    SignedIs(a);
    SignedIs(b);
    var k :| Signed(a) == a - U64 * k;
    var l :| Signed(b) == b - U64 * l;
    Shifted(a + b, k + l);
    Shifted(a - b, k - l);
    assert Signed(a) + Signed(b) == a + b - U64 * (k + l);
    assert Signed(a) - Signed(b) == a - b - U64 * (k - l);
  }

  /**
   A request leaves at client time c and takes out, the server, whose clock is
   theta ahead, takes proc, and the reply takes back. The first formula gives the
   two travel times exactly if their sum fits 64 bits, whatever the clocks say
   and whether or not a timestamp wraps around. The second one gives theta up to
   half the difference of the travel times exactly if twice that fits 64 bits.
   */
  lemma RttAndOffset(c: int, theta: int, out: nat, proc: nat, back: nat)
    ensures var t1, t2, t3, t4 := c % U64, (c + theta + out) % U64, (c + theta + out + proc) % U64,
            (c + out + proc + back) % U64;
            && (Rtt(t1, t2, t3, t4) == out + back <==> Fits64(out + back))
            && (OffsetTwice(t1, t2, t3, t4) == 2 * theta + out - back <==> Fits64(2 * theta + out - back))
  {
    hide Signed, Fits64;
    SignedDifference(c, out + proc + back);
    SignedDifference(c + theta + out, proc);
    SignedSum(out + proc + back, proc);
    SignedIs(out + back);
    SignedDifference(c, theta + out);
    SignedDifference(c + out + proc + back, theta - back);
    SignedSum(theta + out, theta - back);
    SignedIs(2 * theta + out - back);
  }

  /** A client that believes it is 1970 and a server in 2026: the offset, more than 2^30 seconds, comes out negative. */
  lemma OffsetLost(c: int)
    ensures var theta := 1771200000 * 0x1_0000_0000;
            var t1, t2, t3, t4 := c % U64, (c + theta) % U64, (c + theta) % U64, c % U64;
            OffsetTwice(t1, t2, t3, t4) == 2 * theta - U64 < 0
  {
    var theta := 1771200000 * 0x1_0000_0000;
    SignedDifference(c, theta);
  }

  /** How much time passes in the events. */
  function Elapsed(events: seq<Event>): nat
  {
    if events == [] then 0
    else
      var e := events[|events| - 1];
      Elapsed(events[..|events| - 1]) + (if e.Passes? then e.dt else 0)
  }

  class Run {
    const count: nat
    const timeout: nat
    const gap: nat
    var now: nat
    var sent: nat
    var busy: bool
    var gotresp: bool
    var openResult: bool
    var timerTimeout: Timer
    var timerGap: Timer
    ghost var sends: seq<nat>
    ghost var filled: seq<bool>
    ghost var reports: nat
    ghost var failed: bool

    constructor (count: nat, timeout: nat, gap: nat)
      ensures this.count == count && this.timeout == timeout && this.gap == gap && !busy
              && timerTimeout == timerGap == Off
    {
      this.count, this.timeout, this.gap := count, timeout, gap;
      now, sent, busy, gotresp, openResult, timerTimeout, timerGap := 0, 0, false, false, false, Off, Off;
      sends, filled, reports, failed := [], [], 0, false;
    }

    /** The requests sent, in time and number. */
    ghost predicate Requests()
      reads this
    {
      && |sends| == sent <= count && Spaced(sends, gap) && (sends != [] ==> sends[sent - 1] <= now)
      && (sends != [] ==> if timerGap.At? then timerGap.due == sends[sent - 1] + gap else sends[sent - 1] + gap <= now)
    }

    /** The objects of the result: all but the last hold something, and the last one does if it is open. */
    ghost predicate Objects()
      reads this
    {
      && |filled| >= sent && (filled != [] <==> sent > 0)
      && (forall i | 0 <= i < |filled| - 1 :: filled[i]) && (filled != [] ==> filled[|filled| - 1] == openResult)
    }

    ghost predicate Inv()
      reads this
    {
      && (busy ==> Requests() && Objects() && sent >= 1 && reports == 0 && !failed)
      && (busy && timerTimeout.At? ==> timerTimeout.due == sends[sent - 1] + timeout)
      && (busy ==> timerTimeout.At? || timerGap.At?) && (busy && (gotresp || timerTimeout == Off) ==> openResult)
      && (!busy ==> timerTimeout == timerGap == Off)
    }

    /** The end of a run: every request answered or given up, no empty object. */
    ghost predicate Finished()
      reads this
    {
      && !busy && timerTimeout == timerGap == Off && reports == 1 && Spaced(sends, gap) && |sends| <= count
      && (failed || (|sends| == count && forall i | 0 <= i < |filled| :: filled[i]))
    }

    /** The gap has passed, or there is nothing more to send. */
    ghost predicate MayGo(gapTimer: Timer, sent: nat)
    {
      gapTimer == Off || sent == count
    }

    /** One more request is sent now, or the run is over: all have been sent, or sending fails. */
    ghost predicate Went(sends: seq<nat>, sent: nat, fails: bool)
      reads this
    {
      && (busy <==> sent < count && !fails) && (failed <==> sent < count && fails)
      && this.sends == sends + (if busy then [now] else []) && (busy ==> JustSent())
    }

    /** A request has been sent now, and both timers are set. */
    ghost predicate JustSent()
      reads this
    {
      sends != [] && sends[|sends| - 1] == now && timerTimeout == At(now + timeout) && timerGap == At(now + gap)
    }

    /** An event has been dealt with: the timer that fired is not due any more, unless a request has just been sent. */
    ghost predicate Handled(e: Event)
      reads this
    {
      && (e.Reply? ==> (gotresp && timerTimeout == Off) || JustSent())
      && (e.TimeoutFires? && timerTimeout.At? && timerTimeout.due <= now ==> JustSent())
      && (e.GapFires? && timerGap.At? && timerGap.due <= now ==> JustSent())
    }

    method Report()
      modifies this`timerTimeout, this`timerGap, this`busy, this`reports
      ensures !busy && timerTimeout == timerGap == Off && reports == old(reports) + 1
    {
      timerTimeout, timerGap := Off, Off;
      busy := false;
      reports := reports + 1;
    }

    /** send_pkt: the next request, or the report if there are no more to send. */
    method SendPkt(fails: bool)
      requires busy && Requests() && Objects() && reports == 0 && !failed
      requires openResult || sent == 0
      requires timerGap == Off || sent == count
      modifies this
      ensures now == old(now) && (busy ==> Inv()) && (!busy ==> Finished())
      ensures (busy <==> old(sent) < count && !fails) && (failed <==> old(sent) < count && fails)
      ensures sends == old(sends) + (if busy then [now] else []) && (busy ==> JustSent())
    {
      gotresp := false;
      if sent >= count {
        Report();
        return;
      }
      if fails {
        failed := true;
        Report();
        return;
      }
      SpacedAppend(sends, gap, now);
      openResult := false;
      filled := filled + [false];
      sent := sent + 1;
      sends := sends + [now];
      timerTimeout := At(now + timeout);
      timerGap := At(now + gap);
    }

    /** ntp_start2 */
    method Start(fails: bool)
      requires !busy
      modifies this
      ensures (busy ==> Inv()) && (!busy ==> Finished()) && (busy <==> count > 0 && !fails)
              && sends == (if busy then [now] else [])
    {
      busy, sent, openResult := true, 0, false;
      gotresp, timerTimeout, timerGap := false, Off, Off;
      sends, filled, reports, failed := [], [], 0, false;
      SendPkt(fails);
    }

    /** Something is written: into the empty last object, or into a new one. */
    method Write()
      requires filled != [] && Objects()
      modifies this`openResult, this`filled
      ensures openResult && |filled| >= |old(filled)| && Objects()
    {
      if openResult {
        filled := filled + [true];
      } else {
        filled := filled[|filled| - 1 := true];
      }
      openResult := true;
    }

    /** ready_callback, for the first reply to a request or a later one. */
    method OnReply(fails: bool)
      requires Inv() && busy
      modifies this
      ensures now == old(now) && (busy ==> Inv()) && (!busy ==> Finished())
      ensures MayGo(old(timerGap), old(sent)) ==> Went(old(sends), old(sent), fails)
      ensures !MayGo(old(timerGap), old(sent)) ==>
                busy && gotresp && timerTimeout == Off && timerGap == old(timerGap) && sends == old(sends)
    {
      Write();
      gotresp := true;
      timerTimeout := Off;
      if timerGap == Off || sent >= count {
        SendPkt(fails);
      }
    }

    /** noreply_callback */
    method OnTimeout(fails: bool)
      requires Inv() && busy && timerTimeout.At? && timerTimeout.due <= now
      modifies this
      ensures now == old(now) && (busy ==> Inv()) && (!busy ==> Finished())
      ensures MayGo(old(timerGap), old(sent)) ==> Went(old(sends), old(sent), fails)
      ensures !MayGo(old(timerGap), old(sent)) ==>
                busy && timerTimeout == Off && timerGap == old(timerGap) && sends == old(sends) && openResult
    {
      timerTimeout := Off;
      Write();
      if timerGap == Off || sent >= count {
        SendPkt(fails);
      }
    }

    /** gap_callback */
    method OnGap(fails: bool)
      requires Inv() && busy && timerGap.At? && timerGap.due <= now
      modifies this
      ensures now == old(now) && (busy ==> Inv()) && (!busy ==> Finished())
      ensures old(gotresp || timerTimeout == Off) ==> Went(old(sends), old(sent), fails)
      ensures !old(gotresp || timerTimeout == Off) ==>
                busy && timerGap == Off && timerTimeout == old(timerTimeout) && sends == old(sends)
    {
      timerGap := Off;
      if gotresp || timerTimeout == Off {
        SendPkt(fails);
      }
    }

    /** Any interleaving of events; a timer fires only when it is due. */
    method Process(events: seq<Event>)
      requires Inv() && busy
      modifies this
      ensures busy ==> Inv()
      ensures !busy ==> Finished()
      ensures Spaced(sends, gap) && |sends| <= count
      ensures busy && events != [] ==> now == old(now) + Elapsed(events) && Handled(events[|events| - 1])
    {
      hide Spaced;
      var i := 0;
      while i < |events| && busy
        invariant 0 <= i <= |events| && (busy ==> Inv()) && (!busy ==> Finished())
        invariant busy ==> now == old(now) + Elapsed(events[..i]) && (i > 0 ==> Handled(events[i - 1]))
      {
        assert events[..i + 1][..i] == events[..i];
        match events[i] {
          case Passes(dt) => now := now + dt;
          case Reply(fails) => OnReply(fails);
          case TimeoutFires(fails) =>
            if timerTimeout.At? && timerTimeout.due <= now {
              OnTimeout(fails);
            }
          case GapFires(fails) =>
            if timerGap.At? && timerGap.due <= now {
              OnGap(fails);
            }
        }
        i := i + 1;
      }
      assert events[..|events|] == events;
    }

    ghost function Pending(): nat
      reads this
    {
      (if timerTimeout.At? then 1 else 0) + (if timerGap.At? then 1 else 0)
    }

    /** Time passes until a timer is due. */
    method WaitFor(due: nat)
      requires Inv() && busy
      modifies this`now
      ensures Inv() && due <= now
    {
      if now < due {
        now := due;
      }
    }

    /** With no replies at all the timers alone bring the run to its end, if no request fails. */
    method Silence()
      requires Inv() && busy
      modifies this
      ensures Finished() && !failed && |sends| == count
    {
      hide Spaced;
      while busy
        invariant (busy ==> Inv()) && (!busy ==> Finished() && !failed)
        decreases busy, count - sent, Pending()
      {
        if timerTimeout.At? && (timerGap == Off || timerTimeout.due <= timerGap.due) {
          WaitFor(timerTimeout.due);
          OnTimeout(false);
        } else {
          WaitFor(timerGap.due);
          OnGap(false);
        }
      }
    }
  }
}
