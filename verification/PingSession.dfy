// The state of a ping session: the globals of ping1.c and ping_common.h, and the
// functions that change them.
module PingSessions {
  import opened Bytes
  import opened Checksums
  import opened Tracking
  import opened Statistics
  import opened DupTables
  import opened TokenBucket
  import opened Accounting

  class Session {
    const setup: Setup
    var exiting: bool

    var ntransmitted: nat
    var acked: u16
    var pipesize: int

    var nreceived: int
    var nrepeats: int
    var nchecksum: int
    var nerrors: int
    const rcvdTbl: DupTable

    var tsum: int
    var tsum2: int
    var tmin: int
    var tmax: int
    var rtt: int
    /** The latency option. */
    var latency: bool

    var curTime: Timeval
    var tokens: int
    var oomCount: nat

    ghost function TrackOf(): Track
      reads this
    {
      Track(ntransmitted, acked, pipesize)
    }

    ghost function TimesOf(): Times
      reads this
    {
      Times(tsum, tsum2, tmin, tmax, rtt)
    }

    ghost function BucketOf(): Bucket
      reads this
    {
      Bucket(curTime, tokens, ntransmitted, oomCount)
    }

    ghost function DupsOf(): Dups
      requires rcvdTbl.Valid()
      reads this, rcvdTbl.bytes
    {
      Dups(ntransmitted, rcvdTbl.Slots(), nreceived, nrepeats, nchecksum)
    }

    ghost function StateOf(): State
      requires rcvdTbl.Valid()
      reads this, rcvdTbl.bytes
    {
      State(TrackOf(), DupsOf(), TimesOf(), BucketOf(), latency, nerrors, exiting)
    }

    constructor (setup: Setup)
      ensures fresh(rcvdTbl) && fresh(rcvdTbl.bytes) && rcvdTbl.Valid() && this.setup == setup
      ensures StateOf() == BEGUN
    {
      this.setup := setup;
      exiting, latency := false, false;
      ntransmitted, acked, pipesize := 0, 0, -1;
      nreceived, nrepeats, nchecksum, nerrors := 0, 0, 0, 0;
      tsum, tsum2, tmin, tmax, rtt := 0, 0, LLONG_MAX, 0, 0;
      curTime, tokens, oomCount := Timeval(0, 0), 0, 0;
      rcvdTbl := new DupTable();
    }

    /** in_flight */
    method CountInFlight() returns (n: int)
      ensures n == InFlight(TrackOf(), nreceived, nerrors)
    {
      var diff := Low(Low(ntransmitted) - acked);
      n := if diff <= 0x7FFF then diff else ntransmitted - nreceived - nerrors;
    }

    /** acknowledge */
    method Acknowledge(seqno: u16)
      modifies this`acked, this`pipesize
      ensures TrackOf() == Acknowledged(old(TrackOf()), seqno)
    {
      var diff := Low(Low(ntransmitted) - seqno);
      if diff <= 0x7FFF {
        if diff + 1 > pipesize {
          pipesize := diff + 1;
        }
        if Signed(seqno - acked) > 0 || Low(ntransmitted) - acked > 0x7FFF {
          acked := seqno;
        }
      }
    }

    /** advance_ntransmitted */
    method AdvanceNtransmitted()
      modifies this`acked, this`ntransmitted
      ensures TrackOf() == Advanced(old(TrackOf()))
    {
      ntransmitted := ntransmitted + 1;
      if Low(ntransmitted) - acked > 0x7FFF {
        acked := Low(Low(ntransmitted) + 1);
      }
    }

    /** The part of gather_statistics that measures: the reply was received at
        `received` and stamped `stamp`; `clock` is what a second look at the clock
        gives. */
    method MeasureTrip(received: Timeval, stamp: Timeval, clock: Timeval) returns (triptime: nat)
      modifies this`latency
      ensures (triptime, latency) ==
              TripTime(received.Micros() - stamp.Micros(), clock.Micros() - stamp.Micros(), old(latency))
    {
      var tv := Tvsub(received, stamp);
      var t := tv.sec * 1_000_000 + tv.usec;
      if t < 0 {
        t := 0;
        if !latency {
          latency := true;
          tv := Tvsub(clock, stamp);
          t := tv.sec * 1_000_000 + tv.usec;
          if t < 0 {
            t := 0;
          }
        }
      }
      triptime := t;
    }

    method AddTime(triptime: nat)
      requires rtt >= 0
      modifies this`tsum, this`tsum2, this`tmin, this`tmax, this`rtt
      ensures TimesOf() == Timed(old(TimesOf()), triptime)
    {
      tsum := tsum + triptime;
      tsum2 := tsum2 + triptime * triptime;
      if triptime < tmin {
        tmin := triptime;
      }
      if triptime > tmax {
        tmax := triptime;
      }
      if rtt == 0 {
        rtt := triptime * 8;
      } else {
        rtt := rtt + (triptime - rtt / 8);
      }
    }

    /** The last part of gather_statistics: nreceived has been raised already, and
        is lowered again for a reply that fails or repeats. */
    method CountReply(seqno: u16, csfailed: bool) returns (dupflag: bool)
      requires rcvdTbl.Valid()
      modifies this`nreceived, this`nrepeats, this`nchecksum, rcvdTbl.bytes
      ensures var d := old(DupsOf()); DupsOf() == Gathered(d.(received := d.received - 1), seqno, csfailed)
      ensures dupflag <==> !csfailed && seqno in old(rcvdTbl.Slots())
    {
      hide DupTable.Slots;
      dupflag := false;
      if csfailed {
        nchecksum := nchecksum + 1;
        nreceived := nreceived - 1;
      } else {
        dupflag := rcvdTbl.Test(seqno % MAX_DUP_CHK);
        if dupflag {
          nrepeats := nrepeats + 1;
          nreceived := nreceived - 1;
        } else {
          rcvdTbl.Set(seqno % MAX_DUP_CHK);
        }
      }
    }

    /** A reply that is long enough is timed. */
    method TakeTime(cc: nat, csfailed: bool, received: Timeval, stamp: Timeval, clock: Timeval)
      requires rtt >= 0
      modifies this`latency, this`tsum, this`tsum2, this`tmin, this`tmax, this`rtt
      ensures var trip := TripTime(received.Micros() - stamp.Micros(), clock.Micros() - stamp.Micros(), old(latency));
              if setup.timing && cc >= TIMED_REPLY then
                latency == trip.1 && TimesOf() == if csfailed then old(TimesOf()) else Timed(old(TimesOf()), trip.0)
              else
                latency == old(latency) && TimesOf() == old(TimesOf())
    {
      hide TripTime, Timed;
      if setup.timing && cc >= TIMED_REPLY {
        var triptime := MeasureTrip(received, stamp, clock);
        if !csfailed {
          AddTime(triptime);
        }
      }
    }

    /** The reply is counted for now, acknowledged, and timed. */
    method TakeReply(cc: nat, seqno: u16, csfailed: bool, received: Timeval, stamp: Timeval, clock: Timeval)
      requires rtt >= 0
      modifies this`nreceived, this`acked, this`pipesize, this`latency
      modifies this`tsum, this`tsum2, this`tmin, this`tmax, this`rtt
      ensures nreceived == old(nreceived) + 1
      ensures TrackOf() == if csfailed then old(TrackOf()) else Acknowledged(old(TrackOf()), seqno)
      ensures var trip := TripTime(received.Micros() - stamp.Micros(), clock.Micros() - stamp.Micros(), old(latency));
              if setup.timing && cc >= TIMED_REPLY then
                latency == trip.1 && TimesOf() == if csfailed then old(TimesOf()) else Timed(old(TimesOf()), trip.0)
              else
                latency == old(latency) && TimesOf() == old(TimesOf())
    {
      hide Acknowledged, Timed, TripTime;
      nreceived := nreceived + 1;
      if !csfailed {
        Acknowledge(seqno);
      }
      TakeTime(cc, csfailed, received, stamp, clock);
    }

    /** gather_statistics, without its printing. The duplicate is reported. */
    method GatherStatistics(cc: nat, seqno: u16, csfailed: bool, received: Timeval, stamp: Timeval, clock: Timeval)
      returns (dupflag: bool)
      requires rcvdTbl.Valid() && rtt >= 0
      modifies this`nreceived, this`nrepeats, this`nchecksum, this`acked, this`pipesize, this`latency
      modifies this`tsum, this`tsum2, this`tmin, this`tmax, this`rtt, rcvdTbl.bytes
      ensures StateOf() == Gathers(setup, old(StateOf()), cc, seqno, csfailed, received, stamp, clock)
      ensures dupflag <==> !csfailed && seqno in old(rcvdTbl.Slots())
    {
      hide DupTable.Slots, Acknowledged, Timed, TripTime, Gathers, DupTables.Gathered;
      ghost var was := StateOf();
      TakeReply(cc, seqno, csfailed, received, stamp, clock);
      assert DupsOf() == was.dups.(received := was.dups.received + 1);
      dupflag := CountReply(seqno, csfailed);
      GathersIs(setup, was, cc, seqno, csfailed, received, stamp, clock, StateOf());
    }

    /** The part of parse_reply for echo replies. `csfailed` is what it computes, and
        does not pass on. */
    method ParseReply(buf: seq<byte>, received: Timeval, clock: Timeval) returns (ours: bool, csfailed: bool)
      requires rcvdTbl.Valid() && rtt >= 0 && |buf| < 0x1_0000
      modifies this`nreceived, this`nrepeats, this`nchecksum, this`acked, this`pipesize, this`latency
      modifies this`tsum, this`tsum2, this`tmin, this`tmax, this`rtt, rcvdTbl.bytes
      ensures StateOf() == Received(setup, old(StateOf()), buf, received, clock)
      ensures ours == AnswerIn(setup, buf).Some?
      ensures ours ==> (csfailed <==> Checksum(AnswerIn(setup, buf).value.icp, 0) != 0)
    {
      hide Gathers, Checksum, Stamp, EchoOf;
      ours, csfailed := false, false;
      if buf == [] {
        return;
      }
      var ihl := buf[0] % 16;
      if |buf| < ihl * 4 + 8 || ihl < 5 {
        return;
      }
      var icp := buf[ihl * 4..];
      var sum := InCksum(icp, 0);
      csfailed := sum != 0;
      var echo := EchoOf(icp, setup.ident);
      if echo.Some? {
        ours := true;
        var dupflag := GatherStatistics(|icp|, echo.value, false, received, Stamp(icp), clock);
      }
    }

    /** What send_probe does to the table, before the packet is built. */
    method ClearNextSlot()
      requires rcvdTbl.Valid()
      modifies rcvdTbl.bytes
      ensures rcvdTbl.Slots() == old(rcvdTbl.Slots()) - {Low(ntransmitted + 1)}
    {
      rcvdTbl.Clear((ntransmitted + 1) % MAX_DUP_CHK);
    }

    /** Every attempt clears it again. */
    method ClearForAttempts(retries: nat)
      requires rcvdTbl.Valid()
      modifies rcvdTbl.bytes
      ensures rcvdTbl.Slots() == old(rcvdTbl.Slots()) - {Low(ntransmitted + 1)}
    {
      hide DupTable.Slots;
      ClearNextSlot();
      for i := 0 to retries
        invariant rcvdTbl.Slots() == old(rcvdTbl.Slots()) - {Low(ntransmitted + 1)}
      {
        ClearNextSlot();
      }
    }

    /** The rate check at the start of pinger. */
    method CheckRate(now: Timeval) returns (pass: bool, delay: int)
      modifies this`curTime, this`tokens
      ensures if HeldBack(setup.config, old(BucketOf()), now, InFlight(TrackOf(), nreceived, nerrors)) then
                !pass && delay == MININTERVAL - Elapsed(old(curTime), now) && BucketOf() == old(BucketOf())
              else match Admit(setup.config, old(BucketOf()), now)
              case Wait(d) => !pass && delay == d && BucketOf() == old(BucketOf())
              case Go(b) => pass && BucketOf() == b
    {
      if curTime.sec == 0 {
        curTime := now;
        tokens := setup.config.interval * (setup.config.preload - 1);
      } else {
        var ntokens := (now.sec - curTime.sec) * 1000 + Thousandth(now.usec - curTime.usec);
        if setup.config.interval == 0 {
          var n := CountInFlight();
          if ntokens < MININTERVAL && n >= setup.config.preload {
            return false, MININTERVAL - ntokens;
          }
        }
        ntokens := ntokens + tokens;
        if ntokens > setup.config.interval * setup.config.preload {
          ntokens := setup.config.interval * setup.config.preload;
        }
        if ntokens < setup.config.interval {
          return false, setup.config.interval - ntokens;
        }
        curTime := now;
        tokens := ntokens - setup.config.interval;
      }
      return true, 0;
    }

    /** The attempt that did not ask to be repeated, and what pinger does about it. */
    method AfterSending(sending: Sending) returns (delay: int)
      modifies this`oomCount, this`tokens, this`ntransmitted, this`acked
      ensures (BucketOf(), delay) == Settle(setup.config, old(BucketOf()), sending)
      ensures TrackOf() == if BucketOf().sent > old(ntransmitted) then Advanced(old(TrackOf())) else old(TrackOf())
    {
      match sending {
        case Delivered =>
          oomCount := 0;
          AdvanceNtransmitted();
          return setup.config.interval - tokens;
        case NoBuffers =>
          tokens := 0;
          var noresInterval := SchInt(setup.config.interval / 2);
          if noresInterval > 500 {
            noresInterval := 500;
          }
          oomCount := oomCount + 1;
          if oomCount * noresInterval < setup.config.lingertime {
            return noresInterval;
          }
        case SocketFull =>
          tokens := tokens + setup.config.interval;
          return MININTERVAL;
        case IcmpArrived =>
          tokens := tokens + setup.config.interval;
          return MININTERVAL;
        case HardError =>
      }
      AdvanceNtransmitted();
      tokens := 0;
      delay := SchInt(setup.config.interval);
    }

    /** pinger, without the adaptive mode: `retries` failed attempts are repeated at
        once, and `sending` is what comes of the last. */
    method Pinger(now: Timeval, retries: nat, sending: Sending) returns (delay: int)
      requires rcvdTbl.Valid()
      modifies this`curTime, this`tokens, this`oomCount, this`ntransmitted, this`acked, rcvdTbl.bytes
      ensures (StateOf(), delay) == Ticked(setup, old(StateOf()), now, sending)
    {
      hide DupTable.Slots, Settle, Advanced, Admit;
      if exiting || (setup.npackets > 0 && ntransmitted >= setup.npackets && setup.deadline == 0) {
        return 1000;
      }
      var pass;
      pass, delay := CheckRate(now);
      if !pass {
        return;
      }
      ghost var bucket := BucketOf();
      ClearForAttempts(retries);
      SettleSends(setup.config, bucket, sending);
      delay := AfterSending(sending);
    }

    /** The calls that the main loop makes, in the order of the inputs. */
    method Play(inputs: seq<Input>)
      requires rcvdTbl.Valid() && rtt >= 0
      requires forall i :: 0 <= i < |inputs| && inputs[i].Packet? ==> |inputs[i].buf| < 0x1_0000
      modifies this, rcvdTbl.bytes
      ensures rcvdTbl.Valid()
      ensures StateOf() == Played(setup, old(StateOf()), inputs)
    {
      hide DupTable.Slots, Ticked, Received;
      assert inputs[0..] == inputs;
      for i := 0 to |inputs|
        invariant rcvdTbl.Valid() && rtt >= 0
        invariant Played(setup, StateOf(), inputs[i..]) == Played(setup, old(StateOf()), inputs)
      {
        assert inputs[i..][0] == inputs[i] && inputs[i..][1..] == inputs[i + 1..];
        ghost var before := StateOf();
        match inputs[i] {
          case Tick(now, retries, sending) =>
            var delay := Pinger(now, retries, sending);
          case Packet(buf, received, clock) =>
            AverageStaysNatural(setup, before, buf, received, clock);
            var ours, csfailed := ParseReply(buf, received, clock);
          case Interrupt =>
            exiting := true;
        }
      }
    }
  }

  /** The parts of the state after a reply. */
  lemma GathersIs(u: Setup, s: State, cc: nat, seqno: u16, csfailed: bool, received: Timeval, stamp: Timeval,
                  clock: Timeval, t: State)
    requires t.track == if csfailed then s.track else Acknowledged(s.track, seqno)
    requires t.dups == DupTables.Gathered(s.dups, seqno, csfailed)
    requires var trip := TripTime(received.Micros() - stamp.Micros(), clock.Micros() - stamp.Micros(), s.latency);
             if u.timing && cc >= TIMED_REPLY then
               t.latency == trip.1 && t.times == if csfailed then s.times else Timed(s.times, trip.0)
             else
               t.latency == s.latency && t.times == s.times
    requires t.bucket == s.bucket && t.nerrors == s.nerrors && t.exiting == s.exiting
    ensures t == Gathers(u, s, cc, seqno, csfailed, received, stamp, clock)
  {
    hide TripTime, Acknowledged, Timed, DupTables.Gathered;
  }

  lemma AverageStaysNatural(u: Setup, s: State, buf: seq<byte>, received: Timeval, clock: Timeval)
    requires s.times.rtt >= 0
    ensures Received(u, s, buf, received, clock).times.rtt >= 0
  {
    hide AnswerIn, Gathers, Stamp, Timed;
    if AnswerIn(u, buf).Some? {
      var a := AnswerIn(u, buf).value;
      GathersAverage(u, s, |a.icp|, a.seqno, false, received, Stamp(a.icp), clock);
    }
  }

  lemma GathersAverage(u: Setup, s: State, cc: nat, seqno: u16, csfailed: bool, received: Timeval, stamp: Timeval,
                       clock: Timeval)
    requires s.times.rtt >= 0
    ensures Gathers(u, s, cc, seqno, csfailed, received, stamp, clock).times.rtt >= 0
  {
    hide TripTime, Acknowledged, Timed;
    TimedIsNatural(s.times, TripTime(received.Micros() - stamp.Micros(), clock.Micros() - stamp.Micros(), s.latency).0);
  }

  lemma TimedIsNatural(t: Times, triptime: nat)
    requires t.rtt >= 0
    ensures Timed(t, triptime).rtt >= 0
  {
  }

  /** A call counts at most one probe as sent. */
  lemma SettleSends(c: Config, b: Bucket, s: Sending)
    ensures var sent := Settle(c, b, s).0.sent; sent == b.sent || sent == b.sent + 1
    ensures Settle(c, b, s).0.sent > b.sent <==>
            s.Delivered? || s.HardError? || (s.NoBuffers? && (b.oomCount + 1) * Backoff(c) >= c.lingertime)
  {
  }

  // ----- the counters and the sums of one run

  /** What happens in a run: a probe is prepared, or a reply is gathered. */
  datatype Moment = Prepared(counts: bool) | Replied(probe: nat, csfailed: bool, time: Reply)

  function DupPart(run: seq<Moment>): seq<Happening> {
    if run == [] then []
    else [match run[0] case Prepared(counts) => Probe(counts) case Replied(q, csfailed, _) => Answer(q, csfailed)] +
         DupPart(run[1..])
  }

  /** The replies that enter the sums. */
  function TimePart(run: seq<Moment>): seq<Reply> {
    if run == [] then []
    else (if run[0].Replied? && !run[0].csfailed then [run[0].time] else []) + TimePart(run[1..])
  }

  /** nreceived and nrepeats together count the replies with a good checksum. */
  lemma {:induction false} GoodRepliesAreCounted(d: Dups, run: seq<Moment>)
    ensures var e := DupRun(d, DupPart(run));
            e.received + e.repeats == d.received + d.repeats + |TimePart(run)|
    decreases run
  {
    if run != [] {
      var h := DupPart(run)[0];
      assert DupPart(run)[1..] == DupPart(run[1..]);
      GoodRepliesAreCounted(DupStep(d, h), run[1..]);
    }
  }

  /** Over every run from the start, whatever was received, the quotients that
      finish computes give a variance that is not negative. */
  lemma FinishIsSound(run: seq<Moment>)
    requires forall i :: 0 <= i < |run| && run[i].Replied? && run[i].time.Full? ==> run[i].time.triptime < LLONG_MAX
    ensures var d, t := DupRun(Dups(0, {}, 0, 0, 0), DupPart(run)), After(NO_TIMES, TimePart(run));
            var n := d.received + d.repeats;
            && n == |TimePart(run)|
            && (n > 0 ==> t.tsum2 / n - (t.tsum / n) * (t.tsum / n) >= 0)
            && SumsOf(t, TimesIn(TimePart(run)))
            && (TimesIn(TimePart(run)) != [] ==> 8 * t.tmin <= t.rtt <= 8 * t.tmax)
  {
    hide SumsOf;
    var replies := TimePart(run);
    GoodRepliesAreCounted(Dups(0, {}, 0, 0, 0), run);
    TimesAreBounded(run);
    RunIsConsistent(NO_TIMES, 0, replies);
    NothingSummed();
    RunSums(NO_TIMES, [], replies);
    assert [] + TimesIn(replies) == TimesIn(replies);
    if |replies| > 0 {
      VarianceIsNatural(After(NO_TIMES, replies), TimedCount(replies), |replies|);
    }
  }

  lemma {:induction false} TimesAreBounded(run: seq<Moment>)
    requires forall i :: 0 <= i < |run| && run[i].Replied? && run[i].time.Full? ==> run[i].time.triptime < LLONG_MAX
    ensures forall i :: 0 <= i < |TimePart(run)| && TimePart(run)[i].Full? ==> TimePart(run)[i].triptime < LLONG_MAX
  {
    if run != [] {
      TimesAreBounded(run[1..]);
    }
  }
}
