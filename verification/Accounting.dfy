// A whole ping session as one state: what a call of pinger and a received packet do
// to all of it, and what holds over every run.
module Accounting {
  import opened Bytes
  import opened Checksums
  import opened Tracking
  import opened Statistics
  import opened DupTables
  import opened TokenBucket

  /** The options; npackets and deadline are zero when there is none. */
  datatype Setup = Setup(config: Config, npackets: nat, deadline: nat, ident: u16, timing: bool)

  datatype State = State(track: Track, dups: Dups, times: Times, bucket: Bucket, latency: bool, nerrors: int,
                         exiting: bool)

  const BEGUN := State(FRESH, Dups(0, {}, 0, 0, 0), NO_TIMES, EMPTY, false, 0, false)

  // ----- a call of pinger

  predicate Done(u: Setup, s: State) {
    s.exiting || (u.npackets > 0 && s.bucket.sent >= u.npackets && u.deadline == 0)
  }

  predicate Held(u: Setup, s: State, now: Timeval) {
    HeldBack(u.config, s.bucket, now, InFlight(s.track, s.dups.received, s.nerrors))
  }

  /** An attempt to send: the state after it, and the delay returned. */
  function Attempted(u: Setup, s: State, admitted: Bucket, sending: Sending): (State, int) {
    var (bucket, delay) := Settle(u.config, admitted, sending);
    var counts := bucket.sent > s.bucket.sent;
    (s.(bucket := bucket, track := if counts then Advanced(s.track) else s.track, dups := Probed(s.dups, counts)),
     delay)
  }

  function Ticked(u: Setup, s: State, now: Timeval, sending: Sending): (State, int) {
    if Done(u, s) then (s, 1000)
    else if Held(u, s, now) then (s, MININTERVAL - Elapsed(s.bucket.cur, now))
    else match Admit(u.config, s.bucket, now)
      case Wait(delay) => (s, delay)
      case Go(admitted) => Attempted(u, s, admitted, sending)
  }

  // ----- a received packet

  const ECHO_REPLY: byte := 0
  /** The ICMP header and a struct timeval. */
  const TIMED_REPLY: nat := 24

  /** A signed 64-bit integer of a little-endian machine. */
  function Int64(b: seq<byte>): int
    requires |b| == 8
  {
    var u := Digits(b);
    if u >= 0x8000_0000_0000_0000 then u - 0x1_0000_0000_0000_0000 else u
  }

  function Digits(b: seq<byte>): nat {
    if b == [] then 0
    else
      var low: int := b[0];
      low + 256 * Digits(b[1..])
  }

  /** The time stamp behind the ICMP header. */
  function Stamp(icp: seq<byte>): Timeval {
    if |icp| >= TIMED_REPLY then Timeval(Int64(icp[8..16]), Int64(icp[16..24])) else Timeval(0, 0)
  }

  /** What follows the IP header, if the packet is long enough for both headers. */
  function IcmpPart(buf: seq<byte>): (icp: Option<seq<byte>>)
    ensures icp.Some? ==> 8 <= |icp.value| <= |buf|
  {
    if buf == [] then None
    else
      var ihl := buf[0] % 16;
      if |buf| < ihl * 4 + 8 || ihl < 5 then None else Some(buf[ihl * 4..])
  }

  /** The sequence number of an echo reply to this process. */
  function EchoOf(icp: seq<byte>, ident: u16): Option<u16>
    requires |icp| >= 8
  {
    var id0: int, id1: int, high: int, low: int := icp[4], icp[5], icp[6], icp[7];
    if icp[0] == ECHO_REPLY && id0 + 256 * id1 == ident then Some(256 * high + low) else None
  }

  /** A reply to this process. */
  datatype Answered = Answered(icp: seq<byte>, seqno: u16)

  function AnswerIn(u: Setup, buf: seq<byte>): (a: Option<Answered>)
    ensures a.Some? ==> 8 <= |a.value.icp| <= |buf|
  {
    match IcmpPart(buf)
    case None => None
    case Some(icp) =>
      match EchoOf(icp, u.ident)
      case None => None
      case Some(seqno) => Some(Answered(icp, seqno))
  }

  /** gather_statistics, for a reply of cc bytes, stamped `stamp`; `clock` is what a
      second look at the clock gives. */
  function Gathers(u: Setup, s: State, cc: nat, seqno: u16, csfailed: bool, received: Timeval, stamp: Timeval,
                   clock: Timeval): State
  {
    var timed := u.timing && cc >= TIMED_REPLY;
    var (trip, latency) := TripTime(received.Micros() - stamp.Micros(), clock.Micros() - stamp.Micros(), s.latency);
    s.(track := if csfailed then s.track else Acknowledged(s.track, seqno),
       dups := DupTables.Gathered(s.dups, seqno, csfailed),
       times := if timed && !csfailed then Timed(s.times, trip) else s.times,
       latency := if timed then latency else s.latency)
  }

  function Replied(u: Setup, s: State, a: Answered, csfailed: bool, received: Timeval, clock: Timeval): State {
    Gathers(u, s, |a.icp|, a.seqno, csfailed, received, Stamp(a.icp), clock)
  }

  /** parse_reply: the checksum is computed, and zero is passed on for it. */
  function Received(u: Setup, s: State, buf: seq<byte>, received: Timeval, clock: Timeval): State {
    match AnswerIn(u, buf)
    case None => s
    case Some(a) => Replied(u, s, a, false, received, clock)
  }

  lemma GathersFailures(u: Setup, s: State, cc: nat, seqno: u16, csfailed: bool, received: Timeval, stamp: Timeval,
                        clock: Timeval)
    ensures Gathers(u, s, cc, seqno, csfailed, received, stamp, clock).dups.failed ==
            if csfailed then s.dups.failed + 1 else s.dups.failed
  {
    hide TripTime, Acknowledged, Timed;
  }

  /** A reply is accounted as its checksum asks if and only if that is zero. */
  lemma AccountedAsItShouldBeIff(u: Setup, s: State, buf: seq<byte>, received: Timeval, clock: Timeval)
    requires AnswerIn(u, buf).Some?
    ensures var a := AnswerIn(u, buf).value;
            Received(u, s, buf, received, clock) == Replied(u, s, a, Checksum(a.icp, 0) != 0, received, clock) <==>
            Checksum(a.icp, 0) == 0
  {
    hide Gathers, Checksum, AnswerIn, Stamp;
    var a := AnswerIn(u, buf).value;
    GathersFailures(u, s, |a.icp|, a.seqno, false, received, Stamp(a.icp), clock);
    GathersFailures(u, s, |a.icp|, a.seqno, Checksum(a.icp, 0) != 0, received, Stamp(a.icp), clock);
  }

  /** Whatever its checksum, a reply is acknowledged, and credited to its probe if
      that has no other. */
  lemma EveryReplyIsCredited(u: Setup, s: State, buf: seq<byte>, received: Timeval, clock: Timeval)
    requires AnswerIn(u, buf).Some?
    ensures var seqno, t := AnswerIn(u, buf).value.seqno, Received(u, s, buf, received, clock);
            && t.track == Acknowledged(s.track, seqno) && t.dups.failed == s.dups.failed
            && t.dups.slots == s.dups.slots + {seqno}
            && (seqno !in s.dups.slots ==> t.dups.received == s.dups.received + 1)
  {
    hide TripTime, Acknowledged, Timed, AnswerIn, Stamp;
  }

  /** And there are replies with a bad checksum. */
  lemma CorruptedReply(u: Setup)
    requires u.ident == 0
    ensures var icp: seq<byte> := [ECHO_REPLY, 0, 0, 0, 0, 0, 0, 1];
            AnswerIn(u, [0x45] + Zeros(19) + icp) == Some(Answered(icp, 1)) && Checksum(icp, 0) == 0xFEFF
  {
    var icp: seq<byte> := [ECHO_REPLY, 0, 0, 0, 0, 0, 0, 1];
    var buf: seq<byte> := [0x45] + Zeros(19) + icp;
    assert buf[20..] == icp && buf[0] == 0x45;
    assert AnswerIn(u, buf) == Some(Answered(icp, 1));
    hide AnswerIn, IcmpPart, EchoOf;
    assert Zeros(6) + [0, 1] == icp;
    SumOfZeros(6);
    SumOfParts(Zeros(6), [0, 1]);
    LastWord();
    assert Ones(256) == 256;
  }

  lemma LastWord()
    ensures Sum([0, 1]) == 256
  {
    var b: seq<byte> := [0, 1];
    assert b[2..] == [];
  }

  // ----- runs

  datatype Input = Tick(now: Timeval, retries: nat, sending: Sending)
                 | Packet(buf: seq<byte>, received: Timeval, clock: Timeval)
                 | Interrupt

  function Stepped(u: Setup, s: State, i: Input): State {
    match i
    case Tick(now, _, sending) => Ticked(u, s, now, sending).0
    case Packet(buf, received, clock) => Received(u, s, buf, received, clock)
    case Interrupt => s.(exiting := true)
  }

  function Played(u: Setup, s: State, inputs: seq<Input>): State
    decreases inputs
  {
    if inputs == [] then s else Played(u, Stepped(u, s, inputs[0]), inputs[1..])
  }

  lemma StepFailsNone(u: Setup, s: State, i: Input)
    ensures Stepped(u, s, i).dups.failed == s.dups.failed
  {
    hide Done, Held, Admit, Settle, Advanced, Gathers, AnswerIn, Stamp;
    match i {
      case Tick(_, _, _) =>
      case Packet(buf, received, clock) =>
        if AnswerIn(u, buf).Some? {
          var a := AnswerIn(u, buf).value;
          GathersFailures(u, s, |a.icp|, a.seqno, false, received, Stamp(a.icp), clock);
        }
      case Interrupt =>
    }
  }

  /** No run, whatever is received, counts a reply with a bad checksum. */
  lemma {:induction false} NoneFails(u: Setup, s: State, inputs: seq<Input>)
    ensures Played(u, s, inputs).dups.failed == s.dups.failed
    decreases inputs
  {
    hide Stepped;
    if inputs != [] {
      StepFailsNone(u, s, inputs[0]);
      NoneFails(u, Stepped(u, s, inputs[0]), inputs[1..]);
    }
  }

  /** No more probes than asked for, unless there is a deadline. */
  lemma {:induction false} NeverMoreThanAsked(u: Setup, s: State, inputs: seq<Input>)
    requires u.npackets > 0 && u.deadline == 0 && s.bucket.sent <= u.npackets
    ensures Played(u, s, inputs).bucket.sent <= u.npackets
    decreases inputs
  {
    hide Stepped;
    if inputs != [] {
      StepSends(u, s, inputs[0]);
      NeverMoreThanAsked(u, Stepped(u, s, inputs[0]), inputs[1..]);
    }
  }

  /** And none once the session is interrupted. */
  lemma {:induction false} NoneWhenInterrupted(u: Setup, s: State, inputs: seq<Input>)
    requires s.exiting
    ensures Played(u, s, inputs).bucket.sent == s.bucket.sent
    decreases inputs
  {
    hide Stepped;
    if inputs != [] {
      StepSends(u, s, inputs[0]);
      NoneWhenInterrupted(u, Stepped(u, s, inputs[0]), inputs[1..]);
    }
  }

  lemma StepSends(u: Setup, s: State, i: Input)
    ensures var t := Stepped(u, s, i);
            && s.bucket.sent <= t.bucket.sent <= s.bucket.sent + 1 && (s.exiting ==> t.exiting)
            && (s.exiting || (u.npackets > 0 && u.deadline == 0 && s.bucket.sent >= u.npackets) ==>
                  t.bucket.sent == s.bucket.sent)
  {
    hide Held, Advanced, Gathers, AnswerIn, Stamp;
    match i {
      case Tick(now, _, sending) => AdmitSends(u.config, s.bucket, now, sending);
      case Packet(buf, received, clock) =>
        if AnswerIn(u, buf).Some? {
          var a := AnswerIn(u, buf).value;
          GathersKeeps(u, s, |a.icp|, a.seqno, false, received, Stamp(a.icp), clock);
        }
      case Interrupt =>
    }
  }

  lemma AdmitSends(c: Config, b: Bucket, now: Timeval, sending: Sending)
    ensures match Admit(c, b, now)
            case Wait(_) => true
            case Go(d) => b.sent <= Settle(c, d, sending).0.sent <= b.sent + 1
  {
  }

  lemma GathersKeeps(u: Setup, s: State, cc: nat, seqno: u16, csfailed: bool, received: Timeval, stamp: Timeval,
                     clock: Timeval)
    ensures var t := Gathers(u, s, cc, seqno, csfailed, received, stamp, clock);
            t.bucket == s.bucket && t.exiting == s.exiting
  {
    hide TripTime, Acknowledged, Timed;
  }

  // ----- a probe that is echoed

  function Int64Bytes(n: int): (r: seq<byte>)
    requires -0x8000_0000_0000_0000 <= n < 0x8000_0000_0000_0000
    ensures |r| == 8
  {
    DigitsOf(if n < 0 then n + 0x1_0000_0000_0000_0000 else n, 8)
  }

  function DigitsOf(u: nat, k: nat): (r: seq<byte>)
    ensures |r| == k
  {
    if k == 0 then [] else [u % 256] + DigitsOf(u / 256, k - 1)
  }

  function Power(k: nat): nat {
    if k == 0 then 1 else 256 * Power(k - 1)
  }

  lemma {:induction false} DigitsRoundTrip(u: nat, k: nat)
    requires u < Power(k)
    ensures Digits(DigitsOf(u, k)) == u
  {
    if k > 0 {
      DigitsRoundTrip(u / 256, k - 1);
    }
  }

  lemma Int64RoundTrip(n: int)
    requires -0x8000_0000_0000_0000 <= n < 0x8000_0000_0000_0000
    ensures Int64(Int64Bytes(n)) == n
  {
    assert Power(2) == 0x1_0000;
    assert Power(4) == 0x1_0000_0000;
    assert Power(6) == 0x1_0000_0000_0000;
    assert Power(8) == 0x1_0000_0000_0000_0000;
    hide Power, Digits, DigitsOf;
    DigitsRoundTrip(if n < 0 then n + 0x1_0000_0000_0000_0000 else n, 8);
  }

  /** A struct timeval in memory. */
  function StampBytes(t: Timeval): (r: seq<byte>)
    requires -0x8000_0000_0000_0000 <= t.sec < 0x8000_0000_0000_0000
    requires -0x8000_0000_0000_0000 <= t.usec < 0x8000_0000_0000_0000
    ensures |r| == 16
  {
    Int64Bytes(t.sec) + Int64Bytes(t.usec)
  }

  lemma WordRoundTrip(word: nat)
    requires word < 0x1_0000
    ensures word % 256 + 256 * (word / 256) == word
  {
  }

  /** The reply that the other end makes of a probe: the same bytes, but for the type
      and the checksum. */
  function EchoedProbe(outpack: seq<byte>, cc: nat, seqno: nat, ident: u16, t: Timeval, checksum: nat): (r: seq<byte>)
    requires 24 <= cc <= |outpack| && seqno < 0x1_0000 && checksum < 0x1_0000
    requires -0x8000_0000_0000_0000 <= t.sec < 0x8000_0000_0000_0000
    requires -0x8000_0000_0000_0000 <= t.usec < 0x8000_0000_0000_0000
    ensures |r| == cc
  {
    [ECHO_REPLY] + Checksums.Probe(outpack, cc, seqno, ident, Some(StampBytes(t)), checksum)[1..]
  }

  /** It is recognised as ours, under the number and with the time that were sent. */
  lemma EchoIsRecognised(outpack: seq<byte>, cc: nat, seqno: nat, ident: u16, t: Timeval, checksum: nat)
    requires 24 <= cc <= |outpack| && seqno < 0x1_0000 && checksum < 0x1_0000
    requires -0x8000_0000_0000_0000 <= t.sec < 0x8000_0000_0000_0000
    requires -0x8000_0000_0000_0000 <= t.usec < 0x8000_0000_0000_0000
    ensures var icp := EchoedProbe(outpack, cc, seqno, ident, t, checksum);
            EchoOf(icp, ident) == Some(seqno) && Stamp(icp) == t
  {
    var icp := EchoedProbe(outpack, cc, seqno, ident, t, checksum);
    FieldsOf(outpack, cc, seqno, ident, StampBytes(t), checksum);
    var probe := Checksums.Probe(outpack, cc, seqno, ident, Some(StampBytes(t)), checksum);
    assert icp == [ECHO_REPLY] + probe[1..];
    hide Checksums.Probe, EchoedProbe, Int64, Int64Bytes;
    assert icp[4..] == probe[4..];
    assert icp[4] == probe[4] && icp[5] == probe[5] && icp[6] == probe[6] && icp[7] == probe[7];
    assert icp[8..16] == probe[8..24][..8] && icp[16..24] == probe[8..24][8..];
    WordRoundTrip(seqno);
    WordRoundTrip(ident);
    Int64RoundTrip(t.sec);
    Int64RoundTrip(t.usec);
  }

  /** It is so behind any IP header, with options or without. */
  lemma EchoIsAnswered(u: Setup, header: seq<byte>, outpack: seq<byte>, cc: nat, seqno: nat, t: Timeval, checksum: nat)
    requires 20 <= |header| <= 60 && |header| % 4 == 0 && header[0] % 16 == |header| / 4
    requires 24 <= cc <= |outpack| && seqno < 0x1_0000 && checksum < 0x1_0000
    requires -0x8000_0000_0000_0000 <= t.sec < 0x8000_0000_0000_0000
    requires -0x8000_0000_0000_0000 <= t.usec < 0x8000_0000_0000_0000
    ensures var icp := EchoedProbe(outpack, cc, seqno, u.ident, t, checksum);
            AnswerIn(u, header + icp) == Some(Answered(icp, seqno)) && Stamp(icp) == t
  {
    hide Checksums.Probe, EchoedProbe, EchoOf, Stamp, IcmpPart;
    EchoIsRecognised(outpack, cc, seqno, u.ident, t, checksum);
    HeaderIsPassed(header, EchoedProbe(outpack, cc, seqno, u.ident, t, checksum));
  }

  lemma HeaderIsPassed(header: seq<byte>, icp: seq<byte>)
    requires 20 <= |header| <= 60 && |header| % 4 == 0 && header[0] % 16 == |header| / 4 && |icp| >= 8
    ensures IcmpPart(header + icp) == Some(icp)
  {
    assert (header + icp)[|header|..] == icp;
  }

  /** A packet without room for both headers is none. */
  lemma ShortPacketIsNone(u: Setup, buf: seq<byte>)
    requires buf == [] || buf[0] % 16 < 5 || |buf| < 4 * (buf[0] % 16) + 8
    ensures AnswerIn(u, buf) == None
  {
  }

  lemma FieldsOf(outpack: seq<byte>, cc: nat, seqno: nat, ident: u16, stamp: seq<byte>, checksum: nat)
    requires 24 <= cc <= |outpack| && seqno < 0x1_0000 && checksum < 0x1_0000 && |stamp| == 16
    ensures var probe := Checksums.Probe(outpack, cc, seqno, ident, Some(stamp), checksum);
            && |probe| == cc && probe[4] == ident % 256 && probe[5] == ident / 256
            && probe[6] == seqno / 256 && probe[7] == seqno % 256 && probe[8..24] == stamp
  {
    var tail := stamp + outpack[24..cc];
    var probe := Checksums.Probe(outpack, cc, seqno, ident, Some(stamp), checksum);
    var ids := WordBytes(ident) + NetworkBytes(seqno);
    assert probe == [ICMP_ECHO, 0] + WordBytes(checksum) + (ids + tail);
    hide Checksums.Probe;
    assert probe[8..24] == tail[..16] == stamp;
  }

  // ----- what holds over a run

  /** The truth about a run, without bounds or bits: the probes sent and the newest
      acknowledged, those credited with a reply, the times that were measured, and
      the account of the rate control. */
  datatype Facts = Facts(truth: Truth, credit: Credit, times: seq<nat>, account: Account)

  const NO_FACTS := Facts(NOTHING, Credit({}, 0), [], OPENED)

  /** The newest probe that has the sequence number. */
  function ProbeOf(sent: nat, seqno: u16): (q: int)
    ensures q <= sent && sent - q < 0x1_0000
  {
    sent - Low(sent - seqno)
  }

  /** How long a reply took. */
  function TripOf(s: State, a: Answered, received: Timeval, clock: Timeval): nat {
    var stamp := Stamp(a.icp).Micros();
    TripTime(received.Micros() - stamp, clock.Micros() - stamp, s.latency).0
  }

  function FactStep(u: Setup, s: State, g: Facts, i: Input): Facts {
    match i
    case Interrupt => g
    case Tick(now, _, sending) =>
      if Done(u, s) || Held(u, s, now) then g
      else
        g.(truth := if Stepped(u, s, i).bucket.sent > s.bucket.sent then Happened(g.truth, Send) else g.truth,
           account := Booked(u.config, s.bucket, g.account, Call(now, sending)))
    case Packet(buf, received, clock) =>
      match AnswerIn(u, buf)
      case None => g
      case Some(a) =>
        var q := ProbeOf(s.bucket.sent, a.seqno);
        if q < 0 then g
        else
          Facts(Happened(g.truth, Ack(q)), CreditStep(g.credit, Answer(q, false)),
                if u.timing && |a.icp| >= TIMED_REPLY then g.times + [TripOf(s, a, received, clock)] else g.times,
                g.account)
  }

  /** What a run must be like: the clock is set; a probe is sent only while at most
      0x7FFF are unacknowledged; a reply names one of the last 0x8000 probes. */
  ghost predicate Fits(u: Setup, s: State, g: Facts, i: Input) {
    match i
    case Interrupt => true
    case Tick(now, _, _) =>
      GoodClock(now) && (Stepped(u, s, i).bucket.sent > s.bucket.sent ==> InWindow(g.truth, Send))
    case Packet(buf, received, clock) =>
      match AnswerIn(u, buf)
      case None => true
      case Some(a) =>
        var q := ProbeOf(s.bucket.sent, a.seqno);
        1 <= q && s.bucket.sent - q <= 0x7FFF && TripOf(s, a, received, clock) < LLONG_MAX
  }

  /** Everything at once: tracking, credits, sums and budget. */
  ghost predicate Sound(u: Setup, s: State, g: Facts) {
    && u.config.Valid() && s.bucket.sent == s.track.ntransmitted == s.dups.sent
    && Agrees(s.track, g.truth) && Credited(s.dups, g.credit) && Consistent(s.times, |g.times|)
    && SumsOf(s.times, g.times) && |g.times| <= s.dups.received + s.dups.repeats
    && InBudget(u.config, s.bucket, g.account)
  }

  lemma BegunIsSound(u: Setup)
    requires u.config.Valid()
    ensures Sound(u, BEGUN, NO_FACTS)
  {
    hide Agrees, Credited, Consistent, InBudget, SumsOf;
    StartAgrees();
    NothingIsCredited();
    NothingIsTimed();
    NothingSummed();
    NothingIsSpent(u.config);
  }

  lemma NothingIsTimed()
    ensures Consistent(NO_TIMES, 0)
  {
  }

  lemma NothingIsSpent(c: Config)
    requires c.Valid()
    ensures InBudget(c, EMPTY, OPENED)
  {
    NoOverflow(c);
    assert c.interval * 0 == 0;
  }

  lemma NothingIsCredited()
    ensures Credited(Dups(0, {}, 0, 0, 0), Credit({}, 0))
  {
  }

  lemma TickIsSound(u: Setup, s: State, g: Facts, now: Timeval, retries: nat, sending: Sending)
    requires Sound(u, s, g) && Fits(u, s, g, Tick(now, retries, sending))
    ensures Sound(u, Stepped(u, s, Tick(now, retries, sending)), FactStep(u, s, g, Tick(now, retries, sending)))
  {
    hide Agrees, Credited, Consistent, SumsOf, InBudget, Settle, Advanced, Probed, Happened, InWindow;
    if !Done(u, s) && !Held(u, s, now) {
      CallInBudget(u.config, s.bucket, g.account, Call(now, sending));
      if Admit(u.config, s.bucket, now).Go? {
        var admitted := Admit(u.config, s.bucket, now).bucket;
        AttemptIsSound(u, s, g, admitted, sending);
      }
    }
  }

  /** The probe is counted alike in all parts of the state. */
  lemma AttemptIsSound(u: Setup, s: State, g: Facts, admitted: Bucket, sending: Sending)
    requires s.bucket.sent == s.track.ntransmitted == s.dups.sent == admitted.sent
    requires Agrees(s.track, g.truth) && Credited(s.dups, g.credit)
    requires Attempted(u, s, admitted, sending).0.bucket.sent > s.bucket.sent ==> InWindow(g.truth, Send)
    ensures var t := Attempted(u, s, admitted, sending).0;
            && t.bucket.sent == t.track.ntransmitted == t.dups.sent && Credited(t.dups, g.credit)
            && Agrees(t.track, if t.bucket.sent > s.bucket.sent then Happened(g.truth, Send) else g.truth)
            && t.dups.received == s.dups.received && t.dups.repeats == s.dups.repeats
  {
    hide Agrees, Credited, InWindow, Happened;
    var counts := Attempted(u, s, admitted, sending).0.bucket.sent > s.bucket.sent;
    ProbeIsCredited(s.dups, g.credit, counts);
    if counts {
      SendAgrees(s.track, g.truth);
    }
  }

  lemma ProbeHasNumber(sent: nat, seqno: u16)
    ensures Low(ProbeOf(sent, seqno)) == seqno
  {
    var k := (sent - seqno) / 0x1_0000;
    assert ProbeOf(sent, seqno) == 0x1_0000 * k + seqno;
    ModPlus(seqno, k);
  }

  lemma ReplyIsSound(u: Setup, s: State, g: Facts, buf: seq<byte>, received: Timeval, clock: Timeval)
    requires Sound(u, s, g) && Fits(u, s, g, Packet(buf, received, clock))
    ensures Sound(u, Stepped(u, s, Packet(buf, received, clock)), FactStep(u, s, g, Packet(buf, received, clock)))
  {
    hide Credited, Consistent, SumsOf, InBudget, Acknowledged, TripTime, AnswerIn, Stamp, ProbeOf, Timed, Low;
    if AnswerIn(u, buf).Some? {
      var a := AnswerIn(u, buf).value;
      var q := ProbeOf(s.bucket.sent, a.seqno);
      ProbeHasNumber(s.bucket.sent, a.seqno);
      AckAgrees(s.track, g.truth, q);
      AnswerIsCredited(s.dups, g.credit, q, false);
      if u.timing && |a.icp| >= TIMED_REPLY {
        TimedIsConsistent(s.times, |g.times|, TripOf(s, a, received, clock));
        TimedSums(s.times, g.times, TripOf(s, a, received, clock));
      }
    }
  }

  ghost predicate AllFit(u: Setup, s: State, g: Facts, inputs: seq<Input>)
    decreases inputs
  {
    inputs == [] ||
    (Fits(u, s, g, inputs[0]) && AllFit(u, Stepped(u, s, inputs[0]), FactStep(u, s, g, inputs[0]), inputs[1..]))
  }

  function FactsOf(u: Setup, s: State, g: Facts, inputs: seq<Input>): Facts
    decreases inputs
  {
    if inputs == [] then g else FactsOf(u, Stepped(u, s, inputs[0]), FactStep(u, s, g, inputs[0]), inputs[1..])
  }

  /** Over every such run all of the accounts agree with the truth, together. */
  lemma {:induction false} RunIsSound(u: Setup, s: State, g: Facts, inputs: seq<Input>)
    requires Sound(u, s, g) && AllFit(u, s, g, inputs)
    ensures Sound(u, Played(u, s, inputs), FactsOf(u, s, g, inputs))
    decreases inputs
  {
    hide Sound, Fits, Stepped, FactStep;
    if inputs != [] {
      match inputs[0] {
        case Tick(now, retries, sending) => TickIsSound(u, s, g, now, retries, sending);
        case Packet(buf, received, clock) => ReplyIsSound(u, s, g, buf, received, clock);
        case Interrupt => InterruptIsSound(u, s, g);
      }
      RunIsSound(u, Stepped(u, s, inputs[0]), FactStep(u, s, g, inputs[0]), inputs[1..]);
    }
  }

  lemma InterruptIsSound(u: Setup, s: State, g: Facts)
    requires Sound(u, s, g)
    ensures Sound(u, Stepped(u, s, Interrupt), FactStep(u, s, g, Interrupt))
  {
  }

  /** What can be read off the counters of a session. */
  ghost predicate Truthful(u: Setup, s: State, g: Facts) {
    var n := s.dups.received + s.dups.repeats;
    && s.track.ntransmitted == g.truth.sent
    && InFlight(s.track, s.dups.received, s.nerrors) == g.truth.sent - g.truth.highest
    && s.track.pipesize == g.truth.pipe
    && s.dups.received == |g.credit.probes| <= g.truth.sent && n + s.dups.failed == g.credit.answers
    && u.config.interval * g.truth.sent + s.bucket.tokens <= u.config.interval * u.config.preload + g.account.measured
    && (n > 0 ==> s.times.tsum2 / n - (s.times.tsum / n) * (s.times.tsum / n) >= 0)
    && SumsOf(s.times, g.times) && |g.times| <= n
    && (g.times != [] ==> 8 * s.times.tmin <= s.times.rtt <= 8 * s.times.tmax)
  }

  lemma SoundIsTruthful(u: Setup, s: State, g: Facts)
    requires Sound(u, s, g)
    ensures Truthful(u, s, g)
  {
    hide SumsOf;
    InFlightIsExact(s.track, g.truth, s.dups.received, s.nerrors);
    ReceivedAtMostSent(s.dups, g.credit);
    var n := s.dups.received + s.dups.repeats;
    if n > 0 {
      VarianceIsNatural(s.times, |g.times|, n);
    }
  }

  /** A session from its start: the probes in flight, those credited, the budget, the
      variance and the average are what they should be, and none of the replies is
      counted as failed. */
  lemma SessionIsTruthful(u: Setup, inputs: seq<Input>)
    requires u.config.Valid() && AllFit(u, BEGUN, NO_FACTS, inputs)
    ensures Truthful(u, Played(u, BEGUN, inputs), FactsOf(u, BEGUN, NO_FACTS, inputs))
    ensures Played(u, BEGUN, inputs).dups.failed == 0
  {
    assert BEGUN.dups.failed == 0;
    hide *;
    BegunIsSound(u);
    RunIsSound(u, BEGUN, NO_FACTS, inputs);
    NoneFails(u, BEGUN, inputs);
    SoundIsTruthful(u, Played(u, BEGUN, inputs), FactsOf(u, BEGUN, NO_FACTS, inputs));
  }
}
