// The 16-bit bookkeeping of the newest acknowledged probe (compare section 3.2
// of RFC 1982), and how long it agrees with unbounded sequence numbers.
module Tracking {

  type u16 = x: int | 0 <= x < 0x1_0000

  /** The globals ntransmitted, acked and pipesize. */
  datatype Track = Track(ntransmitted: nat, acked: u16, pipesize: int)

  const FRESH := Track(0, 0, -1)

  function Low(n: int): u16 {
    n % 0x1_0000
  }

  /** The cast to a signed 16-bit integer. */
  function Signed(x: int): int {
    (x + 0x8000) % 0x1_0000 - 0x8000
  }

  /** advance_ntransmitted. The difference in its test is one of promoted ints: it
      does not wrap. */
  function Advanced(t: Track): Track {
    var n := t.ntransmitted + 1;
    t.(ntransmitted := n, acked := if Low(n) - t.acked > 0x7FFF then Low(Low(n) + 1) else t.acked)
  }

  /** acknowledge. */
  function Acknowledged(t: Track, seqno: u16): Track {
    var diff := Low(Low(t.ntransmitted) - seqno);
    if diff > 0x7FFF then t
    else
      t.(pipesize := if diff + 1 > t.pipesize then diff + 1 else t.pipesize,
         acked := if Signed(seqno - t.acked) > 0 || Low(t.ntransmitted) - t.acked > 0x7FFF then seqno else t.acked)
  }

  /** in_flight. */
  function InFlight(t: Track, nreceived: int, nerrors: int): int {
    var diff := Low(Low(t.ntransmitted) - t.acked);
    if diff <= 0x7FFF then diff else t.ntransmitted - nreceived - nerrors
  }

  // ----- what is to be tracked, with unbounded numbers

  /** How many probes were sent, the highest acknowledged one, and the largest
      number of probes in the pipe at an acknowledgement. */
  datatype Truth = Truth(sent: nat, highest: nat, pipe: int)

  const NOTHING := Truth(0, 0, -1)

  datatype Event = Send | Ack(s: nat)

  function Happened(r: Truth, e: Event): Truth {
    match e
    case Send => r.(sent := r.sent + 1)
    case Ack(s) =>
      r.(highest := if s > r.highest then s else r.highest,
         pipe := if r.sent - s + 1 > r.pipe then r.sent - s + 1 else r.pipe)
  }

  /** The window: never more than 0x7FFF probes beyond the newest acknowledged one,
      and acknowledgements only for probes in it. */
  ghost predicate InWindow(r: Truth, e: Event) {
    match e
    case Send => r.sent + 1 - r.highest <= 0x7FFF
    case Ack(s) => s <= r.sent && r.sent - s <= 0x7FFF
  }

  function Step(t: Track, e: Event): Track {
    match e
    case Send => Advanced(t)
    case Ack(s) => Acknowledged(t, Low(s))
  }

  ghost predicate Agrees(t: Track, r: Truth) {
    && t.ntransmitted == r.sent && t.acked == Low(r.highest) && t.pipesize == r.pipe
    && r.highest <= r.sent && r.sent - r.highest <= 0x7FFF
  }

  lemma LowDifference(a: int, b: int)
    ensures Low(Low(a) - Low(b)) == Low(a - b)
    ensures Signed(Low(a) - Low(b)) == Signed(a - b)
  {
  }

  lemma ModPlus(n: int, k: int)
    ensures (0x1_0000 * k + n) % 0x1_0000 == n % 0x1_0000
  {
  }

  /** The unwrapped difference of two 16-bit numbers that are g apart. */
  lemma PromotedDifference(a: nat, b: nat, g: nat)
    requires a == b + g && g < 0x1_0000
    ensures Low(a) - Low(b) == if Low(a) >= Low(b) then g else g - 0x1_0000
  {
  }

  /** While it agrees, in_flight is the true number of unacknowledged probes. */
  lemma InFlightIsExact(t: Track, r: Truth, nreceived: int, nerrors: int)
    requires Agrees(t, r)
    ensures InFlight(t, nreceived, nerrors) == r.sent - r.highest
  {
  }

  lemma SmallDifference(d: int)
    requires -0x8000 <= d < 0x8000
    ensures Signed(d) == d && (d >= 0 ==> Low(d) == d)
  {
  }

  lemma SendAgrees(t: Track, r: Truth)
    requires Agrees(t, r) && InWindow(r, Send)
    ensures Agrees(Advanced(t), Happened(r, Send))
  {
  }

  lemma AckAgrees(t: Track, r: Truth, s: nat)
    requires Agrees(t, r) && InWindow(r, Ack(s))
    ensures Agrees(Acknowledged(t, Low(s)), Happened(r, Ack(s)))
  {
    hide Low, Signed;
    LowDifference(r.sent, s);
    SmallDifference(r.sent - s);
    LowDifference(s, r.highest);
    SmallDifference(s - r.highest);
    PromotedDifference(r.sent, r.highest, r.sent - r.highest);
  }

  lemma StepAgrees(t: Track, r: Truth, e: Event)
    requires Agrees(t, r) && InWindow(r, e)
    ensures Agrees(Step(t, e), Happened(r, e))
  {
    hide Agrees, InWindow, Advanced, Acknowledged, Happened;
    match e {
      case Send => SendAgrees(t, r);
      case Ack(s) => AckAgrees(t, r, s);
    }
  }

  ghost predicate RunInWindow(r: Truth, events: seq<Event>)
    decreases events
  {
    events == [] || (InWindow(r, events[0]) && RunInWindow(Happened(r, events[0]), events[1..]))
  }

  function Run(t: Track, events: seq<Event>): Track
    decreases events
  {
    if events == [] then t else Run(Step(t, events[0]), events[1..])
  }

  function History(r: Truth, events: seq<Event>): Truth
    decreases events
  {
    if events == [] then r else History(Happened(r, events[0]), events[1..])
  }

  function SendsIn(events: seq<Event>): nat {
    if events == [] then 0 else (if events[0].Send? then 1 else 0) + SendsIn(events[1..])
  }

  /** Where the probe was in the pipe when event i acknowledged it. */
  function PipeAt(sent: nat, events: seq<Event>, i: nat): int
    requires i < |events| && events[i].Ack?
  {
    sent + SendsIn(events[..i]) - events[i].s + 1
  }

  lemma PipeLater(sent: nat, events: seq<Event>, i: nat)
    requires events != [] && i < |events[1..]| && events[1..][i].Ack?
    ensures PipeAt(sent, events, i + 1) == PipeAt(if events[0].Send? then sent + 1 else sent, events[1..], i)
  {
    assert events[..i + 1][1..] == events[1..][..i];
  }

  /** The history counts the sends, and keeps the largest acknowledged number and the
      largest pipe. */
  lemma {:induction false} HistoryIs(r: Truth, events: seq<Event>)
    ensures var h := History(r, events);
            && h.sent == r.sent + SendsIn(events) && h.highest >= r.highest && h.pipe >= r.pipe
            && (forall i :: 0 <= i < |events| && events[i].Ack? ==>
                  h.highest >= events[i].s && h.pipe >= PipeAt(r.sent, events, i))
            && (h.highest == r.highest || exists i :: 0 <= i < |events| && events[i] == Ack(h.highest))
            && (h.pipe == r.pipe ||
                exists i :: 0 <= i < |events| && events[i].Ack? && h.pipe == PipeAt(r.sent, events, i))
    decreases events
  {
    if events != [] {
      var n, tail := Happened(r, events[0]), events[1..];
      HistoryIs(n, tail);
      forall i | 0 <= i < |tail| && tail[i].Ack?
        ensures PipeAt(r.sent, events, i + 1) == PipeAt(n.sent, tail, i)
      {
        PipeLater(r.sent, events, i);
      }
      assert forall i :: 0 <= i < |tail| ==> tail[i] == events[i + 1];
      assert forall i :: 0 < i < |events| ==> events[i] == tail[i - 1];
      assert events[..0] == [];
      assert events[0].Ack? ==> PipeAt(r.sent, events, 0) == r.sent - events[0].s + 1;
      hide PipeAt, History;
    }
  }

  /** Over every run that stays in the window, however often the 16-bit numbers
      wrap around, the bookkeeping agrees with the unbounded one. */
  lemma {:induction false} RunAgrees(t: Track, r: Truth, events: seq<Event>)
    requires Agrees(t, r) && RunInWindow(r, events)
    ensures Agrees(Run(t, events), History(r, events))
    decreases events
  {
    if events != [] {
      StepAgrees(t, r, events[0]);
      RunAgrees(Step(t, events[0]), Happened(r, events[0]), events[1..]);
    }
  }

  lemma StartAgrees()
    ensures Agrees(FRESH, NOTHING)
  {
  }

  // ----- the edge of the window

  /** One probe too many: the newest acknowledgement is forgotten, exactly when
      the promoted difference shows the gap. */
  lemma SendAgreesIff(t: Track, r: Truth)
    requires Agrees(t, r)
    ensures Advanced(t).acked == Low(r.highest) <==> InWindow(r, Send) || Low(r.sent + 1) < Low(r.highest)
  {
  }

  /** And then the number in flight is reported as zero after the next probe,
      although 0x8001 probes are unacknowledged. */
  lemma OverflowEmptiesThePipe(t: Track, r: Truth, nreceived: int, nerrors: int)
    requires Agrees(t, r) && r.sent - r.highest == 0x7FFF && Low(r.sent + 1) >= Low(r.highest)
    ensures var later := Happened(Happened(r, Send), Send);
            later.sent - later.highest == 0x8001 && InFlight(Advanced(Advanced(t)), nreceived, nerrors) == 0
  {
    var n := r.sent + 1;
    PromotedDifference(n, r.highest, 0x8000);
    assert Advanced(t).acked == Low(Low(n) + 1);
    ModPlus(Low(n) + 1, n / 0x1_0000);
    assert n + 1 == 0x1_0000 * (n / 0x1_0000) + (Low(n) + 1);
    assert Low(n + 1) == Low(Low(n) + 1);
  }
}
