// The parser of multipart/form-data bodies.
module Multipart {
  import opened Bytes
  import opened MpStreams
  import opened Search
  import opened Placement
  import opened Boundaries
  import opened Headers
  import opened Forms

  /** What the header lines of a part have said so far. */
  datatype Disposition = Disposition(main: seq<byte>, name: seq<byte>, fileName: seq<byte>, contentType: seq<byte>)

  const NOTHING := Disposition([], [], [], [])

  function DispositionHeader(): seq<byte> { Ascii("Content-Disposition") }
  function TypeHeader(): seq<byte> { Ascii("Content-Type") }
  function FormDataName(): seq<byte> { Ascii("form-data") }
  function NameKey(): seq<byte> { Ascii("name") }
  function FileNameKey(): seq<byte> { Ascii("filename") }

  /** The effect of one header; none if the code would write through a null pointer. */
  function TakeHeader(d: Disposition, attr: seq<byte>, value: seq<byte>): Option<Disposition> {
    if EqNc(CStr(attr), DispositionHeader()) then
      match Decompose(CStr(value), [NameKey(), FileNameKey()], SPACE_OF_LINE)
      case NullWrite => None
      case Parsed(main, args) => Some(Disposition(main, args[0], args[1], d.contentType))
    else if EqNc(CStr(attr), TypeHeader()) then
      match Decompose(CStr(value), [], 0)
      case NullWrite => None
      case Parsed(main, _) => Some(d.(contentType := main))
    else Some(d)
  }

  function HeaderBlock(text: seq<byte>, d: Disposition): (r: Option<(Disposition, seq<byte>)>)
    ensures r.Some? ==> |r.value.1| <= |text|
    decreases |text|
  {
    var h := HeaderLine(text);
    if !h.ok then Some((d, h.rest))
    else match TakeHeader(d, h.attr, h.value)
      case None => None
      case Some(next) => HeaderBlock(h.rest, next)
  }

  function EntryOf(d: Disposition, body: seq<byte>): Entry {
    if d.fileName != [] then Entry(d.name, [], |body|, d.fileName, d.contentType, Some(body))
    else Entry(d.name, body, |body|, [], d.contentType, None)
  }

  /** One turn of the driver loop: it stops, or it has dealt with a part, which
      is an entry if it is form data. */
  datatype PartStep = Stop(result: ParseResult) | Part(entries: seq<Entry>, rest: seq<byte>)

  function NextPart(text: seq<byte>, boundary: seq<byte>): (s: PartStep)
    ensures s.Part? ==> |s.rest| < |text|
  {
    if |text| < 2 || text[..2] == [DASH, DASH] then Stop(Success)
    else match HeaderBlock(text, NOTHING)
      case None => Stop(Fault)
      case Some((d, rest)) =>
        match SplitAt(rest, Delimiter(boundary))
        case None => Stop(IOError)
        case Some((body, after)) => Part(if EqNc(d.main, FormDataName()) then [EntryOf(d, body)] else [], after)
  }

  datatype Outcome = Outcome(result: ParseResult, entries: seq<Entry>)

  function Parts(text: seq<byte>, boundary: seq<byte>, before: seq<Entry>): Outcome
    decreases |text|
  {
    match NextPart(text, boundary)
    case Stop(result) => Outcome(result, before)
    case Part(entries, rest) => Parts(rest, boundary, before + entries)
  }

  function ParseMultipart(content: seq<byte>, boundary: seq<byte>): Outcome {
    match SplitAt(content, Opening(boundary))
    case None => Outcome(Success, [])
    case Some((_, rest)) => Parts(rest, boundary, [])
  }

  // ----- the same over the ring as it is

  datatype BlockRun = BlockRun(fault: bool, d: Disposition, flow: Flow, clean: bool)

  function BlockOf(flow: Flow, d: Disposition, clean: bool): (r: BlockRun)
    ensures |r.flow.View()| <= |flow.View()|
    decreases |flow.View()|
  {
    var line := LineOf(flow, [], [], false, clean);
    if !line.ok then BlockRun(false, d, line.flow, line.clean)
    else match TakeHeader(d, line.attr, line.value)
      case None => BlockRun(true, d, line.flow, line.clean)
      case Some(next) => BlockOf(line.flow, next, line.clean)
  }

  /** The test for the end of the submission: two bytes are read, and put back
      unless there are fewer or they are dashes. */
  predicate AtEnd(flow: Flow) {
    |flow.View()| < 2 || flow.View()[..2] == [DASH, DASH]
  }

  function Peeked(flow: Flow): (r: Flow)
    requires |flow.View()| >= 2
    ensures |r.View()| == |flow.View()|
  {
    flow.Pop(2).Push(flow.View()[..2])
  }

  datatype PartRun = Stopped(result: ParseResult, clean: bool) | Dealt(entries: seq<Entry>, flow: Flow, clean: bool)

  function PartOf(flow: Flow, boundary: seq<byte>, clean: bool): PartRun {
    if AtEnd(flow) then Stopped(Success, clean)
    else
      var block := BlockOf(Peeked(flow), NOTHING, clean && flow.Pop(2).ring == []);
      if block.fault then Stopped(Fault, block.clean)
      else match Cross(block.flow, Delimiter(boundary), block.clean)
        case Lost(tidy) => Stopped(IOError, tidy)
        case Crossed(body, after, tidy) =>
          Dealt(if EqNc(block.d.main, FormDataName()) then [EntryOf(block.d, body)] else [], after, tidy)
  }

  lemma PartConsumes(flow: Flow, boundary: seq<byte>, clean: bool)
    ensures PartOf(flow, boundary, clean).Dealt? ==> |PartOf(flow, boundary, clean).flow.View()| < |flow.View()|
  {
    hide Cross;
    if !AtEnd(flow) {
      var block := BlockOf(Peeked(flow), NOTHING, clean && flow.Pop(2).ring == []);
      CrossConsumes(block.flow, Delimiter(boundary), block.clean);
    }
  }

  function PartsOf(flow: Flow, boundary: seq<byte>, before: seq<Entry>, clean: bool): (Outcome, bool)
    decreases |flow.View()|
  {
    PartConsumes(flow, boundary, clean);
    match PartOf(flow, boundary, clean)
    case Stopped(result, tidy) => (Outcome(result, before), tidy)
    case Dealt(entries, after, tidy) => PartsOf(after, boundary, before + entries, tidy)
  }

  /** The outcome for any content, and whether every put-back of the run found the
      ring empty. */
  function ParseRun(content: seq<byte>, boundary: seq<byte>): (Outcome, bool) {
    match Cross(Flow([], content), Opening(boundary), true)
    case Lost(clean) => (Outcome(Success, []), clean)
    case Crossed(_, flow, clean) => PartsOf(flow, boundary, [], clean)
  }

  // ----- with at most two bytes in the ring, the stream is all that matters

  /** One turn of the loop over the header lines, as HeaderBlock sees it. */
  lemma HeaderBlockTurn(text: seq<byte>, d: Disposition, ok: bool, attr: seq<byte>, value: seq<byte>, rest: seq<byte>)
    requires HeaderLine(text) == Header(ok, attr, value, rest)
    ensures HeaderBlock(text, d) ==
            if !ok then Some((d, rest))
            else match TakeHeader(d, attr, value)
              case None => None
              case Some(next) => HeaderBlock(rest, next)
  {
  }

  lemma {:induction false} BlockIsHeaderBlock(flow: Flow, d: Disposition, clean: bool)
    requires |flow.ring| <= 2
    ensures var r := BlockOf(flow, d, clean);
            && r.clean == clean
            && match HeaderBlock(flow.View(), d)
               case None => r.fault
               case Some((headers, rest)) => !r.fault && r.d == headers && r.flow.View() == rest && |r.flow.ring| <= 2
    decreases |flow.View()|
  {
    hide LineOf, HeaderLine, TakeHeader, HeaderBlock, Flow.View;
    var line := LineOf(flow, [], [], false, clean);
    LineIs(flow, clean);
    HeaderBlockTurn(flow.View(), d, line.ok, line.attr, line.value, line.flow.View());
    if line.ok && TakeHeader(d, line.attr, line.value).Some? {
      BlockIsHeaderBlock(line.flow, TakeHeader(d, line.attr, line.value).value, line.clean);
    }
  }

  lemma LineIs(flow: Flow, clean: bool)
    requires |flow.ring| <= 2
    ensures var r := LineOf(flow, [], [], false, clean);
            HeaderLine(flow.View()) == Header(r.ok, r.attr, r.value, r.flow.View()) && r.clean == clean
            && |r.flow.ring| <= 2
  {
    LineOfIsHeaderLine(flow, [], [], false, clean);
  }

  lemma PeekedIs(flow: Flow)
    requires |flow.ring| <= 2 <= |flow.View()|
    ensures flow.Pop(2).ring == [] && Peeked(flow).View() == flow.View() && |Peeked(flow).ring| == 2
  {
    assert flow.View()[..2] + flow.View()[2..] == flow.View();
  }

  lemma CrossIsSplit(flow: Flow, p: seq<byte>, clean: bool)
    requires p != [] && Splits(Machine(flow, p, 0, [], true), p, flow.View())
    ensures match SplitAt(flow.View(), p)
            case None => Cross(flow, p, clean).Lost?
            case Some((body, rest)) =>
              var c := Cross(flow, p, clean);
              && c.Crossed? && c.body == body && c.flow.View() == rest && |c.flow.ring| <= 2
    ensures Cross(flow, p, clean).clean == (clean && Machine(flow, p, 0, [], true).clean)
  {
    hide Machine, SplitAt, Settle;
    CleanIsCarried(flow, p, 0, [], clean);
  }

  /** Between parts the search is exact from any ring of at most two bytes. */
  lemma DelimiterIsCrossed(flow: Flow, boundary: seq<byte>, clean: bool)
    requires ValidBoundary(boundary) && |flow.ring| <= 2
    ensures var c := Cross(flow, Delimiter(boundary), clean);
            && c.clean == clean
            && match SplitAt(flow.View(), Delimiter(boundary))
               case None => c.Lost?
               case Some((body, rest)) => c.Crossed? && c.body == body && c.flow.View() == rest && |c.flow.ring| <= 2
  {
    hide Machine, SplitAt, Settle, Splits;
    var p := Delimiter(boundary);
    DelimiterSearchIsTidy(flow, boundary);
    TidyRunSplits(flow, p);
    CrossIsSplit(flow, p, clean);
  }

  lemma PartIsNext(flow: Flow, boundary: seq<byte>, clean: bool)
    requires ValidBoundary(boundary) && |flow.ring| <= 2
    ensures var r := PartOf(flow, boundary, clean);
            && r.clean == clean
            && match NextPart(flow.View(), boundary)
               case Stop(result) => r == Stopped(result, clean)
               case Part(entries, rest) =>
                 r.Dealt? && r.entries == entries && r.flow.View() == rest && |r.flow.ring| <= 2
  {
    hide BlockOf, HeaderBlock, Cross, SplitAt, Flow.View, Peeked;
    if !AtEnd(flow) {
      PeekedIs(flow);
      BlockIsHeaderBlock(Peeked(flow), NOTHING, clean);
      var block := BlockOf(Peeked(flow), NOTHING, clean);
      if !block.fault {
        DelimiterIsCrossed(block.flow, boundary, clean);
      }
    }
  }

  lemma {:induction false} PartsOfIsParts(flow: Flow, boundary: seq<byte>, before: seq<Entry>, clean: bool)
    requires ValidBoundary(boundary) && |flow.ring| <= 2
    ensures PartsOf(flow, boundary, before, clean) == (Parts(flow.View(), boundary, before), clean)
    decreases |flow.View()|
  {
    hide PartOf, NextPart, Flow.View;
    PartIsNext(flow, boundary, clean);
    PartConsumes(flow, boundary, clean);
    var r := PartOf(flow, boundary, clean);
    if r.Dealt? {
      PartsOfIsParts(r.flow, boundary, before + r.entries, clean);
    }
  }

  /** The search for the first boundary leaves the stream behind its first
      occurrence, with nothing in the ring. What it emits does not matter. */
  ghost predicate OpensRight(content: seq<byte>, boundary: seq<byte>) {
    var r := Machine(Flow([], content), Opening(boundary), 0, [], true);
    Left(r) == Plain(Wanted(content, Opening(boundary)))
  }

  lemma OpeningIsCrossed(content: seq<byte>, boundary: seq<byte>)
    requires OpensRight(content, boundary)
    ensures var c := Cross(Flow([], content), Opening(boundary), true);
            && c.clean == Machine(Flow([], content), Opening(boundary), 0, [], true).clean
            && match SplitAt(content, Opening(boundary))
               case None => c.Lost?
               case Some((_, rest)) => c.Crossed? && c.flow.View() == rest && |c.flow.ring| <= 2
  {
    hide Machine, Find;
    var r := Machine(Flow([], content), Opening(boundary), 0, [], true);
    if r.found && |r.flow.View()| >= 2 {
      SettleView(r.flow);
    }
  }

  /** If the first boundary is found where it is, the outcome is that of the
      reference, and any put-back that finds the ring in use is one of that search. */
  lemma ParseRunIsReference(content: seq<byte>, boundary: seq<byte>)
    requires ValidBoundary(boundary) && OpensRight(content, boundary)
    ensures ParseRun(content, boundary) ==
            (ParseMultipart(content, boundary), Machine(Flow([], content), Opening(boundary), 0, [], true).clean)
  {
    hide Cross, SplitAt, Parts, PartsOf, Machine, OpensRight;
    OpeningIsCrossed(content, boundary);
    var c := Cross(Flow([], content), Opening(boundary), true);
    if c.Crossed? {
      PartsOfIsParts(c.flow, boundary, [], c.clean);
    }
  }

  lemma TidyOpensRight(content: seq<byte>, boundary: seq<byte>)
    requires Tidy(Machine(Flow([], content), Opening(boundary), 0, [], true), true)
    ensures OpensRight(content, boundary)
  {
    hide Machine, Find;
    TidyIsExact(content, Opening(boundary));
    var r := Machine(Flow([], content), Opening(boundary), 0, [], true);
    assert r.found ==> [] + r.flow.rest == r.flow.rest;
  }

  /** For a boundary whose opening passes the table test, the outcome is that of the
      reference for every content, whatever precedes the first boundary. */
  lemma EveryContentIsParsed(content: seq<byte>, boundary: seq<byte>, pairs: set<(nat, nat)>)
    requires ValidBoundary(boundary) && (0, 0) in pairs && Closed(Opening(boundary), pairs)
    ensures OpensRight(content, boundary) && ParseRun(content, boundary).0 == ParseMultipart(content, boundary)
  {
    hide Machine, Find, Closed, ParseRun, ParseMultipart;
    var p := Opening(boundary);
    ClosedPlacesRight(p, pairs, 0, 0, content);
    assert p[..0] + content == content;
    ParseRunIsReference(content, boundary);
  }

  // ----- the code

  /** What the driver does with one header line. */
  method ApplyHeader(d: Disposition, attr: seq<byte>, value: seq<byte>) returns (r: Option<Disposition>)
    ensures r == TakeHeader(d, attr, value)
  {
    hide EqNc, CStr, Decompose;
    r := Some(d);
    if EqNc(CStr(attr), DispositionHeader()) {
      var parsed := DecomposeValue(CStr(value), [NameKey(), FileNameKey()], SPACE_OF_LINE);
      match parsed {
        case NullWrite => r := None;
        case Parsed(main, args) => r := Some(Disposition(main, args[0], args[1], d.contentType));
      }
    } else if EqNc(CStr(attr), TypeHeader()) {
      var parsed := DecomposeValue(CStr(value), [], 0);
      match parsed {
        case NullWrite => r := None;
        case Parsed(main, _) => r := Some(d.(contentType := main));
      }
    }
  }

  method ReadHeaders(mpp: MpStream) returns (ok: bool, d: Disposition)
    requires mpp.Valid()
    modifies mpp, mpp.putback
    ensures mpp.Valid() && mpp.offset >= old(mpp.offset) && mpp.peak <= Max(old(mpp.peak), 1)
    ensures BlockRun(!ok, d, mpp.State(), mpp.pushFront) == BlockOf(old(mpp.State()), NOTHING, old(mpp.pushFront))
  {
    hide MpStream.State, Recorded, LineOf, TakeHeader, Flow.View;
    d := NOTHING;
    while true
      invariant mpp.Valid() && mpp.offset >= old(mpp.offset) && mpp.peak <= Max(old(mpp.peak), 1)
      invariant BlockOf(mpp.State(), d, mpp.pushFront) == BlockOf(old(mpp.State()), NOTHING, old(mpp.pushFront))
      decreases mpp.contentLength - mpp.offset
    {
      var more, attr, value := ReadHeaderLine(mpp);
      if !more {
        return true, d;
      }
      var taken := ApplyHeader(d, attr, value);
      match taken {
        case None => return false, d;
        case Some(next) => d := next;
      }
    }
  }

  method CheckEnd(mpp: MpStream) returns (end: bool)
    requires mpp.Valid()
    modifies mpp, mpp.putback
    ensures mpp.Valid() && mpp.offset >= old(mpp.offset) && mpp.peak <= Max(old(mpp.peak), 2)
    ensures end == AtEnd(old(mpp.State()))
    ensures end ==> mpp.pushFront == old(mpp.pushFront)
    ensures !end ==> mpp.State() == Peeked(old(mpp.State()))
                     && mpp.pushFront == (old(mpp.pushFront) && old(mpp.State()).Pop(2).ring == [])
  {
    hide Recorded;
    var got, d := mpp.Read(2);
    end := got < 2 || (d[0] == DASH && d[1] == DASH);
    if !end {
      mpp.PutBack(d);
    }
  }

  /** One turn of the driver loop. */
  method ReadPart(mpp: MpStream, boundary: seq<byte>)
    returns (stop: bool, result: ParseResult, entries: seq<Entry>)
    requires mpp.Valid() && mpp.peak <= Room(boundary) && ValidBoundary(boundary)
    modifies mpp, mpp.putback
    ensures mpp.Valid() && mpp.peak <= Room(boundary)
    ensures !stop ==> mpp.offset > old(mpp.offset)
    ensures PartOf(old(mpp.State()), boundary, old(mpp.pushFront)) ==
            if stop then Stopped(result, mpp.pushFront) else Dealt(entries, mpp.State(), mpp.pushFront)
  {
    hide BlockOf, Cross, Recorded, MpStream.State, Flow.View, Flow.Pop, AtEnd, Peeked;
    entries := [];
    var end := CheckEnd(mpp);
    if end {
      return true, Success, [];
    }
    var ok, headers := ReadHeaders(mpp);
    if !ok {
      return true, Fault, [];
    }
    var formData := EqNc(headers.main, FormDataName());
    var sink := if !formData then Discard else if headers.fileName != [] then File else Memory;
    var body, bodyLength;
    result, body, bodyLength := AfterNextBoundary(mpp, boundary, sink, false);
    stop := result != Success;
    if !stop && formData {
      entries := [EntryOf(headers, body)];
    }
  }

  /** Everything behind the first boundary. */
  method ReadParts(mpp: MpStream, boundary: seq<byte>) returns (result: ParseResult, entries: seq<Entry>)
    requires mpp.Valid() && mpp.peak <= Room(boundary) && ValidBoundary(boundary)
    modifies mpp, mpp.putback
    ensures mpp.Valid() && mpp.peak <= Room(boundary)
    ensures (Outcome(result, entries), mpp.pushFront) == PartsOf(old(mpp.State()), boundary, [], old(mpp.pushFront))
  {
    hide PartOf, Recorded, MpStream.State, Flow.View;
    entries := [];
    while true
      invariant mpp.Valid() && mpp.peak <= Room(boundary)
      invariant PartsOf(mpp.State(), boundary, entries, mpp.pushFront) ==
                PartsOf(old(mpp.State()), boundary, [], old(mpp.pushFront))
      decreases mpp.contentLength - mpp.offset
    {
      var stop, found;
      stop, result, found := ReadPart(mpp, boundary);
      if stop {
        return;
      }
      entries := entries + found;
    }
  }

  /** The parser on a fresh stream: whatever it holds, the outcome, whether every
      put-back found the ring empty, and the most that the ring ever held. */
  method ParseStream(mpp: MpStream, boundary: seq<byte>) returns (result: ParseResult, entries: seq<Entry>)
    requires mpp.Valid() && mpp.ring == [] && mpp.episodes == [] && mpp.pushFront && mpp.peak == 0
    requires ValidBoundary(boundary)
    modifies mpp, mpp.putback
    ensures mpp.Valid() && mpp.peak <= Room(boundary)
    ensures (Outcome(result, entries), mpp.pushFront) == ParseRun(old(mpp.State()).View(), boundary)
  {
    hide Cross, PartsOf, Recorded;
    assert mpp.State() == Flow([], mpp.State().View());
    var body, bodyLength;
    result, body, bodyLength := AfterNextBoundary(mpp, boundary, Discard, true);
    if result != Success {
      return Success, [];
    }
    result, entries := ReadParts(mpp, boundary);
  }

  lemma EmptyRun(boundary: seq<byte>)
    ensures ParseRun([], boundary) == (Outcome(Success, []), true)
  {
  }

  /** What the record of a stream comes to. */
  lemma RecordSays(mpp: MpStream)
    requires mpp.Valid()
    ensures mpp.pushFront <==> forall i :: 0 <= i < |mpp.episodes| ==> mpp.episodes[i].before == 0
    ensures forall i :: 0 <= i < |mpp.episodes| ==> mpp.episodes[i].after <= mpp.peak
  {
  }

  /** The parser. For every input it comes to an end, with the outcome of ParseRun;
      `episodes` are its put-backs: the ring never holds more than a delimiter less
      one byte, and was empty before each of them exactly when ParseRun says so. */
  method ParsePostMultipartInput(input: seq<byte>, contentLength: nat, boundary: seq<byte>)
    returns (result: ParseResult, entries: seq<Entry>, ghost episodes: seq<Episode>)
    requires ValidBoundary(boundary)
    ensures Outcome(result, entries) == ParseRun(input[..Min(|input|, contentLength)], boundary).0
    ensures ParseRun(input[..Min(|input|, contentLength)], boundary).1 <==>
            forall i :: 0 <= i < |episodes| ==> episodes[i].before == 0
    ensures forall i :: 0 <= i < |episodes| ==> episodes[i].after <= |boundary| + 3
  {
    hide ParseRun, Recorded;
    ghost var content := input[..Min(|input|, contentLength)];
    if contentLength == 0 {
      EmptyRun(boundary);
      assert content == [];
      return Success, [], [];
    }
    var mpp := new MpStream(input, contentLength);
    assert mpp.State().View() == content;
    result, entries := ParseStream(mpp, boundary);
    RecordSays(mpp);
    episodes := mpp.episodes;
  }
}
