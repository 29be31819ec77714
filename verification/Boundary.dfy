// afterNextBoundary: copies a body up to the next boundary.
module Boundaries {
  import opened Bytes
  import opened MpStreams
  import opened Search

  datatype ParseResult = Success | IOError | Fault

  /** Where the body goes: nowhere, a growing memory block, or an upload file. */
  datatype Sink = Discard | Memory | File

  /** The boundary parameter comes from a buffer of 1024 bytes that also holds
      "boundary=" and what precedes it, and it is cut at the first whitespace. */
  const MAX_BOUNDARY: nat := 1013

  ghost predicate ValidBoundary(boundary: seq<byte>) {
    |boundary| <= MAX_BOUNDARY && forall i :: 0 <= i < |boundary| ==> boundary[i] != NUL && !IsSpace(boundary[i])
  }

  function Opening(boundary: seq<byte>): seq<byte> {
    [DASH, DASH] + boundary
  }

  function Delimiter(boundary: seq<byte>): seq<byte> {
    [CR, LF] + Opening(boundary)
  }

  function Working(boundary: seq<byte>, first: bool): (p: seq<byte>)
    ensures 2 <= |p| <= 4 + |boundary|
  {
    if first then Opening(boundary) else Delimiter(boundary)
  }

  lemma DelimiterHeadIsUnique(boundary: seq<byte>)
    requires ValidBoundary(boundary)
    ensures HeadIsUnique(Delimiter(boundary))
  {
  }

  /** A body in front of the first occurrence of p, and the text after the two
      bytes that follow it, unless the first of these is a dash: then both are
      still to be read. */
  function SplitAt(text: seq<byte>, p: seq<byte>): (r: Option<(seq<byte>, seq<byte>)>)
    ensures r.Some? ==> |r.value.0| + |p| + |r.value.1| <= |text|
  {
    match Find(text, p)
    case None => None
    case Some(j) =>
      var tail := text[j + |p|..];
      if |tail| < 2 then None else Some((text[..j], if tail[0] == DASH then tail else tail[2..]))
  }

  /** The stream after the two bytes that follow a match have been dealt with. */
  function Settle(flow: Flow): Flow
    requires |flow.View()| >= 2
  {
    if flow.View()[0] == DASH then flow.Pop(2).Push(flow.View()[..2]) else flow.Pop(2)
  }

  /** The scan r, together with the two bytes behind it, has the outcome that
      SplitAt describes for the text, and leaves at most two bytes in the ring. */
  ghost predicate Splits(r: Scan, p: seq<byte>, text: seq<byte>) {
    match SplitAt(text, p)
    case None => !r.found || |r.flow.View()| < 2
    case Some((body, rest)) =>
      r.found && |r.flow.View()| >= 2 && r.out == body && r.flow.Pop(2).ring == []
      && Settle(r.flow).View() == rest && |Settle(r.flow).ring| <= 2
  }

  lemma SettleView(flow: Flow)
    requires flow.ring == [] && |flow.View()| >= 2
    ensures flow.Pop(2).ring == [] && |Settle(flow).ring| <= 2
    ensures Settle(flow).View() == if flow.View()[0] == DASH then flow.View() else flow.View()[2..]
  {
    assert flow.View()[..2] + flow.View()[2..] == flow.View();
  }

  lemma LocatedSplits(r: Scan, p: seq<byte>, text: seq<byte>)
    requires Located(r, p, text, []) && (r.found ==> r.flow.ring == [])
    ensures Splits(r, p, text)
  {
  }

  lemma TidyRunSplits(flow: Flow, p: seq<byte>)
    requires p != [] && Tidy(Machine(flow, p, 0, [], true), true)
    ensures Splits(Machine(flow, p, 0, [], true), p, flow.View())
  {
    hide Machine, Splits, Located;
    CleanRunsAreExact(flow, p, 0, [], true);
    assert p[..0] + flow.View() == flow.View();
    LocatedSplits(Machine(flow, p, 0, [], true), p, flow.View());
  }

  /** Between parts the search is always tidy. */
  lemma DelimiterSearchIsTidy(flow: Flow, boundary: seq<byte>)
    requires ValidBoundary(boundary) && |flow.ring| <= 2
    ensures Tidy(Machine(flow, Delimiter(boundary), 0, [], true), true)
  {
    DelimiterHeadIsUnique(boundary);
    UniqueHeadRunsClean(flow, Delimiter(boundary), 0, [], true);
  }

  /** The search for the first boundary is tidy when nothing, or nothing with a
      dash, precedes it, and for a boundary of dashes and at most one other byte. */
  lemma OpeningSearchIsTidy(text: seq<byte>, boundary: seq<byte>)
    requires OpensCleanly(text, Opening(boundary)) || RunThenOne(Opening(boundary))
    ensures Tidy(Machine(Flow([], text), Opening(boundary), 0, [], true), true)
  {
    if OpensCleanly(text, Opening(boundary)) {
      CleanOpeningRunsClean(text, Opening(boundary), [], true);
    } else {
      RunThenOneRunsClean(Flow([], text), Opening(boundary), 0, [], true);
    }
  }

  class BodyBuffer {
    const sink: Sink
    var out: array<byte>
    var outLen: nat
    var outSpace: nat
    /** The bytes written to the upload file. */
    var file: seq<byte>
    /** The body so far; nothing when it is not kept. */
    ghost var content: seq<byte>

    /** There is always room for the final NUL. */
    ghost predicate Valid()
      reads this, out
    {
      match sink
      case Discard => outLen == 0 && content == []
      case Memory => outLen < outSpace == out.Length && content == out[..outLen]
      case File => outLen == |file| && content == file
    }

    constructor (sink: Sink)
      ensures Valid() && fresh(out) && this.sink == sink && content == []
    {
      this.sink := sink;
      out := new byte[256](_ => 0);
      outLen, outSpace, file := 0, 256, [];
      content := [];
    }

    method Append(bytes: seq<byte>)
      requires Valid() && |bytes| <= 1
      modifies this, out
      ensures Valid() && (out == old(out) || fresh(out))
      ensures content == if sink.Discard? then [] else old(content) + bytes
    {
      if bytes != [] {
        match sink {
          case Discard =>
          case File =>
            file := file + bytes;
            outLen := outLen + 1;
          case Memory =>
            if outLen + 1 == outSpace {
              Grow();
            }
            out[outLen] := bytes[0];
            outLen := outLen + 1;
        }
      }
      content := if sink.Discard? then [] else content + bytes;
    }

    method Grow()
      requires Valid() && sink.Memory? && outSpace > 0
      modifies this
      ensures Valid() && fresh(out) && outSpace == 2 * old(outSpace)
      ensures outLen == old(outLen) && content == old(content)
    {
      outSpace := outSpace * 2;
      var bigger := new byte[outSpace];
      forall i | 0 <= i < outLen {
        bigger[i] := out[i];
      }
      out := bigger;
    }

    /** Adds the final NUL to a memory block and hands over the body. */
    method Finish() returns (body: seq<byte>, bodyLength: nat)
      requires Valid()
      modifies out
      ensures body == old(content) && bodyLength == |body|
    {
      match sink {
        case Discard =>
          body := [];
        case File =>
          body := file;
        case Memory =>
          body := out[..outLen];
          out[outLen] := NUL;
      }
      bodyLength := outLen;
    }
  }

  /** The outcome of a search and what follows it: the body and the stream, or
      the input has ended. */
  datatype Crossing = Crossed(body: seq<byte>, flow: Flow, clean: bool) | Lost(clean: bool)

  function Cross(flow: Flow, p: seq<byte>, clean: bool): (c: Crossing)
    requires p != []
  {
    var r := Machine(flow, p, 0, [], clean);
    if r.found && |r.flow.View()| >= 2 then
      Crossed(r.out, Settle(r.flow), r.clean && (r.flow.View()[0] == DASH ==> r.flow.Pop(2).ring == []))
    else Lost(r.clean)
  }

  lemma {:induction false} MatchConsumes(flow: Flow, p: seq<byte>, k: nat, out: seq<byte>, clean: bool)
    requires k < |p|
    ensures var r := Machine(flow, p, k, out, clean); r.found ==> |r.flow.View()| + |p| <= |flow.View()| + k
    decreases |flow.View()| + k, |flow.View()|
  {
    hide Step;
    if flow.View() != [] {
      var t := Step(flow, p, k);
      if t.k < |p| {
        MatchConsumes(t.flow, p, t.k, Plus(out, t.emits), clean && t.clean);
      }
    }
  }

  lemma CrossConsumes(flow: Flow, p: seq<byte>, clean: bool)
    requires p != []
    ensures match Cross(flow, p, clean)
            case Lost(_) => true
            case Crossed(_, after, _) => |after.View()| + |p| <= |flow.View()|
  {
    hide Machine;
    MatchConsumes(flow, p, 0, [], clean);
  }

  /** A partial match has failed: all of it but the first byte goes back, and the
      byte that did not match. */
  method BackUp(mpp: MpStream, p: seq<byte>, boffset: nat, d: seq<byte>)
    requires mpp.Valid() && 0 < boffset < |p| && |d| == 1
    requires |mpp.ring| + boffset < RING_SIZE && boffset <= mpp.offset
    modifies mpp, mpp.putback
    ensures mpp.Valid() && mpp.State() == Resume(old(mpp.State()), p, boffset, d[0])
    ensures |mpp.ring| == |old(mpp.ring)| + boffset && mpp.offset == old(mpp.offset) - boffset
    ensures mpp.pushFront == (old(mpp.pushFront) && old(mpp.ring) == [])
    ensures mpp.peak == Max(old(mpp.peak), |mpp.ring|)
  {
    hide Recorded;
    ghost var ring := mpp.ring;
    mpp.PutBack(p[1..boffset]);
    mpp.PutBack(d, boffset - 1);
    assert ring + p[1..boffset] + d == ring + (p[1..boffset] + [d[0]]);
  }

  /** The ring has room for a match of k bytes to be put back: it never holds more
      than `room` bytes. */
  ghost predicate Fits(ring: seq<byte>, k: nat, room: nat) {
    |ring| <= room && k <= room + 1 && (ring != [] ==> |ring| + k <= room)
  }

  /** One turn of the search loop: the stream is exhausted (got is false), or a
      byte has been read, the match is now `next` bytes long, and `emits` is to be
      added to the body. */
  method ScanByte(mpp: MpStream, p: seq<byte>, boffset: nat, ghost room: nat)
    returns (got: bool, next: nat, emits: seq<byte>)
    requires mpp.Valid() && boffset < |p| <= room + 1 < RING_SIZE && boffset <= mpp.offset
    requires Fits(mpp.ring, boffset, room) && mpp.peak <= room
    modifies mpp, mpp.putback
    ensures mpp.Valid() && next <= |p| && |emits| <= 1
    ensures Fits(mpp.ring, next, room) && mpp.peak <= room
    ensures got <==> old(mpp.State()).View() != []
    ensures got ==> if next == boffset + 1 then mpp.offset == old(mpp.offset) + 1
                    else next == 0 && mpp.offset == old(mpp.offset) + 1 - boffset
    ensures if got then
              var t := Step(old(mpp.State()), p, boffset);
              && next == t.k && emits == t.emits && mpp.State() == t.flow
              && mpp.pushFront == (old(mpp.pushFront) && t.clean)
            else
              next == boffset && emits == [] && mpp.State() == old(mpp.State())
              && mpp.pushFront == old(mpp.pushFront) && mpp.offset == old(mpp.offset)
  {
    hide Recorded;
    emits, next := [], boffset;
    var d;
    got, d := mpp.ReadByte();
    if !got {
      return;
    }
    if d == p[boffset] {
      next := boffset + 1;
    } else if boffset > 0 {
      emits := [p[0]];
      BackUp(mpp, p, boffset, [d]);
      next := 0;
    } else {
      emits := [d];
    }
  }

  /** The search loop. It ends because every turn lowers the pair of what is
      still unread plus the matched bytes, and what is still unread, although it
      puts bytes back. The ring never holds more than it held before, or than the
      pattern has bytes less one. */
  method ScanLoop(mpp: MpStream, p: seq<byte>, buffer: BodyBuffer) returns (found: bool)
    requires mpp.Valid() && buffer.Valid() && buffer.content == [] && buffer.out != mpp.putback
    requires 2 <= |p| < RING_SIZE && mpp.peak + 1 < RING_SIZE
    modifies mpp, mpp.putback, buffer, buffer.out
    ensures mpp.Valid() && mpp.peak <= Max(old(mpp.peak), |p| - 1)
    ensures buffer.Valid() && (buffer.out == old(buffer.out) || fresh(buffer.out))
    ensures var r := Machine(old(mpp.State()), p, 0, [], old(mpp.pushFront));
            && found == r.found && mpp.State() == r.flow && mpp.pushFront == r.clean
            && buffer.content == if buffer.sink.Discard? then [] else r.out
    ensures found ==> mpp.offset >= old(mpp.offset) + |p|
  {
    hide Step, Recorded;
    var boffset: nat := 0;
    ghost var room := Max(mpp.peak, |p| - 1);
    ghost var r := Machine(mpp.State(), p, 0, [], mpp.pushFront);
    ghost var out: seq<byte> := [];
    while boffset < |p|
      invariant mpp.Valid() && boffset <= |p| && Fits(mpp.ring, boffset, room) && mpp.peak <= room
      invariant buffer.Valid() && (buffer.out == old(buffer.out) || fresh(buffer.out))
      invariant buffer.content == if buffer.sink.Discard? then [] else out
      invariant mpp.offset >= old(mpp.offset) + boffset
      invariant r == if boffset == |p| then Scan(true, out, mpp.State(), mpp.pushFront)
                     else Machine(mpp.State(), p, boffset, out, mpp.pushFront)
      decreases mpp.contentLength - mpp.offset + boffset, mpp.contentLength - mpp.offset
    {
      var got, next, emits := ScanByte(mpp, p, boffset, room);
      buffer.Append(emits);
      out := Plus(out, emits);
      if !got {
        return false;
      }
      boffset := next;
    }
    return true;
  }

  /** The two bytes behind a match. */
  method ReadTrailer(mpp: MpStream) returns (ok: bool)
    requires mpp.Valid()
    modifies mpp, mpp.putback
    ensures mpp.Valid() && mpp.offset >= old(mpp.offset) && mpp.peak <= Max(old(mpp.peak), 2)
    ensures ok <==> |old(mpp.State()).View()| >= 2
    ensures !ok ==> mpp.State().View() == [] && mpp.pushFront == old(mpp.pushFront)
    ensures ok ==> mpp.State() == Settle(old(mpp.State()))
    ensures ok ==> mpp.pushFront == (old(mpp.pushFront) &&
                                     (old(mpp.State()).View()[0] == DASH ==> old(mpp.State()).Pop(2).ring == []))
  {
    hide Recorded;
    var got, d := mpp.Read(2);
    if got != 2 {
      return false;
    }
    if d[0] == CR && d[1] == LF {
    } else if d[0] == DASH {
      mpp.PutBack(d);
    }
    return true;
  }

  /** The most that the ring ever has to hold: a delimiter less one byte. */
  function Room(boundary: seq<byte>): nat {
    |boundary| + 3
  }

  /** Copies the body and moves the stream past the next boundary. The outcome is
      that of the machine, for every stream and whatever the ring holds. */
  method AfterNextBoundary(mpp: MpStream, boundary: seq<byte>, sink: Sink, first: bool)
    returns (result: ParseResult, body: seq<byte>, bodyLength: nat)
    requires mpp.Valid() && mpp.peak <= Room(boundary) && ValidBoundary(boundary)
    modifies mpp, mpp.putback
    ensures mpp.Valid() && mpp.peak <= Room(boundary) && bodyLength == |body|
    ensures match Cross(old(mpp.State()), Working(boundary, first), old(mpp.pushFront))
            case Crossed(b, flow, clean) =>
              && result == Success && body == (if sink.Discard? then [] else b)
              && mpp.State() == flow && mpp.pushFront == clean
            case Lost(clean) =>
              result == IOError && body == [] && mpp.State().View() == [] && mpp.pushFront == clean
    ensures result == Success ==> mpp.offset >= old(mpp.offset) + |Working(boundary, first)|
  {
    hide Settle, Recorded;
    var buffer := new BodyBuffer(sink);
    var found := ScanLoop(mpp, Working(boundary, first), buffer);
    if !found {
      return IOError, [], 0;
    }
    var ok := ReadTrailer(mpp);
    if !ok {
      return IOError, [], 0;
    }
    body, bodyLength := buffer.Finish();
    result := Success;
  }
}
