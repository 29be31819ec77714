// Header lines and the parameters of their values.
module Headers {
  import opened Bytes
  import opened MpStreams
  import opened Boundaries

  /** The space of the caller's buffers, the final NUL included. */
  const SPACE_OF_LINE: nat := 1024

  /** What readHeaderLine makes of the stream: whether a header was read, the two
      buffers, and the rest of the stream. */
  datatype Header = Header(ok: bool, attr: seq<byte>, value: seq<byte>, rest: seq<byte>)

  function Add(buffer: seq<byte>, b: byte): seq<byte> {
    if |buffer| < SPACE_OF_LINE - 1 then buffer + [b] else buffer
  }

  function Skip(s: seq<byte>, c: Class): (r: seq<byte>)
    ensures |r| == |s| - Span(s, c)
    ensures r != [] ==> !c.Has(r[0])
  {
    s[Span(s, c)..]
  }

  function EndOfLine(attr: seq<byte>, value: seq<byte>, rest: seq<byte>): Header {
    Header(attr != [] && value != [], attr, value, rest)
  }

  /** The rest of a header line, given what the buffers hold and whether a colon
      has been seen. */
  function HeaderChars(text: seq<byte>, attr: seq<byte>, value: seq<byte>, colon: bool): (h: Header)
    ensures |h.rest| <= |text| && (h.ok ==> |h.rest| < |text|)
  {
    if text == [] then Header(false, attr, value, [])
    else
      var d, rest := text[0], text[1..];
      if d == CR then EndOfLine(attr, value, if rest != [] && rest[0] == LF then rest[1..] else rest)
      else if d == LF then EndOfLine(attr, value, rest)
      else if d == COLON && attr != [] then HeaderChars(Skip(rest, Spaces), attr, value, true)
      else if colon then HeaderChars(rest, attr, Add(value, d), true)
      else HeaderChars(rest, if IsSpace(d) then attr else Add(attr, d), value, false)
  }

  function HeaderLine(text: seq<byte>): Header {
    HeaderChars(text, [], [], false)
  }

  // ----- the same over the ring as it is

  /** A byte is put back. */
  function Unread(flow: Flow, d: byte, clean: bool): (r: (Flow, bool))
    ensures |r.0.View()| == |flow.View()| + 1
  {
    (flow.Push([d]), clean && flow.ring == [])
  }

  /** The loop that skips whitespace behind a colon: the first other byte is read,
      and put back. */
  function Skipped(flow: Flow, clean: bool): (r: (Flow, bool))
    ensures |r.0.View()| <= |flow.View()|
    decreases |flow.View()|
  {
    if flow.View() == [] then (flow, clean)
    else if IsSpace(flow.View()[0]) then Skipped(flow.Pop(1), clean)
    else Unread(flow.Pop(1), flow.View()[0], clean)
  }

  /** Behind a CR, a byte other than LF is put back. */
  function Terminated(flow: Flow, clean: bool): (r: (Flow, bool))
    ensures |r.0.View()| <= |flow.View()|
  {
    if flow.View() == [] then (flow, clean)
    else if flow.View()[0] == LF then (flow.Pop(1), clean)
    else Unread(flow.Pop(1), flow.View()[0], clean)
  }

  datatype LineRun = LineRun(ok: bool, attr: seq<byte>, value: seq<byte>, flow: Flow, clean: bool)

  /** What readHeaderLine makes of any stream, whatever the ring holds; and whether
      its put-backs found the ring empty. */
  function LineOf(flow: Flow, attr: seq<byte>, value: seq<byte>, colon: bool, clean: bool): (r: LineRun)
    ensures |r.flow.View()| <= |flow.View()| && (r.ok ==> |r.flow.View()| < |flow.View()|)
    decreases |flow.View()|
  {
    if flow.View() == [] then LineRun(false, attr, value, flow, clean)
    else
      var d, next := flow.View()[0], flow.Pop(1);
      if d == CR then
        var (end, tidy) := Terminated(next, clean);
        LineRun(attr != [] && value != [], attr, value, end, tidy)
      else if d == LF then LineRun(attr != [] && value != [], attr, value, next, clean)
      else if d == COLON && attr != [] then
        var (after, tidy) := Skipped(next, clean);
        LineOf(after, attr, value, true, tidy)
      else if colon then LineOf(next, attr, Add(value, d), true, clean)
      else LineOf(next, if IsSpace(d) then attr else Add(attr, d), value, false, clean)
  }

  method SkipSpaces(mpp: MpStream)
    requires mpp.Valid()
    modifies mpp, mpp.putback
    ensures mpp.Valid() && mpp.offset >= old(mpp.offset) && mpp.peak <= Max(old(mpp.peak), 1)
    ensures (mpp.State(), mpp.pushFront) == Skipped(old(mpp.State()), old(mpp.pushFront))
  {
    hide MpStream.State, Recorded, Flow.View, Flow.Pop, Flow.Push;
    while true
      invariant mpp.Valid() && mpp.offset >= old(mpp.offset) && mpp.peak <= Max(old(mpp.peak), 1)
      invariant Skipped(mpp.State(), mpp.pushFront) == Skipped(old(mpp.State()), old(mpp.pushFront))
      decreases mpp.contentLength - mpp.offset
    {
      RingOf(mpp);
      var got, d := mpp.ReadByte();
      if !got {
        return;
      }
      if !IsSpace(d) {
        RingOf(mpp);
        mpp.PutBackByte(d);
        return;
      }
    }
  }

  lemma RingOf(mpp: MpStream)
    requires mpp.Valid()
    ensures mpp.State().ring == mpp.ring && |mpp.ring| <= mpp.peak
    ensures |mpp.ring| < RING_SIZE
  {
  }

  /** The end of a line behind a CR. */
  method SkipLineFeed(mpp: MpStream)
    requires mpp.Valid()
    modifies mpp, mpp.putback
    ensures mpp.Valid() && mpp.offset >= old(mpp.offset) && mpp.peak <= Max(old(mpp.peak), 1)
    ensures (mpp.State(), mpp.pushFront) == Terminated(old(mpp.State()), old(mpp.pushFront))
  {
    hide MpStream.State, Recorded, Flow.View, Flow.Pop, Flow.Push;
    RingOf(mpp);
    var got, d := mpp.ReadByte();
    if got && d != LF {
      RingOf(mpp);
      mpp.PutBackByte(d);
    }
  }

  method ReadHeaderLine(mpp: MpStream) returns (ok: bool, attr: seq<byte>, value: seq<byte>)
    requires mpp.Valid()
    modifies mpp, mpp.putback
    ensures mpp.Valid() && mpp.offset >= old(mpp.offset) && mpp.peak <= Max(old(mpp.peak), 1)
    ensures ok ==> mpp.offset > old(mpp.offset)
    ensures LineRun(ok, attr, value, mpp.State(), mpp.pushFront) ==
            LineOf(old(mpp.State()), [], [], false, old(mpp.pushFront))
  {
    hide MpStream.State, Recorded, Skipped, Terminated, Flow.View, Flow.Pop;
    attr, value := [], [];
    var colon := false;
    while true
      invariant mpp.Valid() && mpp.offset >= old(mpp.offset) && mpp.peak <= Max(old(mpp.peak), 1)
      invariant attr != [] ==> mpp.offset > old(mpp.offset)
      invariant LineOf(mpp.State(), attr, value, colon, mpp.pushFront) ==
                LineOf(old(mpp.State()), [], [], false, old(mpp.pushFront))
      decreases mpp.contentLength - mpp.offset
    {
      var got, d := mpp.ReadByte();
      if !got {
        return false, attr, value;
      }
      if d == CR {
        SkipLineFeed(mpp);
        break;
      } else if d == LF {
        break;
      } else if d == COLON && attr != [] {
        colon := true;
        SkipSpaces(mpp);
      } else if colon {
        value := Add(value, d);
      } else if !IsSpace(d) {
        attr := Add(attr, d);
      }
    }
    ok := attr != [] && value != [];
  }

  // ----- with at most two bytes in the ring, the stream is all that matters

  lemma HeadAndTail(flow: Flow)
    requires flow.View() != []
    ensures flow.Pop(1).View() == flow.View()[1..]
    ensures |flow.Pop(1).ring| == if flow.ring == [] then 0 else |flow.ring| - 1
  {
  }

  lemma UnreadRestores(flow: Flow, clean: bool)
    requires flow.View() != [] && |flow.ring| <= 1
    ensures var r := Unread(flow.Pop(1), flow.View()[0], clean);
            r.0.View() == flow.View() && |r.0.ring| == 1 && r.1 == clean
  {
    assert [flow.View()[0]] + flow.View()[1..] == flow.View();
  }

  lemma SkipNone(text: seq<byte>)
    requires text == [] || !IsSpace(text[0])
    ensures Skip(text, Spaces) == text
  {
  }

  lemma SkipOne(text: seq<byte>)
    requires text != [] && IsSpace(text[0])
    ensures Skip(text, Spaces) == Skip(text[1..], Spaces)
  {
  }

  lemma {:induction false} SkippedIsSkip(flow: Flow, clean: bool)
    requires |flow.ring| <= 1
    ensures var r := Skipped(flow, clean);
            r.0.View() == Skip(flow.View(), Spaces) && |r.0.ring| <= 1 && r.1 == clean
    decreases |flow.View()|
  {
    hide Unread, Skip, Flow.View, Flow.Pop;
    if flow.View() == [] {
      SkipNone([]);
    } else {
      HeadAndTail(flow);
      if IsSpace(flow.View()[0]) {
        SkipOne(flow.View());
        SkippedIsSkip(flow.Pop(1), clean);
      } else {
        SkipNone(flow.View());
        UnreadRestores(flow, clean);
      }
    }
  }

  lemma TerminatedIs(flow: Flow, clean: bool)
    requires |flow.ring| <= 1
    ensures var r, text := Terminated(flow, clean), flow.View();
            r.0.View() == (if text != [] && text[0] == LF then text[1..] else text) && |r.0.ring| <= 1 && r.1 == clean
  {
    hide Unread, Flow.View, Flow.Pop;
    if flow.View() != [] {
      HeadAndTail(flow);
      UnreadRestores(flow, clean);
    }
  }

  /** The reading of a line depends on the bytes to be read only, and every byte
      that it puts back finds the ring empty. */
  lemma {:induction false} LineOfIsHeaderLine(flow: Flow, attr: seq<byte>, value: seq<byte>, colon: bool, clean: bool)
    requires |flow.ring| <= if attr == [] then 2 else 1
    ensures var r := LineOf(flow, attr, value, colon, clean);
            && Header(r.ok, r.attr, r.value, r.flow.View()) == HeaderChars(flow.View(), attr, value, colon)
            && r.clean == clean && |r.flow.ring| <= if r.ok then 1 else 2
    decreases |flow.View()|
  {
    hide Skipped, Terminated, Skip, Flow.View, Flow.Pop;
    if flow.View() != [] {
      var d, next := flow.View()[0], flow.Pop(1);
      HeadAndTail(flow);
      if d == CR {
        TerminatedIs(next, clean);
      } else if d == LF {
      } else if d == COLON && attr != [] {
        SkippedIsSkip(next, clean);
        var (after, tidy) := Skipped(next, clean);
        LineOfIsHeaderLine(after, attr, value, true, tidy);
      } else if colon {
        LineOfIsHeaderLine(next, attr, Add(value, d), true, clean);
      } else {
        LineOfIsHeaderLine(next, if IsSpace(d) then attr else Add(attr, d), value, false, clean);
      }
    }
  }

  // ----- the value of a header and its parameters

  function QuotedOrPlain(s: seq<byte>): (r: (seq<byte>, seq<byte>))
    ensures |r.0| + |r.1| <= |s|
    ensures r.1 != [] ==> r.1[0] == SEMICOLON
  {
    if s != [] && s[0] == QUOTE then
      var n := Span(s[1..], AllBut(QUOTE));
      (s[1..][..n], Skip(Skip(s[1..], AllBut(QUOTE)), AllBut(SEMICOLON)))
    else
      var n := Span(s, AllBut(SEMICOLON));
      (s[..n], Skip(s, AllBut(SEMICOLON)))
  }

  /** The main value, and one value per wanted parameter. A parameter that is not
      wanted makes the code write its final NUL through a null pointer, unless
      no parameter is wanted at all. */
  datatype Parsed = Parsed(main: seq<byte>, args: seq<seq<byte>>) | NullWrite

  /** Where the wanted parameters list `name`; |names| if they do not. */
  function Slot(names: seq<seq<byte>>, name: seq<byte>): (k: nat)
    ensures k <= |names|
    ensures k < |names| ==> EqNc(name, names[k])
    ensures forall i :: 0 <= i < k ==> !EqNc(name, names[i])
  {
    if names == [] || EqNc(name, names[0]) then 0 else 1 + Slot(names[1..], name)
  }

  /** The parameter behind the semicolon at the head of s: its name, its value,
      and what follows; none if there is no equals sign behind the name. */
  function Parameter(s: seq<byte>): (r: Option<(seq<byte>, seq<byte>, seq<byte>)>)
    requires s != []
    ensures r.Some? ==> |r.value.2| < |s|
  {
    var s1 := Skip(s[1..], Spaces);
    var n := Span(s1, Alnums);
    var s2 := Skip(Skip(s1, Alnums), Spaces);
    if s2 == [] || s2[0] != EQUALS then None
    else
      var (text, rest) := QuotedOrPlain(Skip(s2[1..], Spaces));
      Some((s1[..n], text, rest))
  }

  /** The parameters that start at the head of s. */
  function Parameters(s: seq<byte>, names: seq<seq<byte>>, space: nat, main: seq<byte>,
                      args: seq<seq<byte>>): (r: Parsed)
    requires |args| == |names|
    ensures r.Parsed? ==> |r.args| == |names|
    decreases |s|
  {
    if s == [] || s[0] != SEMICOLON then Parsed(main, args)
    else match Parameter(s)
      case None => Parsed(main, args)
      case Some((name, text, rest)) =>
        var k := Slot(names, Clip(name, SPACE_OF_LINE));
        if space == 0 then Parameters(rest, names, space, main, args)
        else if k == |names| then NullWrite
        else Parameters(rest, names, space, main, args[k := Clip(text, space)])
  }

  function Decompose(value: seq<byte>, names: seq<seq<byte>>, space: nat): (r: Parsed)
    ensures r.Parsed? ==> |r.args| == |names|
  {
    var (main, rest) := QuotedOrPlain(Skip(value, Spaces));
    Parameters(rest, names, space, Clip(main, SPACE_OF_LINE), seq(|names|, _ => []))
  }

  lemma SpanStep(value: seq<byte>, j: nat, c: Class)
    requires j <= |value|
    ensures Span(value[j..], c) == if j < |value| && c.Has(value[j]) then 1 + Span(value[j + 1..], c) else 0
  {
  }

  lemma ScanEnds(value: seq<byte>, i: nat, j: nat, c: Class)
    requires i <= j <= |value| && Span(value[i..], c) == j - i
    ensures value[j..] == Skip(value[i..], c) && value[i..][..Span(value[i..], c)] == value[i..j]
  {
  }

  lemma ClipGrows(value: seq<byte>, i: nat, j: nat, space: nat)
    requires i <= j < |value|
    ensures var before := Clip(value[i..j], space);
            Clip(value[i..j + 1], space) == if |before| + 1 < space then before + [value[j]] else before
  {
  }

  /** A scanning loop: advances over a class of bytes. */
  method ScanPast(value: seq<byte>, i: nat, c: Class) returns (j: nat)
    requires i <= |value|
    ensures i <= j <= |value| && j == i + Span(value[i..], c) && value[j..] == Skip(value[i..], c)
  {
    hide Span;
    j := i;
    while j < |value| && c.Has(value[j])
      invariant i <= j <= |value| && Span(value[i..], c) == j - i + Span(value[j..], c)
    {
      SpanStep(value, j, c);
      j := j + 1;
    }
    SpanStep(value, j, c);
    ScanEnds(value, i, j, c);
  }

  /** What a scan has seen and kept when it comes to j. */
  ghost predicate Scanned(value: seq<byte>, i: nat, j: nat, c: Class, space: nat, buffer: seq<byte>) {
    && i <= j <= |value|
    && Span(value[i..], c) == j - i + Span(value[j..], c)
    && buffer == Clip(value[i..j], space)
  }

  lemma ScanStarts(value: seq<byte>, i: nat, c: Class, space: nat)
    requires i <= |value|
    ensures Scanned(value, i, i, c, space, [])
  {
    assert value[i..i] == [];
  }

  lemma ScanGoesOn(value: seq<byte>, i: nat, j: nat, c: Class, space: nat, buffer: seq<byte>)
    requires j < |value| && Scanned(value, i, j, c, space, buffer) && c.Has(value[j])
    ensures Scanned(value, i, j + 1, c, space, if |buffer| + 1 < space then buffer + [value[j]] else buffer)
  {
    SpanStep(value, j, c);
    ClipGrows(value, i, j, space);
    hide Span, Clip, Class.Has;
  }

  lemma ScanStops(value: seq<byte>, i: nat, j: nat, c: Class, space: nat, buffer: seq<byte>)
    requires Scanned(value, i, j, c, space, buffer) && (j < |value| ==> !c.Has(value[j]))
    ensures j == i + Span(value[i..], c) && value[j..] == Skip(value[i..], c)
    ensures buffer == Clip(value[i..][..Span(value[i..], c)], space)
  {
    SpanStep(value, j, c);
    ScanEnds(value, i, j, c);
  }

  /** One that also appends the bytes to a buffer while it has room. */
  method ScanInto(value: seq<byte>, i: nat, c: Class, space: nat) returns (j: nat, buffer: seq<byte>)
    requires i <= |value|
    ensures i <= j <= |value| && j == i + Span(value[i..], c) && value[j..] == Skip(value[i..], c)
    ensures buffer == Clip(value[i..][..Span(value[i..], c)], space)
  {
    hide Scanned, Span, Clip, Skip, Class.Has;
    j, buffer := i, [];
    ScanStarts(value, i, c, space);
    while j < |value| && c.Has(value[j])
      invariant i <= j <= |value| && Scanned(value, i, j, c, space, buffer)
    {
      ScanGoesOn(value, i, j, c, space, buffer);
      if |buffer| + 1 < space {
        buffer := buffer + [value[j]];
      }
      j := j + 1;
    }
    ScanStops(value, i, j, c, space, buffer);
  }

  lemma Suffix(value: seq<byte>, i: nat)
    requires i < |value|
    ensures value[i..][0] == value[i] && value[i..][1..] == value[i + 1..]
  {
  }

  method ReadToken(value: seq<byte>, i: nat, space: nat) returns (j: nat, buffer: seq<byte>)
    requires i <= |value|
    ensures i <= j <= |value| && value[j..] == QuotedOrPlain(value[i..]).1
    ensures buffer == Clip(QuotedOrPlain(value[i..]).0, space)
  {
    hide Skip, Clip;
    if i < |value| && value[i] == QUOTE {
      Suffix(value, i);
      j, buffer := ScanInto(value, i + 1, AllBut(QUOTE), space);
      j := ScanPast(value, j, AllBut(SEMICOLON));
    } else {
      j, buffer := ScanInto(value, i, AllBut(SEMICOLON), space);
    }
  }

  method FindSlot(names: seq<seq<byte>>, name: seq<byte>) returns (k: nat)
    ensures k == Slot(names, name)
  {
    k := 0;
    while k < |names|
      invariant k <= |names| && Slot(names, name) == k + Slot(names[k..], name)
    {
      if EqNc(name, names[k]) {
        return;
      }
      k := k + 1;
    }
  }

  method ReadParameter(value: seq<byte>, i: nat, space: nat)
    returns (ok: bool, name: seq<byte>, text: seq<byte>, j: nat)
    requires i < |value|
    ensures match Parameter(value[i..])
            case None => !ok
            case Some((n, t, rest)) =>
              ok && name == Clip(n, SPACE_OF_LINE) && text == Clip(t, space) && i < j <= |value| && value[j..] == rest
  {
    hide Skip, Clip, QuotedOrPlain;
    text := [];
    Suffix(value, i);
    j := ScanPast(value, i + 1, Spaces);
    j, name := ScanInto(value, j, Alnums, SPACE_OF_LINE);
    j := ScanPast(value, j, Spaces);
    ok := j < |value| && value[j] == EQUALS;
    if ok {
      Suffix(value, j);
      j := ScanPast(value, j + 1, Spaces);
      j, text := ReadToken(value, j, space);
    }
  }

  method DecomposeValue(value: seq<byte>, names: seq<seq<byte>>, space: nat) returns (r: Parsed)
    ensures r == Decompose(value, names, space)
  {
    var args := seq(|names|, _ => []);
    var i := ScanPast(value, 0, Spaces);
    assert value[0..] == value;
    var main;
    i, main := ReadToken(value, i, SPACE_OF_LINE);
    while i < |value| && value[i] == SEMICOLON
      invariant i <= |value| && |args| == |names|
      invariant Parameters(value[i..], names, space, main, args) == Decompose(value, names, space)
      decreases |value| - i
    {
      var ok, name, text, j := ReadParameter(value, i, space);
      if !ok {
        return Parsed(main, args);
      }
      if space > 0 {
        var k := FindSlot(names, name);
        if k == |names| {
          return NullWrite;
        }
        args := args[k := text];
      }
      i := j;
    }
    r := Parsed(main, args);
  }
}
