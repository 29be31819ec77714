// Parsing undoes printing: a reference printer of multipart/form-data
// submissions (section 5.1.1 of RFC 2046, section 4 of RFC 7578), and the proof
// that the parser returns what was printed.
module MultipartRoundTrip {
  import opened Bytes
  import opened MpStreams
  import opened Search
  import opened Boundaries
  import opened Headers
  import opened Forms
  import opened Multipart

  // ----- header lines

  const CRLF: seq<byte> := [CR, LF]

  ghost predicate InLine(s: seq<byte>) {
    CR !in s && LF !in s
  }

  ghost predicate IsAttr(attr: seq<byte>) {
    attr != [] && |attr| < SPACE_OF_LINE && COLON !in attr &&
    forall i :: 0 <= i < |attr| ==> !IsSpace(attr[i])
  }

  function Line(attr: seq<byte>, value: seq<byte>): (r: seq<byte>)
    ensures r == attr + [COLON, SPACE] + value + CRLF
  {
    assert Ascii(": ") == [COLON, SPACE] && Ascii("\r\n") == CRLF;
    attr + Ascii(": ") + value + Ascii("\r\n")
  }

  lemma {:induction false} AttrChars(attr: seq<byte>, rest: seq<byte>, before: seq<byte>)
    requires COLON !in attr && (forall i :: 0 <= i < |attr| ==> !IsSpace(attr[i]))
    requires |before| + |attr| < SPACE_OF_LINE
    ensures HeaderChars(attr + rest, before, [], false) == HeaderChars(rest, before + attr, [], false)
  {
    if attr == [] {
      assert attr + rest == rest && before + attr == before;
    } else {
      assert (attr + rest)[1..] == attr[1..] + rest;
      AttrChars(attr[1..], rest, before + [attr[0]]);
      assert before + [attr[0]] + attr[1..] == before + attr;
    }
  }

  lemma {:induction false} ValueChars(value: seq<byte>, rest: seq<byte>, attr: seq<byte>, before: seq<byte>)
    requires InLine(value) && COLON !in value && |before| + |value| < SPACE_OF_LINE
    ensures HeaderChars(value + rest, attr, before, true) == HeaderChars(rest, attr, before + value, true)
  {
    if value == [] {
      assert value + rest == rest && before + value == before;
    } else {
      assert (value + rest)[1..] == value[1..] + rest;
      ValueChars(value[1..], rest, attr, before + [value[0]]);
      assert before + [value[0]] + value[1..] == before + value;
    }
  }

  lemma SkipOneSpace(s: seq<byte>)
    requires s == [] || !IsSpace(s[0])
    ensures Skip([SPACE] + s, Spaces) == s
  {
  }

  lemma ColonIsRead(attr: seq<byte>, rest: seq<byte>)
    requires attr != [] && (rest == [] || !IsSpace(rest[0]))
    ensures HeaderChars([COLON, SPACE] + rest, attr, [], false) == HeaderChars(rest, attr, [], true)
  {
  }

  lemma LineEndIsRead(attr: seq<byte>, value: seq<byte>, rest: seq<byte>, colon: bool)
    ensures HeaderChars(CRLF + rest, attr, value, colon) == EndOfLine(attr, value, rest)
  {
  }

  lemma LineIsRead(attr: seq<byte>, value: seq<byte>, rest: seq<byte>)
    requires IsAttr(attr) && InLine(value) && value != [] && |value| < SPACE_OF_LINE
    requires COLON !in value && !IsSpace(value[0])
    ensures HeaderLine(Line(attr, value) + rest) == Header(true, attr, value, rest)
  {
    hide HeaderChars, Line;
    var tail := value + (CRLF + rest);
    assert Line(attr, value) + rest == attr + ([COLON, SPACE] + tail);
    AttrChars(attr, [COLON, SPACE] + tail, []);
    assert [] + attr == attr;
    ColonIsRead(attr, tail);
    ValueChars(value, CRLF + rest, attr, []);
    assert [] + value == value;
    LineEndIsRead(attr, value, rest, true);
  }

  lemma BlankLineEnds(rest: seq<byte>)
    ensures HeaderLine(CRLF + rest) == Header(false, [], [], rest)
  {
  }

  /** What every header value is like, whatever the stream: it has no colon and no
      line break, does not start with whitespace, and fits its buffer. */
  ghost predicate Readable(value: seq<byte>) {
    InLine(value) && COLON !in value && (value != [] ==> !IsSpace(value[0])) && |value| < SPACE_OF_LINE
  }

  lemma {:induction false} ValuesAreReadable(text: seq<byte>, attr: seq<byte>, value: seq<byte>, colon: bool)
    requires Readable(value) && (colon ==> attr != []) && (!colon ==> value == [])
    requires colon && value == [] && text != [] ==> !IsSpace(text[0])
    ensures var h := HeaderChars(text, attr, value, colon); Readable(h.value) && (h.ok ==> h.value != [])
    decreases |text|
  {
    if text != [] {
      var d, rest := text[0], text[1..];
      if d == CR || d == LF {
      } else if d == COLON && attr != [] {
        ValuesAreReadable(Skip(rest, Spaces), attr, value, true);
      } else if colon {
        ValuesAreReadable(rest, attr, Add(value, d), true);
      } else {
        ValuesAreReadable(rest, if IsSpace(d) then attr else Add(attr, d), value, false);
      }
    }
  }

  /** A header line is read back as it was printed exactly when its value is not
      empty and like that. */
  lemma HeaderLineIff(attr: seq<byte>, value: seq<byte>, rest: seq<byte>)
    requires IsAttr(attr)
    ensures HeaderLine(Line(attr, value) + rest) == Header(true, attr, value, rest) <==> value != [] && Readable(value)
  {
    hide HeaderChars;
    if value != [] && Readable(value) {
      LineIsRead(attr, value, rest);
    } else {
      ValuesAreReadable(Line(attr, value) + rest, [], [], false);
    }
  }

  // ----- lines of any length, and with any line end

  /** Without its whitespace. */
  function Squeezed(s: seq<byte>): seq<byte> {
    if s == [] then [] else if IsSpace(s[0]) then Squeezed(s[1..]) else [s[0]] + Squeezed(s[1..])
  }

  lemma AddIsClip(b: seq<byte>, d: byte)
    ensures Add(Clip(b, 1024), d) == Clip(b + [d], 1024)
  {
    if |b| >= 1023 {
      assert (b + [d])[..1023] == b[..1023];
    }
  }

  function Kept(b: seq<byte>, d: byte): seq<byte> {
    if IsSpace(d) then b else b + [d]
  }

  lemma AttrCharStep(d: byte, text: seq<byte>, b: seq<byte>)
    requires d != CR && d != LF && d != COLON
    ensures HeaderChars([d] + text, Clip(b, 1024), [], false) == HeaderChars(text, Clip(Kept(b, d), 1024), [], false)
  {
    AddIsClip(b, d);
    hide Clip;
    assert ([d] + text)[1..] == text;
  }

  lemma SqueezedStep(attr: seq<byte>, b: seq<byte>)
    requires attr != []
    ensures b + Squeezed(attr) == Kept(b, attr[0]) + Squeezed(attr[1..])
  {
    var rest := Squeezed(attr[1..]);
    assert Squeezed(attr) == if IsSpace(attr[0]) then rest else [attr[0]] + rest;
    hide Squeezed, IsSpace;
    assert b + ([attr[0]] + rest) == (b + [attr[0]]) + rest;
  }

  lemma {:induction false} AnyAttrChars(attr: seq<byte>, rest: seq<byte>, b: seq<byte>)
    requires COLON !in attr && InLine(attr)
    ensures HeaderChars(attr + rest, Clip(b, 1024), [], false) ==
            HeaderChars(rest, Clip(b + Squeezed(attr), 1024), [], false)
  {
    hide Clip, HeaderChars, Squeezed, Kept;
    if attr == [] {
      NothingSqueezed();
      assert attr + rest == rest && b + [] == b;
    } else {
      assert attr + rest == [attr[0]] + (attr[1..] + rest);
      AttrCharStep(attr[0], attr[1..] + rest, b);
      SqueezedStep(attr, b);
      AnyAttrChars(attr[1..], rest, Kept(b, attr[0]));
    }
  }

  lemma NothingSqueezed()
    ensures Squeezed([]) == []
  {
  }

  lemma {:induction false} AnyValueChars(value: seq<byte>, rest: seq<byte>, attr: seq<byte>, b: seq<byte>)
    requires InLine(value) && COLON !in value
    ensures HeaderChars(value + rest, attr, Clip(b, 1024), true) == HeaderChars(rest, attr, Clip(b + value, 1024), true)
  {
    hide Clip;
    if value == [] {
      assert value + rest == rest && b + [] == b;
    } else {
      assert (value + rest)[1..] == value[1..] + rest;
      AddIsClip(b, value[0]);
      AnyValueChars(value[1..], rest, attr, b + [value[0]]);
      assert b + [value[0]] + value[1..] == b + value;
    }
  }

  /** A line ends at CRLF, at LF, and at CR alone. */
  ghost predicate EndsLine(end: seq<byte>, rest: seq<byte>) {
    || end == Ascii("\r\n") || end == Ascii("\n")
    || (end == Ascii("\r") && (rest == [] || rest[0] != '\n' as byte))
  }

  lemma AnyEndIsRead(attr: seq<byte>, value: seq<byte>, end: seq<byte>, rest: seq<byte>)
    requires EndsLine(end, rest)
    ensures HeaderChars(end + rest, attr, value, true) == Header(attr != [] && value != [], attr, value, rest)
  {
    assert Ascii("\r\n") == [CR, LF] && Ascii("\n") == [LF] && Ascii("\r") == [CR];
    var text := end + rest;
    if |end| == 2 {
      assert text[1..] == [LF] + rest && text[1..][1..] == rest;
    } else {
      assert text[1..] == rest;
    }
  }

  lemma GapIsSkipped(gap: seq<byte>, tail: seq<byte>, attr: seq<byte>)
    requires (forall i :: 0 <= i < |gap| ==> IsSpace(gap[i])) && tail != [] && !IsSpace(tail[0]) && attr != []
    ensures HeaderChars(Ascii(":") + (gap + tail), attr, [], false) == HeaderChars(tail, attr, [], true)
  {
    assert Ascii(":") == [COLON];
    SpanIs(gap + tail, Spaces, |gap|);
    assert (gap + tail)[|gap|..] == tail && ([COLON] + (gap + tail))[1..] == gap + tail;
    hide Ascii, Span;
  }

  /** Of any line with a name and a value: whitespace in the name is dropped, both are
      cut to their buffers of 1024 bytes, and the stream goes on behind its end. */
  lemma AnyLineIsRead(attr: seq<byte>, gap: seq<byte>, value: seq<byte>, end: seq<byte>, rest: seq<byte>)
    requires COLON !in attr && InLine(attr) && Squeezed(attr) != []
    requires forall i :: 0 <= i < |gap| ==> IsSpace(gap[i])
    requires InLine(value) && COLON !in value && value != [] && !IsSpace(value[0]) && EndsLine(end, rest)
    ensures HeaderLine(attr + (Ascii(":") + (gap + (value + (end + rest))))) ==
            Header(true, Clip(Squeezed(attr), 1024), Clip(value, 1024), rest)
  {
    var tail := value + (end + rest);
    var name := Clip(Squeezed(attr), 1024);
    assert Clip([], 1024) == [] && [] + Squeezed(attr) == Squeezed(attr) && [] + value == value && tail[0] == value[0];
    assert name != [] && Clip(value, 1024) != [];
    hide HeaderChars, Clip, Squeezed, EndsLine, Ascii;
    AnyAttrChars(attr, Ascii(":") + (gap + tail), []);
    GapIsSkipped(gap, tail, name);
    AnyValueChars(value, end + rest, name, []);
    AnyEndIsRead(name, Clip(value, 1024), end, rest);
  }

  // ----- parameters

  lemma QuotedIsRead(text: seq<byte>, rest: seq<byte>)
    requires QUOTE !in text && (rest == [] || rest[0] == SEMICOLON)
    ensures QuotedOrPlain([QUOTE] + text + [QUOTE] + rest) == (text, rest)
  {
    var s := [QUOTE] + text + [QUOTE] + rest;
    assert s[1..] == text + ([QUOTE] + rest);
    SpanIs(s[1..], AllBut(QUOTE), |text|);
    assert s[1..][..|text|] == text && s[1..][|text|..] == [QUOTE] + rest;
    SpanIs([QUOTE] + rest, AllBut(SEMICOLON), 1);
    assert ([QUOTE] + rest)[1..] == rest;
  }

  function Argument(name: seq<byte>, text: seq<byte>): (r: seq<byte>)
    ensures r == [SEMICOLON, SPACE] + name + [EQUALS, QUOTE] + text + [QUOTE]
  {
    assert Ascii("; ") == [SEMICOLON, SPACE] && Ascii("=\"") == [EQUALS, QUOTE] && Ascii("\"") == [QUOTE];
    Ascii("; ") + name + Ascii("=\"") + text + Ascii("\"")
  }

  lemma PlainParts(name: seq<byte>, text: seq<byte>, rest: seq<byte>)
    ensures var s := Ascii(";") + name + Ascii("=") + text + rest;
            s != [] && s[1..] == name + ([EQUALS] + (text + rest)) && ([EQUALS] + (text + rest))[1..] == text + rest
  {
    assert Ascii(";") == [SEMICOLON] && Ascii("=") == [EQUALS];
    hide Ascii;
  }

  lemma ParameterIs(s: seq<byte>, name: seq<byte>, tail: seq<byte>, text: seq<byte>, rest: seq<byte>)
    requires s != [] && s[1..] == name + tail && tail != [] && tail[0] == EQUALS
    requires name != [] && (forall i :: 0 <= i < |name| ==> IsAlnum(name[i]))
    requires tail[1..] != [] && !IsSpace(tail[1]) && QuotedOrPlain(tail[1..]) == (text, rest)
    ensures Parameter(s) == Some((name, text, rest))
  {
    NameIsRead(name, tail);
    SpanIs(tail[1..], Spaces, 0);
    hide Span, QuotedOrPlain;
    assert tail[0..] == tail && tail[1..][0..] == tail[1..];
  }

  /** A parameter may also stand without quotes. */
  lemma PlainArgumentIsRead(name: seq<byte>, text: seq<byte>, rest: seq<byte>)
    requires name != [] && (forall i :: 0 <= i < |name| ==> IsAlnum(name[i]))
    requires text != [] && SEMICOLON !in text && text[0] != QUOTE && !IsSpace(text[0])
    requires rest == [] || rest[0] == SEMICOLON
    ensures Parameter(Ascii(";") + name + Ascii("=") + text + rest) == Some((name, text, rest))
  {
    PlainParts(name, text, rest);
    PlainIsRead(text, rest);
    assert ([EQUALS] + (text + rest))[1] == text[0];
    hide QuotedOrPlain, Parameter, Ascii;
    ParameterIs(Ascii(";") + name + Ascii("=") + text + rest, name, [EQUALS] + (text + rest), text, rest);
  }

  ghost predicate AllSpaces(s: seq<byte>) {
    forall i :: 0 <= i < |s| ==> IsSpace(s[i])
  }

  /** A parameter may be written with whitespace around its name and its value, and
      what stands between the closing quote and the next semicolon is dropped. */
  lemma SpacedArgumentIsRead(a: seq<byte>, name: seq<byte>, b: seq<byte>, c: seq<byte>, text: seq<byte>,
                             junk: seq<byte>, rest: seq<byte>)
    requires AllSpaces(a) && AllSpaces(b) && AllSpaces(c)
    requires name != [] && (forall i :: 0 <= i < |name| ==> IsAlnum(name[i]))
    requires '"' as byte !in text && ';' as byte !in junk && (rest == [] || rest[0] == ';' as byte)
    ensures Parameter(Ascii(";") + (a + (name + (b + (Ascii("=") + (c + (Ascii("\"") + (text + (Ascii("\"") +
                      (junk + rest)))))))))) == Some((name, text, rest))
  {
    assert Ascii(";") == [SEMICOLON] && Ascii("=") == [EQUALS] && Ascii("\"") == [QUOTE];
    assert name != [] && !IsSpace(name[0]);
    hide *;
    var tail := text + ([QUOTE] + (junk + rest));
    var value := [QUOTE] + tail;
    var s3 := [EQUALS] + (c + value);
    var s2 := b + s3;
    var s1 := name + s2;
    QuoteIsRead(text, junk, rest);
    SpacesEnd(c, value);
    SpacesEnd(b, s3);
    SpacesEnd(a, s1);
    AlnumsEnd(name, b, s3);
    var s := [SEMICOLON] + (a + s1);
    assert s[1..] == a + s1 && s3[1..] == c + value;
    ParameterFrom(s, s1, name, s3, text, rest);
  }

  lemma ParameterFrom(s: seq<byte>, s1: seq<byte>, name: seq<byte>, s3: seq<byte>, text: seq<byte>, rest: seq<byte>)
    requires s != [] && Skip(s[1..], Spaces) == s1 && s1[..Span(s1, Alnums)] == name
    requires Skip(Skip(s1, Alnums), Spaces) == s3 && s3 != [] && s3[0] == EQUALS
    requires QuotedOrPlain(Skip(s3[1..], Spaces)) == (text, rest)
    ensures Parameter(s) == Some((name, text, rest))
  {
    hide QuotedOrPlain, Span, Skip;
  }

  lemma SpacesEnd(a: seq<byte>, s: seq<byte>)
    requires AllSpaces(a) && s != [] && !IsSpace(s[0])
    ensures Skip(a + s, Spaces) == s
  {
    SpanIs(a + s, Spaces, |a|);
    assert (a + s)[|a|..] == s;
  }

  lemma AlnumsEnd(name: seq<byte>, b: seq<byte>, s: seq<byte>)
    requires (forall i :: 0 <= i < |name| ==> IsAlnum(name[i])) && AllSpaces(b) && s != [] && s[0] == EQUALS
    ensures var n := Span(name + (b + s), Alnums);
            (name + (b + s))[..n] == name && Skip(name + (b + s), Alnums) == b + s
  {
    var t := b + s;
    assert t[0] == if b == [] then EQUALS else b[0];
    SpanIs(name + t, Alnums, |name|);
    assert (name + t)[..|name|] == name && (name + t)[|name|..] == t;
  }

  lemma QuoteIsRead(text: seq<byte>, junk: seq<byte>, rest: seq<byte>)
    requires QUOTE !in text && SEMICOLON !in junk && (rest == [] || rest[0] == SEMICOLON)
    ensures QuotedOrPlain([QUOTE] + (text + ([QUOTE] + (junk + rest)))) == (text, rest)
  {
    var tail := [QUOTE] + (junk + rest);
    var s := [QUOTE] + (text + tail);
    assert s[1..] == text + tail;
    SpanIs(s[1..], AllBut(QUOTE), |text|);
    assert s[1..][..|text|] == text && s[1..][|text|..] == tail;
    SpanIs(tail, AllBut(SEMICOLON), 1 + |junk|);
    assert tail[1 + |junk|..] == rest;
  }

  lemma NameIsRead(name: seq<byte>, rest: seq<byte>)
    requires name != [] && (forall i :: 0 <= i < |name| ==> IsAlnum(name[i]))
    requires rest != [] && rest[0] == EQUALS
    ensures Span(name + rest, Spaces) == 0 && Span(name + rest, Alnums) == |name| && Span(rest, Spaces) == 0
    ensures (name + rest)[..|name|] == name && (name + rest)[|name|..] == rest && (name + rest)[0..] == name + rest
  {
    assert (name + rest)[0] == name[0] && (name + rest)[|name|] == EQUALS;
    SpanIs(name + rest, Spaces, 0);
    SpanIs(name + rest, Alnums, |name|);
    SpanIs(rest, Spaces, 0);
  }

  lemma ArgumentIsRead(name: seq<byte>, text: seq<byte>, rest: seq<byte>)
    requires name != [] && (forall i :: 0 <= i < |name| ==> IsAlnum(name[i]))
    requires QUOTE !in text && (rest == [] || rest[0] == SEMICOLON)
    ensures Parameter(Argument(name, text) + rest) == Some((name, text, rest))
  {
    hide QuotedOrPlain;
    var s := Argument(name, text) + rest;
    var value := [QUOTE] + text + [QUOTE] + rest;
    assert s[1..] == [SPACE] + (name + ([EQUALS] + value));
    SkipOneSpace(name + ([EQUALS] + value));
    SpanIs(name + ([EQUALS] + value), Alnums, |name|);
    assert (name + ([EQUALS] + value))[..|name|] == name;
    assert (name + ([EQUALS] + value))[|name|..] == [EQUALS] + value;
    assert Span([EQUALS] + value, Spaces) == 0;
    assert ([EQUALS] + value)[1..] == value;
    assert Span(value, Spaces) == 0;
    QuotedIsRead(text, rest);
  }

  lemma PlainIsRead(text: seq<byte>, rest: seq<byte>)
    requires SEMICOLON !in text && (rest == [] || rest[0] == SEMICOLON)
    requires text != [] && text[0] != QUOTE
    ensures QuotedOrPlain(text + rest) == (text, rest)
  {
    SpanIs(text + rest, AllBut(SEMICOLON), |text|);
    assert (text + rest)[..|text|] == text && (text + rest)[|text|..] == rest;
  }

  lemma ArgumentIsTaken(name: seq<byte>, text: seq<byte>, rest: seq<byte>, names: seq<seq<byte>>, main: seq<byte>,
                        args: seq<seq<byte>>)
    requires name != [] && (forall i :: 0 <= i < |name| ==> IsAlnum(name[i])) && |name| < SPACE_OF_LINE
    requires QUOTE !in text && |text| < SPACE_OF_LINE && (rest == [] || rest[0] == SEMICOLON)
    requires |args| == |names| && Slot(names, name) < |names|
    ensures Parameters(Argument(name, text) + rest, names, SPACE_OF_LINE, main, args) ==
            Parameters(rest, names, SPACE_OF_LINE, main, args[Slot(names, name) := text])
  {
    hide Parameter;
    ArgumentIsRead(name, text, rest);
  }

  /** Parameters as a client may write them. */
  ghost predicate WellFormed(args: seq<(seq<byte>, seq<byte>)>) {
    forall i :: 0 <= i < |args| ==>
      && args[i].0 != [] && (forall j :: 0 <= j < |args[i].0| ==> IsAlnum(args[i].0[j]))
      && |args[i].0| < SPACE_OF_LINE && QUOTE !in args[i].1 && |args[i].1| < SPACE_OF_LINE
  }

  function Arguments(args: seq<(seq<byte>, seq<byte>)>): (r: seq<byte>)
    ensures r == [] || r[0] == SEMICOLON
  {
    if args == [] then [] else Argument(args[0].0, args[0].1) + Arguments(args[1..])
  }

  /** Well-formed parameters are taken apart without a fault exactly when each of
      them is wanted. */
  lemma {:induction false} ArgumentsAreTakenIff(args: seq<(seq<byte>, seq<byte>)>, names: seq<seq<byte>>,
                                                main: seq<byte>, values: seq<seq<byte>>)
    requires WellFormed(args) && |values| == |names|
    ensures Parameters(Arguments(args), names, SPACE_OF_LINE, main, values).Parsed? <==>
            forall i :: 0 <= i < |args| ==> Slot(names, args[i].0) < |names|
    decreases |args|
  {
    hide Parameter, Slot, Argument;
    if args == [] {
      ParametersEnd(names, main, values);
    } else {
      var (name, text) := args[0];
      var k := Slot(names, name);
      SlotInRange(names, name);
      if k < |names| {
        ArgumentIsTaken(name, text, Arguments(args[1..]), names, main, values);
        ArgumentsAreTakenIff(args[1..], names, main, values[k := text]);
        assert forall i :: 1 <= i < |args| ==> args[i] == args[1..][i - 1];
      } else {
        ArgumentFaults(name, text, Arguments(args[1..]), names, main, values);
      }
    }
  }

  lemma SlotInRange(names: seq<seq<byte>>, name: seq<byte>)
    ensures Slot(names, name) <= |names|
  {
  }

  lemma ArgumentFaults(name: seq<byte>, text: seq<byte>, rest: seq<byte>, names: seq<seq<byte>>, main: seq<byte>,
                       args: seq<seq<byte>>)
    requires name != [] && (forall i :: 0 <= i < |name| ==> IsAlnum(name[i])) && |name| < SPACE_OF_LINE
    requires QUOTE !in text && (rest == [] || rest[0] == SEMICOLON)
    requires |args| == |names| && Slot(names, name) == |names|
    ensures Parameters(Argument(name, text) + rest, names, SPACE_OF_LINE, main, args) == NullWrite
  {
    hide Parameter;
    ArgumentIsRead(name, text, rest);
  }

  /** The names that a client writes in its headers, in any mixture of cases. */
  datatype Spelling = Spelling(disposition: seq<byte>, name: seq<byte>, fileName: seq<byte>, contentType: seq<byte>)

  ghost predicate Spelled(w: Spelling) {
    && SameLetters(w.disposition, Ascii("Content-Disposition")) && SameLetters(w.contentType, Ascii("Content-Type"))
    && SameLetters(w.name, Ascii("name")) && SameLetters(w.fileName, Ascii("filename"))
  }

  /** A word of letters and dashes stays one in any mixture of cases. */
  ghost predicate IsWord(s: seq<byte>, dashes: bool) {
    forall i :: 0 <= i < |s| ==> IsAlpha(s[i]) || (dashes && s[i] == DASH)
  }

  lemma WordInAnyCase(s: seq<byte>, t: seq<byte>, dashes: bool)
    requires SameLetters(s, t) && IsWord(t, dashes)
    ensures |s| == |t| && IsWord(s, dashes)
  {
    SameSize(s, t);
    assert forall i :: 0 <= i < |s| ==> Lower(s)[i] == Lower(t)[i];
  }

  lemma NamesAreWords()
    ensures IsWord(Ascii("Content-Disposition"), true) && IsWord(Ascii("Content-Type"), true)
    ensures IsWord(Ascii("name"), false) && IsWord(Ascii("filename"), false)
    ensures DispositionHeader() == Ascii("Content-Disposition") && TypeHeader() == Ascii("Content-Type")
    ensures NameKey() == Ascii("name") && FileNameKey() == Ascii("filename") && FormDataName() == Ascii("form-data")
    ensures |Ascii("Content-Disposition")| == 19 && |Ascii("Content-Type")| == 12
    ensures |Ascii("name")| == 4 && |Ascii("filename")| == 8
  {
    assert forall s: string, d: bool ::
        (forall i :: 0 <= i < |s| ==> 'a' <= s[i] <= 'z' || 'A' <= s[i] <= 'Z' || (d && s[i] == '-')) ==>
          IsWord(Ascii(s), d);
  }

  /** The parameters are recognised, whatever their case. */
  lemma SlotOfNames(w: Spelling)
    requires Spelled(w)
    ensures Slot([NameKey(), FileNameKey()], w.name) == 0 && Slot([NameKey(), FileNameKey()], w.fileName) == 1
    ensures w.name != [] && (forall i :: 0 <= i < |w.name| ==> IsAlnum(w.name[i])) && |w.name| == 4
    ensures w.fileName != [] && (forall i :: 0 <= i < |w.fileName| ==> IsAlnum(w.fileName[i])) && |w.fileName| == 8
    ensures |w.name| < SPACE_OF_LINE && |w.fileName| < SPACE_OF_LINE
  {
    NamesAreWords();
    WordInAnyCase(w.name, Ascii("name"), false);
    WordInAnyCase(w.fileName, Ascii("filename"), false);
    EqNcIff(w.name, NameKey());
    EqNcIff(w.fileName, FileNameKey());
    hide Ascii, Lower, NameKey, FileNameKey;
    assert [NameKey(), FileNameKey()][1..] == [FileNameKey()];
  }

  /** The value of a Content-Disposition header. */
  function DispositionValue(kind: seq<byte>, name: seq<byte>, fileName: seq<byte>, w: Spelling): seq<byte> {
    kind + Argument(w.name, name) + if fileName == [] then [] else Argument(w.fileName, fileName)
  }

  /** A main value. */
  ghost predicate IsKind(kind: seq<byte>) {
    kind != [] && SEMICOLON !in kind && kind[0] != QUOTE && !IsSpace(kind[0]) && |kind| < SPACE_OF_LINE
  }

  lemma KindIsRead(kind: seq<byte>, tail: seq<byte>)
    requires IsKind(kind) && tail != [] && tail[0] == SEMICOLON
    ensures QuotedOrPlain(Skip(kind + tail, Spaces)) == (kind, tail) && |kind| < SPACE_OF_LINE
  {
    assert (kind + tail)[0] == kind[0];
    SpanIs(kind + tail, Spaces, 0);
    assert (kind + tail)[0..] == kind + tail;
    PlainIsRead(kind, tail);
  }

  lemma FirstArgumentIsTaken(kind: seq<byte>, name: seq<byte>, tail: seq<byte>, w: Spelling)
    requires Spelled(w) && QUOTE !in name && |name| < SPACE_OF_LINE && (tail == [] || tail[0] == SEMICOLON)
    ensures Parameters(Argument(w.name, name) + tail, [NameKey(), FileNameKey()], SPACE_OF_LINE, kind, [[], []]) ==
            Parameters(tail, [NameKey(), FileNameKey()], SPACE_OF_LINE, kind, [name, []])
  {
    hide *;
    SlotOfNames(w);
    var blank: seq<seq<byte>> := [[], []];
    ArgumentIsTaken(w.name, name, tail, [NameKey(), FileNameKey()], kind, blank);
    assert blank[0 := name] == [name, []];
  }

  lemma DispositionIsRead(kind: seq<byte>, name: seq<byte>, fileName: seq<byte>, w: Spelling)
    requires Spelled(w) && IsKind(kind)
    requires QUOTE !in name && QUOTE !in fileName && |name| < SPACE_OF_LINE && |fileName| < SPACE_OF_LINE
    ensures Decompose(DispositionValue(kind, name, fileName, w), [NameKey(), FileNameKey()], SPACE_OF_LINE) ==
            Parsed(kind, [name, fileName])
  {
    hide *;
    var names := [NameKey(), FileNameKey()];
    var first := Argument(w.name, name);
    var tail := LastArgument(fileName, w);
    DispositionParts(kind, name, fileName, w);
    KindIsRead(kind, first + tail);
    DecomposeIs(DispositionValue(kind, name, fileName, w), kind, first + tail, names);
    FirstArgumentIsTaken(kind, name, tail, w);
    LastArgumentIsTaken(kind, name, fileName, w);
    var blank: seq<seq<byte>> := seq(|names|, _ => []);
    assert blank == [[], []];
  }

  function LastArgument(fileName: seq<byte>, w: Spelling): (r: seq<byte>)
    ensures r == [] || r[0] == SEMICOLON
  {
    if fileName == [] then [] else Argument(w.fileName, fileName)
  }

  lemma DispositionParts(kind: seq<byte>, name: seq<byte>, fileName: seq<byte>, w: Spelling)
    ensures var first, tail := Argument(w.name, name), LastArgument(fileName, w);
            && DispositionValue(kind, name, fileName, w) == kind + (first + tail)
            && first + tail != [] && (first + tail)[0] == SEMICOLON
  {
  }

  lemma LastArgumentIsTaken(kind: seq<byte>, name: seq<byte>, fileName: seq<byte>, w: Spelling)
    requires Spelled(w) && QUOTE !in fileName && |fileName| < SPACE_OF_LINE
    ensures Parameters(LastArgument(fileName, w), [NameKey(), FileNameKey()], SPACE_OF_LINE, kind, [name, []]) ==
            Parsed(kind, [name, fileName])
  {
    hide Argument, Spelled, Slot, Lower, Ascii, Parameters, NameKey, FileNameKey;
    var names := [NameKey(), FileNameKey()];
    if fileName == [] {
      ParametersEnd(names, kind, [name, []]);
    } else {
      SlotOfNames(w);
      assert LastArgument(fileName, w) == Argument(w.fileName, fileName) + [];
      ArgumentIsTaken(w.fileName, fileName, [], names, kind, [name, []]);
      assert [name, []][1 := fileName] == [name, fileName];
      ParametersEnd(names, kind, [name, fileName]);
    }
  }

  lemma ParametersEnd(names: seq<seq<byte>>, main: seq<byte>, args: seq<seq<byte>>)
    requires |args| == |names|
    ensures Parameters([], names, SPACE_OF_LINE, main, args) == Parsed(main, args)
  {
  }

  lemma DecomposeIs(value: seq<byte>, main: seq<byte>, rest: seq<byte>, names: seq<seq<byte>>)
    requires QuotedOrPlain(Skip(value, Spaces)) == (main, rest) && |main| < SPACE_OF_LINE
    ensures Decompose(value, names, SPACE_OF_LINE) ==
            Parameters(rest, names, SPACE_OF_LINE, main, seq(|names|, _ => []))
  {
  }

  /** A content type without its parameters. */
  function TypeOf(contentType: seq<byte>): (r: seq<byte>)
    ensures r <= contentType && SEMICOLON !in r
    ensures |r| < |contentType| ==> contentType[|r|] == SEMICOLON
  {
    contentType[..Span(contentType, AllBut(SEMICOLON))]
  }

  /** Parameters are passed over when none is wanted. */
  lemma {:induction false} NoneWanted(s: seq<byte>, main: seq<byte>)
    ensures Parameters(s, [], 0, main, []) == Parsed(main, [])
    decreases |s|
  {
    hide Parameter;
    if s != [] && s[0] == SEMICOLON && Parameter(s).Some? {
      NoneWanted(Parameter(s).value.2, main);
    }
  }

  lemma ContentTypeIsRead(contentType: seq<byte>)
    requires contentType != [] && |contentType| < SPACE_OF_LINE
    requires contentType[0] != QUOTE && !IsSpace(contentType[0])
    ensures Decompose(contentType, [], 0) == Parsed(TypeOf(contentType), [])
  {
    assert Skip(contentType, Spaces) == contentType;
    NoneWanted(QuotedOrPlain(contentType).1, TypeOf(contentType));
    hide Span, Parameters;
    var blank: seq<seq<byte>> := seq(0, _ => []);
    assert blank == [];
  }

  // ----- bodies

  /** The delimiter cannot straddle the end of a body: its first byte does not
      recur in it. */
  lemma NoStraddling(body: seq<byte>, p: seq<byte>, tail: seq<byte>, i: nat)
    requires HeadIsUnique(p) && i < |body|
    ensures OccursAt(body + p + tail, p, i) <==> OccursAt(body, p, i)
  {
    var text := body + p + tail;
    if i + |p| <= |body| {
      assert text[i..i + |p|] == body[i..i + |p|];
    } else {
      assert text[i..i + |p|][|body| - i] == text[|body|] == p[0];
    }
  }

  lemma FirstInMessage(body: seq<byte>, p: seq<byte>, tail: seq<byte>)
    requires HeadIsUnique(p)
    ensures Find(body + p + tail, p) == Some(|body|) <==> Find(body, p).None?
  {
    var text := body + p + tail;
    assert text[|body|..|body| + |p|] == p;
    forall i: nat | i < |body|
      ensures OccursAt(text, p, i) <==> OccursAt(body, p, i)
    {
      NoStraddling(body, p, tail, i);
    }
    hide HeadIsUnique, Find;
    FindIsFirst(body, p);
    if Find(body, p).None? {
      FindIs(text, p, |body|);
    } else {
      FindIsFirst(text, p);
    }
  }

  /** A body survives, whatever follows, exactly when it does not contain the
      delimiter. */
  lemma BodySurvivesIff(body: seq<byte>, boundary: seq<byte>, tail: seq<byte>)
    requires ValidBoundary(boundary) && |tail| >= 2
    ensures var p := Delimiter(boundary);
            SplitAt(body + p + tail, p) == Some((body, if tail[0] == DASH then tail else tail[2..]))
            <==> Find(body, p).None?
  {
    hide Delimiter, HeadIsUnique, Find;
    var p := Delimiter(boundary);
    var text := body + p + tail;
    DelimiterHeadIsUnique(boundary);
    FirstInMessage(body, p, tail);
    assert text[..|body|] == body && text[|body| + |p|..] == tail;
    if Find(text, p).Some? {
      var j := Find(text, p).value;
      assert |text[..j]| == j;
    }
  }

  // ----- parts and messages

  /** A part, with its main value: it is form data if that says so. */
  datatype FormPart = FormPart(kind: seq<byte>, name: seq<byte>, fileName: seq<byte>, contentType: seq<byte>,
                               body: seq<byte>)

  predicate IsFormData(part: FormPart) {
    SameLetters(part.kind, Ascii("form-data"))
  }

  function PrintHeaders(part: FormPart, w: Spelling): seq<byte> {
    Line(w.disposition, DispositionValue(part.kind, part.name, part.fileName, w)) +
    (if part.contentType == [] then [] else Line(w.contentType, part.contentType)) + Ascii("\r\n")
  }

  /** What stands between two delimiters, line break included. */
  function PrintPart(part: FormPart, w: Spelling): seq<byte> {
    PrintHeaders(part, w) + part.body
  }

  /** What follows a delimiter: the parts, or the dashes that end the message. */
  function PrintParts(parts: seq<FormPart>, boundary: seq<byte>, epilogue: seq<byte>, w: Spelling): (r: seq<byte>)
    ensures |r| >= 2 && (if parts == [] then r[0] == DASH else r[..2] == CRLF)
  {
    assert Ascii("--") == [DASH, DASH] && Ascii("\r\n") == CRLF;
    if parts == [] then Ascii("--") + epilogue
    else
      Ascii("\r\n") + PrintPart(parts[0], w) + (Ascii("\r\n--") + boundary) +
      PrintParts(parts[1..], boundary, epilogue, w)
  }

  function PrintMessage(parts: seq<FormPart>, boundary: seq<byte>, epilogue: seq<byte>, w: Spelling): seq<byte> {
    Ascii("--") + boundary + PrintParts(parts, boundary, epilogue, w)
  }

  /** The parser looks for what is printed. */
  lemma DelimiterIs(boundary: seq<byte>)
    ensures Delimiter(boundary) == Ascii("\r\n--") + boundary && Opening(boundary) == Ascii("--") + boundary
  {
    assert Ascii("\r\n--") == [CR, LF, DASH, DASH] && Ascii("--") == [DASH, DASH];
  }

  /** A text that can stand between quotes in a header. */
  ghost predicate Quotable(s: seq<byte>) {
    InLine(s) && NUL !in s && QUOTE !in s && COLON !in s
  }

  /** What a part must be like to survive. The two header values must fit the
      buffers, and the body must not contain the delimiter. Of a content type with
      parameters, the type survives. */
  ghost predicate Printable(part: FormPart, boundary: seq<byte>, w: Spelling) {
    && IsKind(part.kind) && Valuable(part.kind) && Quotable(part.name) && Quotable(part.fileName)
    && |DispositionValue(part.kind, part.name, part.fileName, w)| < SPACE_OF_LINE
    && (part.contentType != [] ==>
          && Valuable(part.contentType) && |part.contentType| < SPACE_OF_LINE
          && part.contentType[0] != QUOTE && !IsSpace(part.contentType[0]))
    && Find(part.body, Ascii("\r\n--") + boundary).None?
  }

  ghost predicate AllPrintable(parts: seq<FormPart>, boundary: seq<byte>, w: Spelling) {
    forall i :: 0 <= i < |parts| ==> Printable(parts[i], boundary, w)
  }

  /** What the entry of a part holds: all of the body, in memory or in a file, its
      length, and what the headers said. */
  ghost predicate Holds(e: Entry, part: FormPart) {
    && e.attr == part.name && e.contentType == TypeOf(part.contentType) && e.valueLength == |part.body|
    && if part.fileName == [] then e.value == part.body && e.fileName == [] && e.upload == None
       else e.value == [] && e.fileName == part.fileName && e.upload == Some(part.body)
  }

  /** The outcome for a message with these parts of form data. */
  ghost predicate Returned(r: Outcome, wanted: seq<FormPart>) {
    r.result == Success && |r.entries| == |wanted| && forall i :: 0 <= i < |wanted| ==> Holds(r.entries[i], wanted[i])
  }

  function EntryOfPart(part: FormPart): (e: Entry)
    ensures Holds(e, part)
  {
    if part.fileName == [] then
      Entry(part.name, part.body, |part.body|, [], TypeOf(part.contentType), None)
    else
      Entry(part.name, [], |part.body|, part.fileName, TypeOf(part.contentType), Some(part.body))
  }

  /** The parts that are form data. */
  function FormParts(parts: seq<FormPart>): seq<FormPart> {
    if parts == [] then [] else (if IsFormData(parts[0]) then [parts[0]] else []) + FormParts(parts[1..])
  }

  function EntriesOfParts(parts: seq<FormPart>): (r: seq<Entry>)
    ensures |r| == |parts| && forall i :: 0 <= i < |parts| ==> Holds(r[i], parts[i])
  {
    if parts == [] then [] else [EntryOfPart(parts[0])] + EntriesOfParts(parts[1..])
  }

  lemma AttributeNames(w: Spelling)
    requires Spelled(w)
    ensures IsAttr(w.disposition) && IsAttr(w.contentType)
    ensures CStr(w.disposition) == w.disposition && CStr(w.contentType) == w.contentType
    ensures EqNc(w.disposition, DispositionHeader()) && EqNc(w.contentType, TypeHeader())
    ensures !EqNc(w.contentType, DispositionHeader())
  {
    NamesAreWords();
    WordInAnyCase(w.disposition, Ascii("Content-Disposition"), true);
    WordInAnyCase(w.contentType, Ascii("Content-Type"), true);
    EqNcIff(w.disposition, DispositionHeader());
    EqNcIff(w.contentType, TypeHeader());
    hide Ascii, Lower, DispositionHeader, TypeHeader;
    CStrOfNulFree(w.disposition);
    CStrOfNulFree(w.contentType);
  }

  /** A text that can stand in a header value. */
  ghost predicate Valuable(s: seq<byte>) {
    InLine(s) && NUL !in s && COLON !in s
  }

  lemma ValuablePlus(s: seq<byte>, t: seq<byte>)
    requires Valuable(s) && Valuable(t)
    ensures Valuable(s + t)
  {
  }

  lemma ArgumentIsValuable(name: seq<byte>, text: seq<byte>)
    requires Valuable(name) && Valuable(text)
    ensures Valuable(Argument(name, text))
  {
  }

  lemma AlnumIsValuable(s: seq<byte>)
    requires forall i :: 0 <= i < |s| ==> IsAlnum(s[i])
    ensures Valuable(s)
  {
  }

  lemma DispositionInLine(part: FormPart, boundary: seq<byte>, w: Spelling)
    requires Spelled(w) && Printable(part, boundary, w)
    ensures var v := DispositionValue(part.kind, part.name, part.fileName, w);
            Valuable(v) && v != [] && !IsSpace(v[0]) && |v| < SPACE_OF_LINE
  {
    SlotOfNames(w);
    assert Valuable(part.kind) && Valuable(part.name) && Valuable(part.fileName) && Valuable([]);
    AlnumIsValuable(w.name);
    AlnumIsValuable(w.fileName);
    hide Valuable, Argument, Ascii, Lower;
    ArgumentIsValuable(w.name, part.name);
    ArgumentIsValuable(w.fileName, part.fileName);
    ValuablePlus(part.kind, Argument(w.name, part.name));
    var s := part.kind + Argument(w.name, part.name);
    assert s[0] == part.kind[0];
    ValuablePlus(s, if part.fileName == [] then [] else Argument(w.fileName, part.fileName));
  }

  lemma PartsFit(part: FormPart, boundary: seq<byte>, w: Spelling)
    requires Printable(part, boundary, w)
    ensures QUOTE !in part.name && QUOTE !in part.fileName
    ensures |part.name| < SPACE_OF_LINE && |part.fileName| < SPACE_OF_LINE
  {
  }

  lemma DispositionIsTaken(part: FormPart, boundary: seq<byte>, w: Spelling, d: Disposition)
    requires Spelled(w) && Printable(part, boundary, w)
    ensures TakeHeader(d, w.disposition, DispositionValue(part.kind, part.name, part.fileName, w)) ==
            Some(Disposition(part.kind, part.name, part.fileName, d.contentType))
  {
    AttributeNames(w);
    DispositionInLine(part, boundary, w);
    var v := DispositionValue(part.kind, part.name, part.fileName, w);
    CStrOfNulFree(v);
    PartsFit(part, boundary, w);
    DispositionIsRead(part.kind, part.name, part.fileName, w);
    hide Decompose, Spelled, Printable, EqNc, CStr, DispositionValue;
  }

  lemma ContentTypeIsTaken(part: FormPart, boundary: seq<byte>, w: Spelling, d: Disposition)
    requires Spelled(w) && Printable(part, boundary, w) && part.contentType != []
    ensures TakeHeader(d, w.contentType, part.contentType) == Some(d.(contentType := TypeOf(part.contentType)))
  {
    AttributeNames(w);
    CStrOfNulFree(part.contentType);
    ContentTypeIsRead(part.contentType);
    hide Decompose, Spelled, Printable, EqNc, CStr, TypeOf;
  }

  lemma HeaderBlockStep(text: seq<byte>, d: Disposition, attr: seq<byte>, value: seq<byte>, rest: seq<byte>,
                        next: Disposition)
    requires HeaderLine(text) == Header(true, attr, value, rest) && TakeHeader(d, attr, value) == Some(next)
    ensures HeaderBlock(text, d) == HeaderBlock(rest, next)
  {
  }

  lemma HeaderBlockEnd(rest: seq<byte>, d: Disposition)
    ensures HeaderBlock(CRLF + rest, d) == Some((d, rest))
  {
  }

  lemma PrintedHeadersAre(part: FormPart, w: Spelling, rest: seq<byte>)
    ensures var second := if part.contentType == [] then [] else Line(w.contentType, part.contentType);
            PrintHeaders(part, w) + rest ==
            Line(w.disposition, DispositionValue(part.kind, part.name, part.fileName, w)) + (second + (CRLF + rest))
  {
    assert Ascii("\r\n") == CRLF;
    hide Line, DispositionValue;
  }

  /** Header names in any mixture of cases are read. */
  lemma HeadersAreRead(part: FormPart, boundary: seq<byte>, w: Spelling, rest: seq<byte>)
    requires Spelled(w) && Printable(part, boundary, w)
    ensures HeaderBlock(PrintHeaders(part, w) + rest, NOTHING) ==
            Some((Disposition(part.kind, part.name, part.fileName, TypeOf(part.contentType)), rest))
  {
    var value := DispositionValue(part.kind, part.name, part.fileName, w);
    var second := if part.contentType == [] then [] else Line(w.contentType, part.contentType);
    var tail := second + (CRLF + rest);
    var d := Disposition(part.kind, part.name, part.fileName, []);
    PrintedHeadersAre(part, w, rest);
    AttributeNames(w);
    DispositionInLine(part, boundary, w);
    LineIsRead(w.disposition, value, tail);
    DispositionIsTaken(part, boundary, w, NOTHING);
    assert part.contentType == [] ==> TypeOf(part.contentType) == [];
    if part.contentType != [] {
      LineIsRead(w.contentType, part.contentType, CRLF + rest);
      ContentTypeIsTaken(part, boundary, w, d);
    }
    hide *;
    HeaderBlockStep(PrintHeaders(part, w) + rest, NOTHING, w.disposition, value, tail, d);
    if part.contentType == [] {
      assert tail == CRLF + rest;
      HeaderBlockEnd(rest, d);
    } else {
      var e := d.(contentType := TypeOf(part.contentType));
      HeaderBlockStep(tail, d, w.contentType, part.contentType, CRLF + rest, e);
      HeaderBlockEnd(rest, e);
    }
  }

  lemma PrintHeadersStart(part: FormPart, w: Spelling)
    requires Spelled(w)
    ensures |PrintHeaders(part, w)| >= 2 && PrintHeaders(part, w)[0] != DASH
  {
    NamesAreWords();
    var c := Ascii("Content-Disposition");
    SameSize(w.disposition, c);
    assert c[0] == 'C' as byte && Lower(w.disposition)[0] == Lower(c)[0];
    hide Ascii, Lower, DispositionValue;
  }

  /** The entry that the parser builds is that of the part. */
  lemma EntryIsHeld(part: FormPart)
    ensures EntryOf(Disposition(part.kind, part.name, part.fileName, TypeOf(part.contentType)), part.body) ==
            EntryOfPart(part)
  {
  }

  /** What is to be parsed behind a delimiter: its line break is dropped, the dashes
      of the end are not. */
  function Behind(text: seq<byte>): seq<byte>
    requires |text| >= 2
  {
    if text[0] == DASH then text else text[2..]
  }

  lemma NextPartIs(text: seq<byte>, boundary: seq<byte>, d: Disposition, rest: seq<byte>, body: seq<byte>,
                   after: seq<byte>)
    requires |text| >= 2 && text[0] != DASH && HeaderBlock(text, NOTHING) == Some((d, rest))
    requires SplitAt(rest, Delimiter(boundary)) == Some((body, after))
    ensures NextPart(text, boundary) == Part(if EqNc(d.main, FormDataName()) then [EntryOf(d, body)] else [], after)
  {
    hide HeaderBlock, SplitAt, EntryOf, EqNc;
  }

  lemma BodyIsRead(part: FormPart, boundary: seq<byte>, w: Spelling, tail: seq<byte>)
    requires ValidBoundary(boundary) && Printable(part, boundary, w) && |tail| >= 2
    ensures SplitAt(part.body + Delimiter(boundary) + tail, Delimiter(boundary)) == Some((part.body, Behind(tail)))
  {
    DelimiterIs(boundary);
    assert Find(part.body, Delimiter(boundary)).None?;
    BodySurvivesIff(part.body, boundary, tail);
    hide SplitAt, Find, Printable, Ascii, Delimiter;
  }

  lemma FormDataIff(part: FormPart)
    ensures EqNc(part.kind, FormDataName()) <==> IsFormData(part)
  {
    EqNcIff(part.kind, FormDataName());
    NamesAreWords();
  }

  lemma PrintedPartStarts(part: FormPart, boundary: seq<byte>, w: Spelling, tail: seq<byte>)
    requires Spelled(w)
    ensures var text := PrintPart(part, w) + (Ascii("\r\n--") + boundary) + tail;
            && |text| >= 2 && text[0] != DASH
            && text == PrintHeaders(part, w) + (part.body + Delimiter(boundary) + tail)
  {
    hide *;
    DelimiterIs(boundary);
    PrintHeadersStart(part, w);
    PrintPartIs(part, w);
    Regroup4(PrintHeaders(part, w), part.body, Delimiter(boundary), tail);
  }

  lemma PrintPartIs(part: FormPart, w: Spelling)
    ensures PrintPart(part, w) == PrintHeaders(part, w) + part.body
  {
  }

  lemma Regroup4(a: seq<byte>, b: seq<byte>, c: seq<byte>, d: seq<byte>)
    ensures a + b + c + d == a + (b + c + d)
  {
  }

  lemma PartIsRead(part: FormPart, boundary: seq<byte>, w: Spelling, tail: seq<byte>)
    requires ValidBoundary(boundary) && Spelled(w) && Printable(part, boundary, w) && |tail| >= 2
    ensures NextPart(PrintPart(part, w) + (Ascii("\r\n--") + boundary) + tail, boundary) ==
            Part(if IsFormData(part) then [EntryOfPart(part)] else [], Behind(tail))
  {
    hide *;
    var text := PrintPart(part, w) + (Ascii("\r\n--") + boundary) + tail;
    var rest := part.body + Delimiter(boundary) + tail;
    var d := Disposition(part.kind, part.name, part.fileName, TypeOf(part.contentType));
    PrintedPartStarts(part, boundary, w, tail);
    HeadersAreRead(part, boundary, w, rest);
    BodyIsRead(part, boundary, w, tail);
    FormDataIff(part);
    EntryIsHeld(part);
    NextPartIs(text, boundary, d, rest, part.body, Behind(tail));
  }

  lemma PrintedPartsAre(parts: seq<FormPart>, boundary: seq<byte>, epilogue: seq<byte>, w: Spelling)
    requires parts != []
    ensures PrintParts(parts, boundary, epilogue, w)[2..] ==
            PrintPart(parts[0], w) + (Ascii("\r\n--") + boundary) + PrintParts(parts[1..], boundary, epilogue, w)
  {
    assert |Ascii("\r\n")| == 2;
    hide PrintPart, Ascii;
    DropTwo(Ascii("\r\n"), PrintPart(parts[0], w), Ascii("\r\n--") + boundary,
            PrintParts(parts[1..], boundary, epilogue, w));
  }

  lemma DropTwo(a: seq<byte>, b: seq<byte>, c: seq<byte>, d: seq<byte>)
    requires |a| == 2
    ensures (a + b + c + d)[2..] == b + c + d
  {
  }

  lemma BehindPart(parts: seq<FormPart>, boundary: seq<byte>, epilogue: seq<byte>, w: Spelling)
    requires parts != []
    ensures Behind(PrintParts(parts, boundary, epilogue, w)) ==
            PrintPart(parts[0], w) + (Ascii("\r\n--") + boundary) + PrintParts(parts[1..], boundary, epilogue, w)
  {
    PrintedPartsAre(parts, boundary, epilogue, w);
    var text := PrintParts(parts, boundary, epilogue, w);
    assert text[0] == text[..2][0];
    hide PrintParts, PrintPart, Ascii;
  }

  lemma NoPartsLeft(boundary: seq<byte>, epilogue: seq<byte>, w: Spelling, before: seq<Entry>)
    ensures Parts(Behind(PrintParts([], boundary, epilogue, w)), boundary, before) ==
            Outcome(Success, before + EntriesOfParts(FormParts([])))
  {
    EndIsRead(epilogue, boundary);
    assert before + [] == before;
  }

  lemma {:induction false} PartsAreRead(parts: seq<FormPart>, boundary: seq<byte>, epilogue: seq<byte>, w: Spelling,
                                        before: seq<Entry>)
    requires ValidBoundary(boundary) && Spelled(w) && AllPrintable(parts, boundary, w)
    ensures Parts(Behind(PrintParts(parts, boundary, epilogue, w)), boundary, before) ==
            Outcome(Success, before + EntriesOfParts(FormParts(parts)))
    decreases |parts|
  {
    hide *;
    if parts == [] {
      NoPartsLeft(boundary, epilogue, w, before);
    } else {
      var tail := PrintParts(parts[1..], boundary, epilogue, w);
      var entries := if IsFormData(parts[0]) then [EntryOfPart(parts[0])] else [];
      PrintableStep(parts, boundary, w);
      BehindPart(parts, boundary, epilogue, w);
      EntriesStep(parts);
      PartIsRead(parts[0], boundary, w, tail);
      PartsStep(Behind(PrintParts(parts, boundary, epilogue, w)), boundary, before, entries, Behind(tail));
      PartsAreRead(parts[1..], boundary, epilogue, w, before + entries);
      assert before + entries + EntriesOfParts(FormParts(parts[1..])) == before + EntriesOfParts(FormParts(parts));
    }
  }

  lemma PrintableStep(parts: seq<FormPart>, boundary: seq<byte>, w: Spelling)
    requires parts != [] && AllPrintable(parts, boundary, w)
    ensures Printable(parts[0], boundary, w) && AllPrintable(parts[1..], boundary, w)
  {
    hide Printable;
  }

  lemma PartsStep(text: seq<byte>, boundary: seq<byte>, before: seq<Entry>, entries: seq<Entry>, rest: seq<byte>)
    requires NextPart(text, boundary) == Part(entries, rest)
    ensures Parts(text, boundary, before) == Parts(rest, boundary, before + entries)
  {
    hide NextPart;
  }

  lemma EntriesStep(parts: seq<FormPart>)
    requires parts != []
    ensures EntriesOfParts(FormParts(parts)) ==
            (if IsFormData(parts[0]) then [EntryOfPart(parts[0])] else []) + EntriesOfParts(FormParts(parts[1..]))
  {
    hide EntryOfPart, IsFormData;
    var rest := FormParts(parts[1..]);
    if IsFormData(parts[0]) {
      assert ([parts[0]] + rest)[1..] == rest;
    } else {
      assert [] + rest == rest;
    }
  }

  lemma EndIsRead(epilogue: seq<byte>, boundary: seq<byte>)
    ensures NextPart(Ascii("--") + epilogue, boundary) == Stop(Success)
  {
    assert Ascii("--") == [DASH, DASH];
  }

  /** Parsing a printed message returns exactly its parts of form data, in order, and
      passes over the others: every byte of every body, with its length, and what the
      headers said, whatever case they are written in. */
  lemma ParseUndoesPrint(parts: seq<FormPart>, boundary: seq<byte>, epilogue: seq<byte>, w: Spelling)
    requires ValidBoundary(boundary) && Spelled(w) && AllPrintable(parts, boundary, w)
    ensures Returned(ParseMultipart(PrintMessage(parts, boundary, epilogue, w), boundary), FormParts(parts))
  {
    DelimiterIs(boundary);
    hide Parts, PrintParts, Opening, Holds, Printable, Spelled, Ascii, FormParts, EntriesOfParts;
    var p, tail := Opening(boundary), PrintParts(parts, boundary, epilogue, w);
    assert Find(p + tail, p) == Some(0);
    assert (p + tail)[0 + |p|..] == tail;
    PartsAreRead(parts, boundary, epilogue, w, []);
    assert [] + EntriesOfParts(FormParts(parts)) == EntriesOfParts(FormParts(parts));
  }

  /** A message of which the closing delimiter is missing is an error, unless it
      ends right behind a delimiter. */
  lemma UnclosedIsAnError(part: FormPart, boundary: seq<byte>, w: Spelling)
    requires ValidBoundary(boundary) && Spelled(w) && Printable(part, boundary, w)
    ensures NextPart(PrintPart(part, w), boundary) == Stop(IOError)
  {
    DelimiterIs(boundary);
    PrintHeadersStart(part, w);
    assert Find(part.body, Delimiter(boundary)).None?;
    hide HeaderBlock, PrintHeaders, Delimiter, Printable, Spelled, Ascii, Find;
    HeadersAreRead(part, boundary, w, part.body);
    assert PrintPart(part, w)[0] == PrintHeaders(part, w)[0];
  }

  /** Text without any boundary is an empty submission. */
  lemma NoBoundaryIsEmpty(content: seq<byte>, boundary: seq<byte>)
    requires Find(content, Ascii("--") + boundary).None?
    ensures ParseMultipart(content, boundary) == Outcome(Success, [])
  {
    DelimiterIs(boundary);
  }

  /** The code meets that: a printed message opens with its boundary, so that the
      search for it is tidy. */
  lemma PrintedOpensTidily(parts: seq<FormPart>, boundary: seq<byte>, epilogue: seq<byte>, w: Spelling)
    ensures var message := PrintMessage(parts, boundary, epilogue, w);
            Tidy(Machine(Flow([], message), Opening(boundary), 0, [], true), true)
  {
    DelimiterIs(boundary);
    hide PrintParts, Ascii;
    var message := PrintMessage(parts, boundary, epilogue, w);
    assert OpensCleanly(message, Opening(boundary));
    OpeningSearchIsTidy(message, boundary);
  }
}
