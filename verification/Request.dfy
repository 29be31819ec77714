// What the library's main does with a request before it calls the application:
// it takes the content type apart and parses the form data.
module Requests {
  import opened Bytes
  import opened MpStreams
  import opened Search
  import opened Boundaries
  import opened Headers
  import opened Forms
  import opened Multipart
  import opened MultipartRoundTrip
  import opened Urlencoded

  // ----- the content type

  const SPACE_OF_TYPE: nat := 1024

  function BoundaryKey(): seq<byte> { Ascii("boundary=") }

  /** cgiStrBeginsNc */
  predicate BeginsNc(s: seq<byte>, start: seq<byte>) {
    |start| <= |s| && EqNc(s[..|start|], start)
  }

  /** The boundary among the parameters that start behind a semicolon: the first
      that begins with "boundary=", up to the first whitespace. */
  function BoundaryIn(parameters: seq<byte>): (b: seq<byte>)
    decreases |parameters|
  {
    var p := Skip(parameters, Spaces);
    if BeginsNc(p, BoundaryKey()) then
      var b := p[|BoundaryKey()|..];
      b[..Span(b, NonSpaces)]
    else
      var rest := Skip(p, AllBut(SEMICOLON));
      if rest == [] then [] else BoundaryIn(rest[1..])
  }

  /** The content type without its parameters, and the boundary. */
  function ContentType(header: seq<byte>): (seq<byte>, seq<byte>) {
    var s := Clip(CStr(header), SPACE_OF_TYPE);
    var n := Span(s, AllBut(SEMICOLON));
    (s[..n], if n == |s| then [] else BoundaryIn(s[n + 1..]))
  }

  lemma {:induction false} BoundaryInIsShort(parameters: seq<byte>)
    requires NUL !in parameters
    ensures var b := BoundaryIn(parameters);
            && (b == [] || |b| + 9 <= |parameters|)
            && forall i :: 0 <= i < |b| ==> b[i] != NUL && !IsSpace(b[i])
    decreases |parameters|
  {
    assert |BoundaryKey()| == 9;
    hide EqNc, BoundaryKey;
    var p := Skip(parameters, Spaces);
    assert forall i :: 0 <= i < |p| ==> p[i] in parameters;
    if BeginsNc(p, BoundaryKey()) {
      var b := p[9..];
      var c := b[..Span(b, NonSpaces)];
      assert forall i :: 0 <= i < |c| ==> c[i] == p[i + 9] && NonSpaces.Has(b[i]);
    } else {
      var rest := Skip(p, AllBut(SEMICOLON));
      if rest != [] {
        assert forall i :: 0 <= i < |rest| ==> rest[i] in p;
        BoundaryInIsShort(rest[1..]);
      }
    }
  }

  lemma TypeIsShort(header: seq<byte>)
    ensures var s := Clip(CStr(header), SPACE_OF_TYPE); |s| < SPACE_OF_TYPE && NUL !in s
  {
  }

  /** Whatever the header, the boundary is one that the search can work with: free
      of whitespace, and short enough for the buffer of the delimiter. */
  lemma BoundaryIsValid(header: seq<byte>)
    ensures ValidBoundary(ContentType(header).1)
  {
    TypeIsShort(header);
    hide BoundaryIn, Clip, CStr, Span;
    var s := Clip(CStr(header), SPACE_OF_TYPE);
    var n := Span(s, AllBut(SEMICOLON));
    if n < |s| {
      BoundaryInIsShort(s[n + 1..]);
    }
  }

  /** One turn of the loop over the parameters: the boundary has been found, or
      the next parameter, or neither. */
  method TakeParameter(s: seq<byte>, sat: nat) returns (found: bool, boundary: seq<byte>, next: nat)
    requires sat <= |s|
    ensures var p := Skip(s[sat..], Spaces);
            if BeginsNc(p, BoundaryKey()) then
              found && boundary == p[|BoundaryKey()|..][..Span(p[|BoundaryKey()|..], NonSpaces)]
            else
              !found && sat <= next <= |s| && s[next..] == Skip(p, AllBut(SEMICOLON))
  {
    hide EqNc, BoundaryKey, Span, Skip;
    var p := ScanPast(s, sat, Spaces);
    found, boundary, next := BeginsNc(s[p..], BoundaryKey()), [], p;
    if found {
      var start := p + |BoundaryKey()|;
      assert s[p..][|BoundaryKey()|..] == s[start..];
      var end := ScanPast(s, start, NonSpaces);
      boundary := s[start..end];
      assert s[start..][..end - start] == boundary;
    } else {
      next := ScanPast(s, p, AllBut(SEMICOLON));
    }
  }

  lemma BoundaryTurn(parameters: seq<byte>)
    ensures var p := Skip(parameters, Spaces);
            var rest := Skip(p, AllBut(SEMICOLON));
            BoundaryIn(parameters) ==
            if BeginsNc(p, BoundaryKey()) then
              p[|BoundaryKey()|..][..Span(p[|BoundaryKey()|..], NonSpaces)]
            else if rest == [] then []
            else BoundaryIn(rest[1..])
  {
    hide BeginsNc, BoundaryKey, Span, Skip;
  }

  /** The loop over the parameters. */
  method FindBoundary(s: seq<byte>, from: nat) returns (boundary: seq<byte>)
    requires from <= |s|
    ensures boundary == BoundaryIn(s[from..])
  {
    hide BeginsNc, BoundaryKey, Span, Skip, BoundaryIn;
    var sat := from;
    while true
      invariant sat <= |s| && BoundaryIn(s[sat..]) == BoundaryIn(s[from..])
      decreases |s| - sat
    {
      BoundaryTurn(s[sat..]);
      var found, next;
      found, boundary, next := TakeParameter(s, sat);
      if found {
        return;
      }
      if next == |s| {
        return [];
      }
      Suffix(s, next);
      sat := next + 1;
    }
  }

  method TakeContentType(header: seq<byte>) returns (contentType: seq<byte>, boundary: seq<byte>)
    ensures (contentType, boundary) == ContentType(header)
  {
    hide BoundaryIn;
    var s := Clip(CStr(header), SPACE_OF_TYPE);
    var semicolon := ScanPast(s, 0, AllBut(SEMICOLON));
    assert s[0..] == s;
    contentType, boundary := s[..semicolon], [];
    if semicolon < |s| {
      boundary := FindBoundary(s, semicolon + 1);
    }
  }

  // ----- the request

  function PostName(): seq<byte> { Ascii("post") }
  function GetName(): seq<byte> { Ascii("get") }
  function UrlencodedType(): seq<byte> { Ascii("application/x-www-form-urlencoded") }
  function MultipartType(): seq<byte> { Ascii("multipart/form-data") }

  /** cgiParsePostFormInput: a body shorter than declared is an error. */
  function ParsePostForm(input: seq<byte>, contentLength: nat): Outcome {
    if contentLength == 0 then Outcome(Success, [])
    else if |input| < contentLength then Outcome(IOError, [])
    else Outcome(Success, FormEntries(input[..contentLength]))
  }

  /** The outcome for a request. */
  function ParseRequest(requestMethod: seq<byte>, header: seq<byte>, input: seq<byte>, contentLength: nat,
                        query: seq<byte>): Outcome {
    var (contentType, boundary) := ContentType(header);
    if EqNc(requestMethod, PostName()) then
      if EqNc(contentType, UrlencodedType()) then ParsePostForm(input, contentLength)
      else if EqNc(contentType, MultipartType()) then ParseRun(input[..Min(|input|, contentLength)], boundary).0
      else Outcome(Success, [])
    else if EqNc(requestMethod, GetName()) then Outcome(Success, FormEntries(CStr(query)))
    else Outcome(Success, [])
  }

  method HandleRequest(requestMethod: seq<byte>, header: seq<byte>, input: seq<byte>, contentLength: nat,
                       query: seq<byte>)
    returns (result: ParseResult, entries: seq<Entry>)
    ensures Outcome(result, entries) == ParseRequest(requestMethod, header, input, contentLength, query)
  {
    hide EqNc, ContentType, ParseRun, FormEntries;
    var contentType, boundary := TakeContentType(header);
    result, entries := Success, [];
    if EqNc(requestMethod, PostName()) {
      if EqNc(contentType, UrlencodedType()) {
        if contentLength == 0 {
          return;
        }
        if |input| < contentLength {
          return IOError, [];
        }
        entries := ParseFormInput(input[..contentLength]);
      } else if EqNc(contentType, MultipartType()) {
        BoundaryIsValid(header);
        ghost var episodes;
        result, entries, episodes := ParsePostMultipartInput(input, contentLength, boundary);
      }
    } else if EqNc(requestMethod, GetName()) {
      entries := ParseFormInput(CStr(query));
    }
  }

  // ----- in any mixture of cases

  predicate IsPost(s: seq<byte>) {
    SameLetters(s, Ascii("post"))
  }

  predicate IsGet(s: seq<byte>) {
    SameLetters(s, Ascii("get"))
  }

  predicate IsUrlencodedType(s: seq<byte>) {
    SameLetters(s, Ascii("application/x-www-form-urlencoded"))
  }

  predicate IsMultipartType(s: seq<byte>) {
    SameLetters(s, Ascii("multipart/form-data"))
  }

  /** The code recognises these. */
  lemma NamesAreRecognised(s: seq<byte>)
    ensures EqNc(s, PostName()) <==> IsPost(s)
    ensures EqNc(s, GetName()) <==> IsGet(s)
    ensures EqNc(s, UrlencodedType()) <==> IsUrlencodedType(s)
    ensures EqNc(s, MultipartType()) <==> IsMultipartType(s)
  {
    hide EqNc, SameLetters;
    EqNcIff(s, PostName());
    EqNcIff(s, GetName());
    EqNcIff(s, UrlencodedType());
    EqNcIff(s, MultipartType());
  }

  /** Which parser gets what, for methods and types in any mixture of cases. */
  lemma DispatchIs(requestMethod: seq<byte>, header: seq<byte>, input: seq<byte>, contentLength: nat, query: seq<byte>)
    ensures var (contentType, boundary) := ContentType(header);
            ParseRequest(requestMethod, header, input, contentLength, query) ==
            if IsPost(requestMethod) then
              if IsUrlencodedType(contentType) then
                if contentLength == 0 then Outcome(Success, [])
                else if |input| < contentLength then Outcome(IOError, [])
                else Outcome(Success, FormEntries(input[..contentLength]))
              else if IsMultipartType(contentType) then
                ParseRun(if |input| <= contentLength then input else input[..contentLength], boundary).0
              else Outcome(Success, [])
            else if IsGet(requestMethod) then Outcome(Success, FormEntries(CStr(query)))
            else Outcome(Success, [])
  {
    NamesAreRecognised(requestMethod);
    NamesAreRecognised(ContentType(header).0);
    hide EqNc, IsPost, IsGet, IsUrlencodedType, IsMultipartType, ContentType, FormEntries, ParseRun, CStr;
    hide PostName, GetName, UrlencodedType, MultipartType;
    assert input[..|input|] == input;
  }

  // ----- the boundary among other parameters

  lemma BeginsInAnyCase(p: seq<byte>, key: seq<byte>)
    ensures BeginsNc(p, key) <==> |key| <= |p| && SameLetters(p[..|key|], key)
  {
    if |key| <= |p| {
      EqNcIff(p[..|key|], key);
    }
  }

  ghost predicate IsBoundaryKey(key: seq<byte>) {
    SameLetters(key, Ascii("boundary="))
  }

  lemma KeyIsKnown(key: seq<byte>)
    requires IsBoundaryKey(key)
    ensures |key| == 9 == |BoundaryKey()| && EqNc(key, BoundaryKey()) && NUL !in key && !IsSpace(key[0])
  {
    var k := Ascii("boundary=");
    SameSize(key, k);
    EqNcIff(key, k);
    assert forall i :: 0 <= i < 9 ==> Lower(key)[i] == Lower(k)[i];
    assert forall i :: 0 <= i < 9 ==> k[i] != NUL && !IsSpace(k[i]);
    LowerKeeps(key, k);
  }

  lemma LowerKeeps(s: seq<byte>, t: seq<byte>)
    requires SameLetters(s, t) && |s| == |t| && forall i :: 0 <= i < |t| ==> t[i] != NUL && !IsSpace(t[i])
    ensures forall i :: 0 <= i < |s| ==> s[i] != NUL && !IsSpace(s[i])
  {
    forall i | 0 <= i < |s|
      ensures s[i] != NUL && !IsSpace(s[i])
    {
      assert Lower(s)[i] == Lower(t)[i];
    }
  }

  lemma BoundaryEnds(boundary: seq<byte>, rest: seq<byte>)
    requires (forall i :: 0 <= i < |boundary| ==> !IsSpace(boundary[i])) && (rest == [] || IsSpace(rest[0]))
    ensures (boundary + rest)[..Span(boundary + rest, NonSpaces)] == boundary
  {
    SpanIs(boundary + rest, NonSpaces, |boundary|);
  }

  /** The boundary ends at whitespace, or with the header. */
  lemma BoundaryIsFound(key: seq<byte>, boundary: seq<byte>, rest: seq<byte>)
    requires IsBoundaryKey(key) && (forall i :: 0 <= i < |boundary| ==> !IsSpace(boundary[i]))
    requires rest == [] || IsSpace(rest[0])
    ensures BoundaryIn(Ascii(" ") + key + boundary + rest) == boundary
  {
    assert Ascii(" ") == [SPACE];
    hide *;
    KeyIsKnown(key);
    BoundaryEnds(boundary, rest);
    var p := key + (boundary + rest);
    Regroup([SPACE], key, boundary, rest);
    assert p[..|key|] == key && p[|key|..] == boundary + rest && p[0] == key[0];
    SkipOneSpace(p);
    BeginsWithKey(p, key);
    FoundIs([SPACE] + p, p, boundary + rest);
  }

  lemma Regroup(a: seq<byte>, b: seq<byte>, c: seq<byte>, d: seq<byte>)
    ensures a + b + c + d == a + (b + (c + d))
  {
  }

  lemma FoundIs(parameters: seq<byte>, p: seq<byte>, b: seq<byte>)
    requires Skip(parameters, Spaces) == p && BeginsNc(p, BoundaryKey()) && p[|BoundaryKey()|..] == b
    ensures BoundaryIn(parameters) == b[..Span(b, NonSpaces)]
  {
    hide EqNc, BoundaryKey, Span, Skip;
  }

  lemma BeginsWithKey(p: seq<byte>, key: seq<byte>)
    requires |key| == |BoundaryKey()| <= |p| && p[..|key|] == key && EqNc(key, BoundaryKey())
    ensures BeginsNc(p, BoundaryKey())
  {
    hide EqNc, BoundaryKey;
  }

  /** Other parameters in front of it are passed over. */
  lemma OtherParameterIsPassed(other: seq<byte>, rest: seq<byte>)
    requires ';' as byte !in other && (other != [] ==> !IsSpace(other[0]))
    requires !(|other| >= 9 && SameLetters(other[..9], Ascii("boundary=")))
    requires rest != [] && IsSpace(rest[0])
    ensures BoundaryIn(other + Ascii(";") + rest) == BoundaryIn(rest)
  {
    assert Ascii(";") == [SEMICOLON] && BoundaryKey() == Ascii("boundary=") && |BoundaryKey()| == 9;
    NotTheKey(other, rest);
    hide Ascii, BoundaryKey, EqNc, BeginsNc, Lower, BoundaryIn;
    var p := other + ([SEMICOLON] + rest);
    assert other + [SEMICOLON] + rest == p;
    SpanIs(p, Spaces, 0);
    SpanIs(p, AllBut(SEMICOLON), |other|);
    assert p[0..] == p && p[|other|..] == [SEMICOLON] + rest && ([SEMICOLON] + rest)[1..] == rest;
    hide Span;
    BoundaryTurn(p);
  }

  /** A parameter that does not begin so is not mistaken for the boundary because of
      what follows its semicolon. */
  lemma NotTheKey(other: seq<byte>, rest: seq<byte>)
    requires ';' as byte !in other && !(|other| >= 9 && SameLetters(other[..9], Ascii("boundary=")))
    ensures !BeginsNc(other + ([SEMICOLON] + rest), BoundaryKey())
  {
    var p, key := other + ([SEMICOLON] + rest), BoundaryKey();
    assert |key| == 9 && key == Ascii("boundary=");
    BeginsInAnyCase(p, key);
    if |other| >= 9 {
      assert p[..9] == other[..9];
    } else if |p| >= 9 && SameLetters(p[..9], key) {
      assert Lower(p[..9])[|other|] == Lower(key)[|other|];
      NoSemicolonInKey();
    }
  }

  lemma NoSemicolonInKey()
    ensures forall i :: 0 <= i < |BoundaryKey()| ==> ToLower(BoundaryKey()[i]) != SEMICOLON
  {
  }

  // ----- round trips of whole requests

  function MultipartHeader(contentType: seq<byte>, key: seq<byte>, boundary: seq<byte>): seq<byte> {
    contentType + Ascii("; ") + key + boundary
  }

  lemma NulFreePlus(s: seq<byte>, t: seq<byte>)
    requires NUL !in s && NUL !in t
    ensures NUL !in s + t
  {
  }

  lemma TypeIsKnown(contentType: seq<byte>)
    requires IsMultipartType(contentType)
    ensures NUL !in contentType && SEMICOLON !in contentType
  {
    var t := Ascii("multipart/form-data");
    SameSize(contentType, t);
    assert forall i :: 0 <= i < |t| ==> t[i] != NUL && t[i] != SEMICOLON;
    hide Ascii;
    forall i | 0 <= i < |t|
      ensures contentType[i] != NUL && contentType[i] != SEMICOLON
    {
      assert Lower(contentType)[i] == Lower(t)[i];
    }
  }

  lemma MultipartHeaderIsRead(contentType: seq<byte>, key: seq<byte>, boundary: seq<byte>)
    requires IsMultipartType(contentType) && IsBoundaryKey(key) && ValidBoundary(boundary)
    requires |MultipartHeader(contentType, key, boundary)| < SPACE_OF_TYPE
    ensures ContentType(MultipartHeader(contentType, key, boundary)) == (contentType, boundary)
  {
    var header := MultipartHeader(contentType, key, boundary);
    assert Ascii("; ") == [SEMICOLON, SPACE] && Ascii(" ") == [SPACE];
    assert NUL !in boundary && NUL !in [SEMICOLON, SPACE];
    assert header == contentType + Ascii("; ") + key + boundary;
    hide *;
    TypeIsKnown(contentType);
    KeyIsKnown(key);
    var tail := [SEMICOLON, SPACE] + key + boundary;
    assert header == contentType + tail;
    NulFreePlus([SEMICOLON, SPACE], key);
    NulFreePlus([SEMICOLON, SPACE] + key, boundary);
    NulFreePlus(contentType, tail);
    CStrOfNulFree(header);
    SecondByte(key, boundary);
    TypeEnds(contentType, tail);
    NoSpacesIn(boundary);
    BoundaryIsFound(key, boundary, []);
    assert [SPACE] + key + boundary + [] == [SPACE] + key + boundary;
    ContentTypeIs(header, contentType);
  }

  lemma SecondByte(key: seq<byte>, boundary: seq<byte>)
    ensures var tail := [SEMICOLON, SPACE] + key + boundary;
            tail != [] && tail[0] == SEMICOLON && tail[1..] == [SPACE] + key + boundary
  {
  }

  lemma ContentTypeIs(header: seq<byte>, name: seq<byte>)
    requires CStr(header) == header && |header| < SPACE_OF_TYPE && |name| < |header|
    requires Span(header, AllBut(SEMICOLON)) == |name| && header[..|name|] == name
    ensures ContentType(header) == (name, BoundaryIn(header[|name| + 1..]))
  {
  }

  lemma NoSpacesIn(boundary: seq<byte>)
    requires ValidBoundary(boundary)
    ensures forall i :: 0 <= i < |boundary| ==> !IsSpace(boundary[i])
  {
  }

  lemma TypeEnds(name: seq<byte>, rest: seq<byte>)
    requires SEMICOLON !in name && rest != [] && rest[0] == SEMICOLON
    ensures Span(name + rest, AllBut(SEMICOLON)) == |name|
    ensures (name + rest)[..|name|] == name && (name + rest)[|name| + 1..] == rest[1..]
  {
  }

  lemma SizesDiffer(s: seq<byte>, t: seq<byte>)
    requires |s| != |t|
    ensures !SameLetters(s, t)
  {
    if SameLetters(s, t) {
      SameSize(s, t);
    }
  }

  lemma KindsDiffer(contentType: seq<byte>)
    requires IsMultipartType(contentType)
    ensures !IsUrlencodedType(contentType)
  {
    assert |Ascii("multipart/form-data")| == 19 && |Ascii("application/x-www-form-urlencoded")| == 33;
    hide Ascii, Lower;
    SameSize(contentType, Ascii("multipart/form-data"));
    SizesDiffer(contentType, Ascii("application/x-www-form-urlencoded"));
  }

  lemma MethodsDiffer(requestMethod: seq<byte>)
    requires IsGet(requestMethod)
    ensures !IsPost(requestMethod)
  {
    assert |Ascii("get")| == 3 && |Ascii("post")| == 4;
    hide Ascii, Lower;
    SameSize(requestMethod, Ascii("get"));
    SizesDiffer(requestMethod, Ascii("post"));
  }

  lemma MultipartRequestIs(requestMethod: seq<byte>, contentType: seq<byte>, key: seq<byte>, boundary: seq<byte>,
                           message: seq<byte>)
    requires IsPost(requestMethod) && IsMultipartType(contentType) && IsBoundaryKey(key) && ValidBoundary(boundary)
    requires |MultipartHeader(contentType, key, boundary)| < SPACE_OF_TYPE
    ensures ParseRequest(requestMethod, MultipartHeader(contentType, key, boundary), message, |message|, []) ==
            ParseRun(message, boundary).0
  {
    hide *;
    MultipartHeaderIsRead(contentType, key, boundary);
    KindsDiffer(contentType);
    DispatchIs(requestMethod, MultipartHeader(contentType, key, boundary), message, |message|, []);
  }

  lemma PrintedRun(parts: seq<FormPart>, boundary: seq<byte>, epilogue: seq<byte>, w: Spelling)
    requires ValidBoundary(boundary)
    ensures var message := PrintMessage(parts, boundary, epilogue, w);
            ParseRun(message, boundary) == (ParseMultipart(message, boundary), true)
  {
    PrintedOpensTidily(parts, boundary, epilogue, w);
    hide Machine, ParseRun, ParseMultipart, PrintMessage;
    var message := PrintMessage(parts, boundary, epilogue, w);
    TidyOpensRight(message, boundary);
    ParseRunIsReference(message, boundary);
  }

  /** A printed multipart submission, handled as a request, gives its parts, whatever
      case the method, the type, the keys and the header names are written in, and
      every put-back on the way finds the ring empty. */
  lemma MultipartRequestRoundTrip(requestMethod: seq<byte>, contentType: seq<byte>, key: seq<byte>,
                                  parts: seq<FormPart>, boundary: seq<byte>, epilogue: seq<byte>, w: Spelling)
    requires IsPost(requestMethod) && IsMultipartType(contentType) && IsBoundaryKey(key)
    requires ValidBoundary(boundary) && |MultipartHeader(contentType, key, boundary)| < SPACE_OF_TYPE
    requires Spelled(w) && AllPrintable(parts, boundary, w)
    ensures var header := MultipartHeader(contentType, key, boundary);
            var message := PrintMessage(parts, boundary, epilogue, w);
            && Returned(ParseRequest(requestMethod, header, message, |message|, []), FormParts(parts))
            && ParseRun(message, boundary).1
  {
    hide *;
    MultipartRequestIs(requestMethod, contentType, key, boundary, PrintMessage(parts, boundary, epilogue, w));
    PrintedRun(parts, boundary, epilogue, w);
    ParseUndoesPrint(parts, boundary, epilogue, w);
  }

  /** An encoded list of pairs gives the names and values, posted. */
  lemma PostedRoundTrip(requestMethod: seq<byte>, contentType: seq<byte>, pairs: seq<(seq<byte>, seq<byte>)>,
                        literal: set<byte>, upper: bool)
    requires literal !! RESERVED && IsUrlencodedType(contentType) && IsPost(requestMethod)
    ensures var data := EncodePairs(pairs, literal, upper);
            var r := ParseRequest(requestMethod, contentType, data, |data|, []);
            r.result == Success && FieldsHold(r.entries, pairs)
  {
    hide *;
    var data := EncodePairs(pairs, literal, upper);
    PlainTypeIsRead(contentType);
    ParseUndoesEncode(pairs, literal, upper);
    EmptyForm();
    DispatchIs(requestMethod, contentType, data, |data|, []);
    assert data[..|data|] == data;
  }

  /** Or in a query. */
  lemma QueriedRoundTrip(requestMethod: seq<byte>, header: seq<byte>, pairs: seq<(seq<byte>, seq<byte>)>,
                         literal: set<byte>, upper: bool)
    requires literal !! RESERVED + {NUL} && IsGet(requestMethod)
    ensures var r := ParseRequest(requestMethod, header, [], 0, EncodePairs(pairs, literal, upper));
            r.result == Success && FieldsHold(r.entries, pairs)
  {
    assert NUL !in literal && literal !! RESERVED;
    hide *;
    var data := EncodePairs(pairs, literal, upper);
    ParseUndoesEncode(pairs, literal, upper);
    EncodedIsNulFree(pairs, literal, upper);
    CStrOfNulFree(data);
    MethodsDiffer(requestMethod);
    DispatchIs(requestMethod, header, [], 0, data);
  }

  lemma EmptyForm()
    ensures FormEntries([]) == []
  {
  }

  lemma PlainTypeIsRead(s: seq<byte>)
    requires IsUrlencodedType(s)
    ensures ContentType(s) == (s, [])
  {
    UrlencodedIsPlain(s);
    CStrOfNulFree(s);
    SpanIs(s, AllBut(SEMICOLON), |s|);
    hide CStr, Span, BoundaryIn, IsUrlencodedType;
    assert s[..|s|] == s;
  }

  lemma UrlencodedIsPlain(s: seq<byte>)
    requires IsUrlencodedType(s)
    ensures NUL !in s && SEMICOLON !in s && |s| == 33
  {
    var u := "application/x-www-form-urlencoded";
    var t := Ascii(u);
    SameSize(s, t);
    assert forall i :: 0 <= i < |u| ==> u[i] != 0 as char && u[i] != ';';
    assert forall i :: 0 <= i < |t| ==> t[i] != NUL && t[i] != SEMICOLON;
    hide Ascii;
    forall i | 0 <= i < |t|
      ensures s[i] != NUL && s[i] != SEMICOLON
    {
      assert Lower(s)[i] == Lower(t)[i];
    }
  }

  lemma {:induction false} EncodeIsNulFree(s: seq<byte>, literal: set<byte>, upper: bool)
    requires NUL !in literal
    ensures NUL !in Encode(s, literal, upper)
  {
    if s != [] {
      EncodeIsNulFree(s[1..], literal, upper);
    }
  }

  lemma {:induction false} EncodedIsNulFree(pairs: seq<(seq<byte>, seq<byte>)>, literal: set<byte>, upper: bool)
    requires NUL !in literal
    ensures NUL !in EncodePairs(pairs, literal, upper)
  {
    if pairs != [] {
      EncodeIsNulFree(pairs[0].0, literal, upper);
      EncodeIsNulFree(pairs[0].1, literal, upper);
      EncodedIsNulFree(pairs[1..], literal, upper);
    }
  }
}
