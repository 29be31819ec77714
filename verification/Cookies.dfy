// Looking up a cookie in the Cookie header.
module Cookies {
  import opened Bytes
  import opened Headers

  datatype CookieResult = CookieSuccess | CookieTruncated | CookieNotFound

  // ----- the specification: split, trim, search

  /** The text between semicolons. */
  function Split(s: seq<byte>): (r: seq<seq<byte>>)
    ensures r != []
    decreases |s|
  {
    var n := Span(s, AllBut(SEMICOLON));
    if n == |s| then [s] else [s[..n]] + Split(s[n + 1..])
  }

  function Trim(segment: seq<byte>): seq<byte> {
    Skip(segment, Spaces)
  }

  function TrimAll(segments: seq<seq<byte>>): (r: seq<seq<byte>>)
    ensures |r| == |segments| && forall i :: 0 <= i < |r| ==> r[i] == Trim(segments[i])
  {
    seq(|segments|, i requires 0 <= i < |segments| => Trim(segments[i]))
  }

  /** All segments but the first lose their leading whitespace. */
  function Segments(cookie: seq<byte>): seq<seq<byte>> {
    [Split(cookie)[0]] + TrimAll(Split(cookie)[1..])
  }

  /** What follows "name=" in the first segment that starts so. */
  function Search(segments: seq<seq<byte>>, name: seq<byte>): Option<seq<byte>> {
    if segments == [] then None
    else if name + [EQUALS] <= segments[0] then Some(segments[0][|name| + 1..])
    else Search(segments[1..], name)
  }

  // ----- the walk of the code

  function Common(s: seq<byte>, t: seq<byte>): (n: nat)
    ensures n <= |s| && n <= |t| && s[..n] == t[..n]
    ensures n < |s| && n < |t| ==> s[n] != t[n]
  {
    if s == [] || t == [] || s[0] != t[0] then 0
    else
      var n := 1 + Common(s[1..], t[1..]);
      assert s[..n] == [s[0]] + s[1..][..n - 1] && t[..n] == [t[0]] + t[1..][..n - 1];
      n
  }

  /** What one turn of the loop finds at p, the start of a segment: the value, or
      the next segment, or neither. */
  datatype Turn = Value(v: seq<byte>) | NextSegment(rest: seq<byte>) | Malformed | LastSegment

  function Look(p: seq<byte>, name: seq<byte>): (t: Turn)
    ensures t.NextSegment? ==> |t.rest| < |p|
  {
    var k := Common(p, name);
    if k == |p| && k == |name| then Malformed
    else if k == |name| && p[k] == EQUALS then Value(p[k + 1..][..Span(p[k + 1..], AllBut(SEMICOLON))])
    else
      var tail := Skip(p[k..], AllBut(SEMICOLON));
      if tail == [] then LastSegment else NextSegment(Skip(tail[1..], Spaces))
  }

  function Walk(p: seq<byte>, name: seq<byte>): Option<seq<byte>>
    decreases |p|
  {
    if p == [] then None
    else match Look(p, name)
      case Value(v) => Some(v)
      case NextSegment(rest) => Walk(rest, name)
      case Malformed => None
      case LastSegment => None
  }

  /** The walk ends at a last segment that is the name without an equals sign. */
  predicate EndsMalformed(p: seq<byte>, name: seq<byte>)
    decreases |p|
  {
    p != [] &&
    match Look(p, name)
    case Value(v) => false
    case NextSegment(rest) => EndsMalformed(rest, name)
    case Malformed => true
    case LastSegment => false
  }

  // ----- the walk finds what the specification asks for

  lemma SplitWithoutHead(s: seq<byte>)
    requires s != [] && IsSpace(s[0])
    ensures Split(s)[0] == [s[0]] + Split(s[1..])[0] && Split(s)[1..] == Split(s[1..])[1..]
  {
    var n := Span(s, AllBut(SEMICOLON));
    assert s[..n] == [s[0]] + s[1..][..n - 1];
    if n < |s| {
      assert s[n + 1..] == s[1..][n..];
    } else {
      assert s == [s[0]] + s[1..];
    }
  }

  lemma TrimWithoutHead(b: byte, s: seq<byte>)
    ensures Trim([b] + s) == if IsSpace(b) then Trim(s) else [b] + s
  {
    assert ([b] + s)[1..] == s;
    assert Span([b] + s, Spaces) == if IsSpace(b) then 1 + Span(s, Spaces) else 0;
    hide Span, IsSpace;
  }

  lemma {:induction false} SplitTrimmed(s: seq<byte>)
    ensures var t := Skip(s, Spaces);
            Split(t)[0] == Trim(Split(s)[0]) && Split(t)[1..] == Split(s)[1..]
  {
    if s != [] && IsSpace(s[0]) {
      hide Split, Trim;
      SplitTrimmed(s[1..]);
      SplitWithoutHead(s);
      TrimWithoutHead(s[0], Split(s[1..])[0]);
    } else {
      hide Split, Trim, Skip;
      HeadOfSplit(s);
      NothingToTrim(s);
      NothingToTrim(Split(s)[0]);
    }
  }

  lemma HeadOfSplit(s: seq<byte>)
    ensures Split(s)[0] == s[..Span(s, AllBut(SEMICOLON))]
  {
  }

  lemma NothingToTrim(s: seq<byte>)
    requires s == [] || !IsSpace(s[0])
    ensures Trim(s) == s && Skip(s, Spaces) == s
  {
  }

  lemma TrimSplitHead(segments: seq<seq<byte>>)
    requires segments != []
    ensures TrimAll(segments) == [Trim(segments[0])] + TrimAll(segments[1..])
  {
  }

  lemma HeadSegment(p: seq<byte>)
    ensures var n := Span(p, AllBut(SEMICOLON));
            && Split(p)[0] == p[..n]
            && (n == |p| ==> Segments(p) == [p])
            && (n < |p| ==> Segments(p) == [p[..n]] + Segments(Skip(p[n + 1..], Spaces)))
  {
    var n := Span(p, AllBut(SEMICOLON));
    if n < |p| {
      var s := p[n + 1..];
      assert Split(p) == [p[..n]] + Split(s);
      hide Split, Trim, Skip, TrimAll;
      SplitTrimmed(s);
      assert Split(p)[1..] == Split(s);
      TrimSplitHead(Split(s));
    } else {
      assert p[..n] == p;
      assert TrimAll([]) == [];
    }
  }

  /** The partial match stays within the segment. */
  lemma LookStaysInSegment(p: seq<byte>, name: seq<byte>)
    requires SEMICOLON !in name
    ensures var n, k := Span(p, AllBut(SEMICOLON)), Common(p, name);
            k <= n && n == k + Span(p[k..], AllBut(SEMICOLON)) && Skip(p[k..], AllBut(SEMICOLON)) == p[n..]
  {
    var n, k := Span(p, AllBut(SEMICOLON)), Common(p, name);
    assert forall i :: 0 <= i < k ==> p[i] == p[..k][i] && p[..k][i] == name[i];
    SpanIs(p[k..], AllBut(SEMICOLON), n - k);
    assert p[k..][n - k..] == p[n..];
  }

  /** A partial match that stops short of "name=" rules the segment out. */
  lemma NoMatch(segment: seq<byte>, name: seq<byte>, k: nat)
    requires k <= |segment| && k <= |name|
    requires k < |segment| ==> segment[k] != (name + [EQUALS])[k]
    ensures !(name + [EQUALS] <= segment)
  {
  }

  lemma FullMatch(p: seq<byte>, name: seq<byte>, n: nat)
    requires |name| < n <= |p| && p[..|name|] == name && p[|name|] == EQUALS
    ensures name + [EQUALS] <= p[..n]
  {
  }

  lemma RestOfSegment(p: seq<byte>, k: nat)
    requires k < Span(p, AllBut(SEMICOLON))
    ensures var n := Span(p, AllBut(SEMICOLON));
            Span(p[k + 1..], AllBut(SEMICOLON)) == n - k - 1 && p[k + 1..][..n - k - 1] == p[..n][k + 1..]
  {
  }

  /** The segment starts with "name=" exactly when the code says so. */
  lemma LookFinds(p: seq<byte>, name: seq<byte>)
    requires SEMICOLON !in name
    ensures var segment := p[..Span(p, AllBut(SEMICOLON))];
            if Look(p, name).Value? then
              name + [EQUALS] <= segment && segment[|name| + 1..] == Look(p, name).v
            else
              !(name + [EQUALS] <= segment)
  {
    hide Common, Span, Skip;
    var n, k := Span(p, AllBut(SEMICOLON)), Common(p, name);
    LookStaysInSegment(p, name);
    if k == |name| && k < |p| && p[k] == EQUALS {
      EqualsIsInSegment(p, k);
      FullMatch(p, name, n);
      RestOfSegment(p, k);
    } else {
      NoMatch(p[..n], name, k);
    }
  }

  lemma EqualsIsInSegment(p: seq<byte>, k: nat)
    requires k <= Span(p, AllBut(SEMICOLON)) && k < |p| && p[k] == EQUALS
    ensures k < Span(p, AllBut(SEMICOLON))
  {
  }

  lemma LookBehind(p: seq<byte>, name: seq<byte>, n: nat)
    requires Common(p, name) <= n <= |p| && Skip(p[Common(p, name)..], AllBut(SEMICOLON)) == p[n..]
    ensures match Look(p, name)
            case Value(_) => true
            case NextSegment(rest) => n < |p| && rest == Skip(p[n..][1..], Spaces)
            case Malformed => n == |p|
            case LastSegment => n == |p|
  {
  }

  /** If there is no value, the next segment, if any, is the one behind the
      semicolon. */
  lemma LookMovesOn(p: seq<byte>, name: seq<byte>)
    requires SEMICOLON !in name
    ensures var n := Span(p, AllBut(SEMICOLON));
            match Look(p, name)
            case Value(_) => true
            case NextSegment(rest) => n < |p| && rest == Skip(p[n + 1..], Spaces)
            case Malformed => n == |p|
            case LastSegment => n == |p|
  {
    hide Common, Span, Skip, Look;
    var n := Span(p, AllBut(SEMICOLON));
    LookStaysInSegment(p, name);
    LookBehind(p, name, n);
    if n < |p| {
      assert p[n..][1..] == p[n + 1..];
    }
  }

  /** For a name without a semicolon the walk is the search. */
  lemma {:induction false} WalkIsSearch(p: seq<byte>, name: seq<byte>)
    requires SEMICOLON !in name
    ensures Walk(p, name) == Search(Segments(p), name)
    decreases |p|
  {
    hide Segments, Look, Skip, Span;
    HeadSegment(p);
    LookFinds(p, name);
    LookMovesOn(p, name);
    var n := Span(p, AllBut(SEMICOLON));
    assert n == |p| ==> p[..n] == p;
    if Look(p, name).NextSegment? {
      var rest := Skip(p[n + 1..], Spaces);
      WalkIsSearch(rest, name);
      assert ([p[..n]] + Segments(rest))[1..] == Segments(rest);
    }
  }

  lemma LookMalformed(p: seq<byte>, name: seq<byte>)
    ensures Look(p, name).Malformed? <==> p == name
  {
    if p == name {
      CommonIs(p, name, |p|);
    }
  }

  /** The header is malformed when the name is not found, and its last segment is the
      name alone. */
  lemma {:induction false} EndsMalformedIff(p: seq<byte>, name: seq<byte>)
    requires SEMICOLON !in name
    ensures EndsMalformed(p, name) <==>
            name != [] && Walk(p, name) == None && Segments(p)[|Segments(p)| - 1] == name
    decreases |p|
  {
    HeadSegment(p);
    LookMovesOn(p, name);
    LookMalformed(p, name);
    hide Segments, Look, Skip, Span;
    if Look(p, name).NextSegment? {
      EndsMalformedIff(Look(p, name).rest, name);
    }
  }

  /** A semicolon in the name is the only thing that can lead the walk astray. */
  lemma WalkIsSearchIff(name: seq<byte>)
    ensures (forall cookie :: Walk(cookie, name) == Search(Segments(cookie), name)) <==> SEMICOLON !in name
  {
    if SEMICOLON !in name {
      forall cookie
        ensures Walk(cookie, name) == Search(Segments(cookie), name)
      {
        WalkIsSearch(cookie, name);
      }
    } else {
      var cookie := name + [EQUALS];
      WholeNameIsWalked(name);
      var n := Span(cookie, AllBut(SEMICOLON));
      SegmentsHaveNoSemicolon(cookie);
      NotFoundInShortSegments(Segments(cookie), name);
    }
  }

  lemma WholeNameIsWalked(name: seq<byte>)
    ensures Walk(name + [EQUALS], name) == Some([])
  {
  }

  lemma {:induction false} SplitHasNoSemicolon(s: seq<byte>)
    ensures forall i :: 0 <= i < |Split(s)| ==> SEMICOLON !in Split(s)[i]
    decreases |s|
  {
    var n := Span(s, AllBut(SEMICOLON));
    assert SEMICOLON !in s[..n];
    if n < |s| {
      SplitHasNoSemicolon(s[n + 1..]);
    } else {
      assert s[..n] == s;
    }
  }

  lemma SegmentsHaveNoSemicolon(cookie: seq<byte>)
    ensures forall i :: 0 <= i < |Segments(cookie)| ==> SEMICOLON !in Segments(cookie)[i]
  {
    SplitHasNoSemicolon(cookie);
    var segments, rest := Segments(cookie), Split(cookie)[1..];
    forall i | 1 <= i < |segments|
      ensures SEMICOLON !in segments[i]
    {
      assert segments[i] == Trim(rest[i - 1]) && rest[i - 1] == Split(cookie)[i];
    }
  }

  lemma {:induction false} NotFoundInShortSegments(segments: seq<seq<byte>>, name: seq<byte>)
    requires SEMICOLON in name && forall i :: 0 <= i < |segments| ==> SEMICOLON !in segments[i]
    ensures Search(segments, name) == None
  {
    if segments != [] {
      var i :| 0 <= i < |name| && name[i] == SEMICOLON;
      assert (name + [EQUALS])[i] == SEMICOLON;
      assert i < |segments[0]| ==> segments[0][i] != SEMICOLON;
      NotFoundInShortSegments(segments[1..], name);
    }
  }

  // ----- looking up what was printed

  /** A Cookie header as browsers write it. */
  function PrintCookies(cookies: seq<(seq<byte>, seq<byte>)>): seq<byte> {
    if cookies == [] then []
    else
      cookies[0].0 + Ascii("=") + cookies[0].1 +
      if |cookies| == 1 then [] else Ascii("; ") + PrintCookies(cookies[1..])
  }

  function ValueOf(cookies: seq<(seq<byte>, seq<byte>)>, name: seq<byte>): Option<seq<byte>> {
    if cookies == [] then None
    else if cookies[0].0 == name then Some(cookies[0].1)
    else ValueOf(cookies[1..], name)
  }

  ghost predicate IsName(name: seq<byte>) {
    ';' as byte !in name && '=' as byte !in name && (name != [] ==> !IsSpace(name[0]))
  }

  ghost predicate AreCookies(cookies: seq<(seq<byte>, seq<byte>)>) {
    forall i :: 0 <= i < |cookies| ==> IsName(cookies[i].0) && ';' as byte !in cookies[i].1
  }

  lemma PairMatches(n: seq<byte>, v: seq<byte>, name: seq<byte>)
    requires EQUALS !in n && EQUALS !in name
    ensures name + [EQUALS] <= n + [EQUALS] + v <==> name == n
    ensures (n + [EQUALS] + v)[|n| + 1..] == v
  {
    var s := n + [EQUALS] + v;
    if name + [EQUALS] <= s {
      assert s[|name|] == (name + [EQUALS])[|name|] == EQUALS;
      assert s[|n|] == EQUALS && n == s[..|n|] && name == s[..|name|];
    }
  }

  lemma FirstSegment(n: seq<byte>, v: seq<byte>, rest: seq<byte>)
    requires SEMICOLON !in n && SEMICOLON !in v && rest != [] && !IsSpace(rest[0])
    ensures Segments(n + [EQUALS] + v + [SEMICOLON, SPACE] + rest) == [n + [EQUALS] + v] + Segments(rest)
  {
    var head := n + [EQUALS] + v;
    var p := head + [SEMICOLON, SPACE] + rest;
    NoSemicolonIn(n, v);
    HeadEnds(head, rest);
    SpaceIsSkipped(rest);
    hide *;
    HeadSegment(p);
    assert p[|head| + 1..] == [SPACE] + rest;
  }

  lemma NoSemicolonIn(n: seq<byte>, v: seq<byte>)
    requires SEMICOLON !in n && SEMICOLON !in v
    ensures SEMICOLON !in n + [EQUALS] + v
  {
  }

  lemma HeadEnds(head: seq<byte>, rest: seq<byte>)
    requires SEMICOLON !in head
    ensures var p := head + [SEMICOLON, SPACE] + rest;
            Span(p, AllBut(SEMICOLON)) == |head| < |p| && p[..|head|] == head && p[|head| + 1..] == [SPACE] + rest
  {
    SpanIs(head + [SEMICOLON, SPACE] + rest, AllBut(SEMICOLON), |head|);
  }

  lemma SpaceIsSkipped(rest: seq<byte>)
    requires rest != [] && !IsSpace(rest[0])
    ensures Skip([SPACE] + rest, Spaces) == rest
  {
    SpanIs([SPACE] + rest, Spaces, 1);
    assert ([SPACE] + rest)[1..] == rest;
  }

  lemma OnlySegment(n: seq<byte>, v: seq<byte>)
    requires SEMICOLON !in n && SEMICOLON !in v
    ensures Segments(n + [EQUALS] + v) == [n + [EQUALS] + v]
  {
    var p := n + [EQUALS] + v;
    SpanIs(p, AllBut(SEMICOLON), |p|);
    hide Span, Segments, Split;
    HeadSegment(p);
  }

  lemma {:induction false} SegmentsAreSearched(cookies: seq<(seq<byte>, seq<byte>)>, name: seq<byte>)
    requires cookies != [] && AreCookies(cookies) && IsName(name)
    ensures Search(Segments(PrintCookies(cookies)), name) == ValueOf(cookies, name)
    decreases |cookies|
  {
    assert Ascii("=") == [EQUALS] && Ascii("; ") == [SEMICOLON, SPACE];
    var (n, v) := cookies[0];
    var head, tail := n + [EQUALS] + v, cookies[1..];
    assert IsName(n) && SEMICOLON !in v && forall i :: 0 <= i < |tail| ==> tail[i] == cookies[i + 1];
    PairMatches(n, v, name);
    hide Segments, Ascii, IsName;
    if tail == [] {
      assert PrintCookies(cookies) == head + [] && head + [] == head;
      OnlySegment(n, v);
      SearchOne(head, [], name);
    } else {
      var rest := PrintCookies(tail);
      PrintedStart(tail);
      assert PrintCookies(cookies) == head + [SEMICOLON, SPACE] + rest;
      FirstSegment(n, v, rest);
      SegmentsAreSearched(tail, name);
      SearchOne(head, Segments(rest), name);
    }
  }

  lemma SearchOne(head: seq<byte>, rest: seq<seq<byte>>, name: seq<byte>)
    ensures Search([head] + rest, name) ==
            if name + [EQUALS] <= head then Some(head[|name| + 1..]) else Search(rest, name)
    ensures Search([head], name) == if name + [EQUALS] <= head then Some(head[|name| + 1..]) else None
  {
    assert ([head] + rest)[1..] == rest;
  }

  lemma PrintedStart(cookies: seq<(seq<byte>, seq<byte>)>)
    requires cookies != [] && AreCookies(cookies)
    ensures PrintCookies(cookies) != [] && !IsSpace(PrintCookies(cookies)[0])
  {
    assert Ascii("=") == [EQUALS];
    assert IsName(cookies[0].0);
  }

  /** The value found is that of the first cookie with the name, if there is one. */
  lemma PrintedCookieIsFound(cookies: seq<(seq<byte>, seq<byte>)>, name: seq<byte>)
    requires AreCookies(cookies) && IsName(name)
    ensures Walk(PrintCookies(cookies), name) == ValueOf(cookies, name)
  {
    hide Segments, Search, Look;
    if cookies != [] {
      WalkIsSearch(PrintCookies(cookies), name);
      SegmentsAreSearched(cookies, name);
    }
  }

  // ----- the code

  /** The byte at s[i] of a C string: its NUL at the end. */
  function At(s: seq<byte>, i: nat): byte
    requires i <= |s|
  {
    if i < |s| then s[i] else NUL
  }

  /** The loop that follows the name; it stops at the first difference, or when
      both strings are at their NUL. */
  method Follow(cookie: seq<byte>, i: nat, name: seq<byte>) returns (k: nat, bothEnded: bool)
    requires i <= |cookie| && NUL !in cookie && NUL !in name
    ensures k == Common(cookie[i..], name) && i + k <= |cookie|
    ensures bothEnded <==> i + k == |cookie| && k == |name|
  {
    k, bothEnded := 0, false;
    while At(cookie, i + k) == At(name, k)
      invariant i + k <= |cookie| && k <= |name| && cookie[i..i + k] == name[..k] && !bothEnded
      decreases |name| - k
    {
      if At(cookie, i + k) == NUL && At(name, k) == NUL {
        bothEnded := true;
        break;
      }
      assert cookie[i..i + k + 1] == cookie[i..i + k] + [cookie[i + k]];
      assert name[..k + 1] == name[..k] + [name[k]];
      k := k + 1;
    }
    assert cookie[i..][..k] == cookie[i..i + k];
    CommonIs(cookie[i..], name, k);
  }

  lemma {:induction false} CommonIs(s: seq<byte>, t: seq<byte>, k: nat)
    requires k <= |s| && k <= |t| && s[..k] == t[..k] && (k < |s| && k < |t| ==> s[k] != t[k])
    ensures Common(s, t) == k
  {
  }

  /** What is left of a value in a buffer of `space` bytes. */
  function Copied(v: seq<byte>, space: nat): (r: seq<byte>)
    ensures |r| <= space && |r| <= |v| + 1
    ensures space > |v| ==> r == v + [0]
    ensures 0 < space <= |v| ==> r == v[..space - 1] + [0]
  {
    if space == 0 then [] else Clip(v, space) + [NUL]
  }

  /** Copies the value at cookie[i..] while there is space, and adds a NUL. */
  method CopyValue(cookie: seq<byte>, i: nat, value: array<byte>, space: nat) returns (code: CookieResult)
    requires i <= |cookie| && space <= value.Length && NUL !in cookie
    modifies value
    ensures var v := cookie[i..][..Span(cookie[i..], AllBut(SEMICOLON))];
            && value[..] == Copied(v, space) + old(value[..])[|Copied(v, space)|..]
            && code == if |v| < space || v == [] then CookieSuccess else CookieTruncated
  {
    hide Copied, Span;
    ghost var s, was := cookie[i..], value[..];
    var k, left := 0, space;
    while i + k < |cookie| && cookie[i + k] != SEMICOLON && left > 1
      invariant i + k <= |cookie| && left == space - k && (space > 0 ==> left > 0)
      invariant value[..] == s[..k] + was[k..]
      invariant forall j :: 0 <= j < k ==> s[j] != SEMICOLON
    {
      value[k] := cookie[i + k];
      assert value[..] == (s[..k] + was[k..])[k := s[k]];
      PutOne(s, was, k);
      k, left := k + 1, left - 1;
    }
    PutEnd(s, was, k, space);
    if left > 0 {
      value[k] := NUL;
    }
    if i + k < |cookie| && cookie[i + k] != SEMICOLON {
      code := CookieTruncated;
    } else {
      code := CookieSuccess;
    }
  }

  lemma PutOne(s: seq<byte>, was: seq<byte>, k: nat)
    requires k < |s| && k < |was|
    ensures (s[..k] + was[k..])[k := s[k]] == s[..k + 1] + was[k + 1..]
  {
  }

  /** The copy, with the NUL at its end if there is room for one. */
  lemma PutEnd(s: seq<byte>, was: seq<byte>, k: nat, space: nat)
    requires k <= |s| && space <= |was| && k <= space && (space > 0 ==> k < space)
    requires forall j :: 0 <= j < k ==> s[j] != SEMICOLON
    requires k == |s| || s[k] == SEMICOLON || k + 1 >= space
    ensures var n := Span(s, AllBut(SEMICOLON));
            && Copied(s[..n], space) + was[|Copied(s[..n], space)|..] ==
               (if space > 0 then (s[..k] + was[k..])[k := NUL] else s[..k] + was[k..])
            && (k < |s| && s[k] != SEMICOLON <==> !(n < space || n == 0))
  {
    var n := Span(s, AllBut(SEMICOLON));
    if k == |s| || s[k] == SEMICOLON {
      SpanIs(s, AllBut(SEMICOLON), k);
    }
    hide Span, Clip;
    assert k <= n && (k < |s| && s[k] != SEMICOLON ==> k < n);
    assert s[..n][..k] == s[..k];
    if space > 0 {
      assert Copied(s[..n], space) == s[..k] + [NUL];
    }
  }

  /** Skips to the next segment, if there is one. */
  method SkipSegment(cookie: seq<byte>, i: nat) returns (found: bool, next: nat)
    requires i <= |cookie|
    ensures found <==> Skip(cookie[i..], AllBut(SEMICOLON)) != []
    ensures found ==> i < next <= |cookie| && cookie[next..] == Skip(Skip(cookie[i..], AllBut(SEMICOLON))[1..], Spaces)
  {
    next := ScanPast(cookie, i, AllBut(SEMICOLON));
    found := next < |cookie|;
    if found {
      Suffix(cookie, next);
      next := ScanPast(cookie, next + 1, Spaces);
    }
  }

  /** Where a turn of the loop leads: to a value, to the next segment, or to the
      end, which may be that of a malformed segment. */
  datatype Place = AtValue(i: nat) | AtSegment(i: nat) | AtEnd(malformed: bool)

  ghost predicate Leads(cookie: seq<byte>, place: Place, turn: Turn) {
    match turn
    case Value(v) =>
      place.AtValue? && place.i <= |cookie| && v == cookie[place.i..][..Span(cookie[place.i..], AllBut(SEMICOLON))]
    case NextSegment(rest) => place.AtSegment? && place.i <= |cookie| && cookie[place.i..] == rest
    case Malformed => place == AtEnd(true)
    case LastSegment => place == AtEnd(false)
  }

  lemma Suffixes(s: seq<byte>, i: nat, k: nat)
    requires i + k <= |s|
    ensures s[i..][k..] == s[i + k..] && (i + k < |s| ==> s[i..][k + 1..] == s[i + k + 1..])
  {
  }

  method LookAt(cookie: seq<byte>, i: nat, name: seq<byte>) returns (place: Place)
    requires i <= |cookie| && NUL !in cookie && NUL !in name
    ensures Leads(cookie, place, Look(cookie[i..], name))
    ensures place.AtSegment? ==> i < place.i <= |cookie|
  {
    hide Common, Span, Skip;
    var k, bothEnded := Follow(cookie, i, name);
    Suffixes(cookie, i, k);
    if bothEnded {
      return AtEnd(true);
    }
    if k == |name| && At(cookie, i + k) == EQUALS {
      return AtValue(i + k + 1);
    }
    var found, next := SkipSegment(cookie, i + k);
    place := if found then AtSegment(next) else AtEnd(false);
  }

  method CookieString(cookie: seq<byte>, name: seq<byte>, value: array<byte>, space: nat) returns (code: CookieResult)
    requires space <= value.Length && NUL !in cookie && NUL !in name
    modifies value
    ensures match Walk(cookie, name)
            case None =>
              && code == CookieNotFound
              && value[..] ==
                 if EndsMalformed(cookie, name) || space == 0 then old(value[..]) else old(value[..])[0 := NUL]
            case Some(v) =>
              && code == (if |v| < space || v == [] then CookieSuccess else CookieTruncated)
              && value[..] == Copied(v, space) + old(value[..])[|Copied(v, space)|..]
  {
    hide Look, Span, Clip;
    var p := 0;
    assert cookie[0..] == cookie;
    while p < |cookie|
      invariant p <= |cookie| && value[..] == old(value[..])
      invariant Walk(cookie[p..], name) == Walk(cookie, name)
      invariant EndsMalformed(cookie[p..], name) == EndsMalformed(cookie, name)
    {
      var place := LookAt(cookie, p, name);
      match place {
        case AtValue(i) =>
          code := CopyValue(cookie, i, value, space);
          return;
        case AtEnd(malformed) =>
          if !malformed && space > 0 {
            value[0] := NUL;
          }
          return CookieNotFound;
        case AtSegment(i) =>
          p := i;
      }
    }
    if space > 0 {
      value[0] := NUL;
    }
    code := CookieNotFound;
  }
}
