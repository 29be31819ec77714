// Bytes, C strings and the <ctype.h> classes that the CGI library relies on.
module Bytes {

  /** One C `char`, taken as an unsigned byte. */
  type byte = x: int | 0 <= x < 256

  const NUL: byte := 0
  const TAB: byte := 9
  const LF: byte := 10
  const CR: byte := 13
  const SPACE: byte := 32
  const QUOTE: byte := 34
  const PERCENT: byte := 37
  const AMPERSAND: byte := 38
  const PLUS: byte := 43
  const DASH: byte := 45
  const COLON: byte := 58
  const SEMICOLON: byte := 59
  const EQUALS: byte := 61

  datatype Option<+T> = None | Some(value: T)

  /** The bytes of a string literal. */
  function Ascii(s: string): seq<byte>
    requires forall i :: 0 <= i < |s| ==> s[i] < 128 as char
  {
    seq(|s|, i requires 0 <= i < |s| => s[i] as byte)
  }

  /** isspace: blank, tab, line feed, vertical tab, form feed, carriage return. */
  predicate IsSpace(b: byte)
    ensures IsSpace(b) <==>
            b == ' ' as int || b == '\t' as int || b == '\n' as int || b == 11 || b == 12 || b == '\r' as int
  {
    b == SPACE || TAB <= b <= CR
  }

  predicate IsUpper(b: byte) {
    65 <= b <= 90
  }

  predicate IsAlpha(b: byte)
    ensures IsAlpha(b) <==> 'A' as int <= b <= 'Z' as int || 'a' as int <= b <= 'z' as int
  {
    IsUpper(b) || 97 <= b <= 122
  }

  predicate IsAlnum(b: byte)
    ensures IsAlnum(b) <==> IsAlpha(b) || '0' as int <= b <= '9' as int
  {
    IsAlpha(b) || 48 <= b <= 57
  }

  function ToLower(b: byte): (r: byte)
    ensures 'A' as int <= b <= 'Z' as int ==> r - b == 'a' as int - 'A' as int
    ensures b < 'A' as int || b > 'Z' as int ==> r == b
  {
    if IsUpper(b) then b + 32 else b
  }

  /** The comparison of cgiStrEqNc: letters are compared without regard to case. */
  predicate EqNc(s: seq<byte>, t: seq<byte>) {
    |s| == |t| &&
    forall i :: 0 <= i < |s| ==> if IsAlpha(s[i]) then ToLower(s[i]) == ToLower(t[i]) else s[i] == t[i]
  }

  /** All letters in lower case. */
  function Lower(s: seq<byte>): (r: seq<byte>)
    ensures |r| == |s| && forall i :: 0 <= i < |s| ==> r[i] == ToLower(s[i])
  {
    seq(|s|, i requires 0 <= i < |s| => ToLower(s[i]))
  }

  /** The same text, in any mixture of cases. */
  predicate SameLetters(s: seq<byte>, t: seq<byte>) {
    Lower(s) == Lower(t)
  }

  /** The comparison ignores case, and nothing else. */
  lemma EqNcIff(s: seq<byte>, t: seq<byte>)
    ensures EqNc(s, t) <==> SameLetters(s, t)
  {
    if SameLetters(s, t) {
      assert |Lower(s)| == |Lower(t)|;
      assert forall i :: 0 <= i < |s| ==> Lower(s)[i] == Lower(t)[i];
    }
  }

  /** cgiStrEqNc: the walk over two strings. */
  method StrEqNc(s1: seq<byte>, s2: seq<byte>) returns (same: bool)
    ensures same <==> EqNc(s1, s2)
    ensures same <==> SameLetters(s1, s2)
  {
    EqNcIff(s1, s2);
    var i := 0;
    while true
      invariant i <= |s1| && i <= |s2|
      invariant EqNc(s1[..i], s2[..i])
      decreases |s1| - i
    {
      if i == |s1| {
        return i == |s2|;
      } else if i == |s2| {
        return false;
      }
      if IsAlpha(s1[i]) {
        if ToLower(s1[i]) != ToLower(s2[i]) {
          return false;
        }
      } else if s1[i] != s2[i] {
        return false;
      }
      i := i + 1;
    }
  }

  lemma SameSize(s: seq<byte>, t: seq<byte>)
    requires SameLetters(s, t)
    ensures |s| == |t|
  {
    assert |Lower(s)| == |Lower(t)|;
  }

  /** The C string that starts at s[0]: everything before the first NUL. */
  function CStr(s: seq<byte>): (r: seq<byte>)
    ensures r <= s && NUL !in r
    ensures |r| < |s| ==> s[|r|] == NUL
  {
    if s == [] || s[0] == NUL then [] else [s[0]] + CStr(s[1..])
  }

  lemma CStrOfNulFree(s: seq<byte>)
    requires NUL !in s
    ensures CStr(s) == s
  {
  }

  /** What a bounded buffer of `space` bytes keeps of s once its NUL is in place. */
  function Clip(s: seq<byte>, space: nat): (r: seq<byte>)
    ensures r <= s && (space > 0 ==> |r| < space) && (r == s || |r| + 1 == space || space == 0)
  {
    if |s| < space then s else if space == 0 then [] else s[..space - 1]
  }

  /** The tests that drive the scanning loops. */
  datatype Class = Spaces | NonSpaces | Alnums | AllBut(stop: byte) {
    predicate Has(b: byte) {
      match this
      case Spaces => IsSpace(b)
      case NonSpaces => !IsSpace(b)
      case Alnums => IsAlnum(b)
      case AllBut(stop) => b != stop
    }
  }

  /** How many leading bytes of s belong to the class. */
  function Span(s: seq<byte>, c: Class): (n: nat)
    ensures n <= |s|
    ensures forall i :: 0 <= i < n ==> c.Has(s[i])
    ensures n < |s| ==> !c.Has(s[n])
  {
    if s == [] || !c.Has(s[0]) then 0 else 1 + Span(s[1..], c)
  }

  /** A span is pinned down by its members and the byte that ends it. */
  lemma SpanIs(s: seq<byte>, c: Class, n: nat)
    requires n <= |s|
    requires forall i :: 0 <= i < n ==> c.Has(s[i])
    requires n < |s| ==> !c.Has(s[n])
    ensures Span(s, c) == n
  {
  }
}
