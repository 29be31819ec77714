// Fetching a field into a buffer of limited size, with its newlines put right.
module Newlines {
  import opened Bytes
  import opened Forms

  predicate IsNewline(b: byte) {
    b == CR || b == LF
  }

  /** The number of CRs and LFs in a row at the start of s. */
  function Burst(s: seq<byte>): (n: nat)
    ensures n <= |s| && (n < |s| ==> !IsNewline(s[n]))
    ensures forall i :: 0 <= i < n ==> IsNewline(s[i])
  {
    if s == [] || !IsNewline(s[0]) then 0 else 1 + Burst(s[1..])
  }

  function Count(s: seq<byte>, b: byte): nat {
    if s == [] then 0 else (if s[0] == b then 1 else 0) + Count(s[1..], b)
  }

  function LineFeeds(n: nat): (r: seq<byte>)
    ensures |r| == n && forall i :: 0 <= i < n ==> r[i] == LF
  {
    seq(n, _ => LF)
  }

  function Max(a: nat, b: nat): nat {
    if b > a then b else a
  }

  /** The specification: each burst of CRs and LFs, in whatever pattern, becomes
      as many LFs as there are of the more frequent of the two, or none. */
  function Normalise(s: seq<byte>, keep: bool): seq<byte>
    decreases |s|
  {
    if s == [] then []
    else if !IsNewline(s[0]) then [s[0]] + Normalise(s[1..], keep)
    else
      var n := Burst(s);
      (if keep then LineFeeds(Max(Count(s[..n], CR), Count(s[..n], LF))) else []) + Normalise(s[n..], keep)
  }

  function Flush(crs: nat, lfs: nat, keep: bool): seq<byte> {
    if keep then LineFeeds(Max(crs, lfs)) else []
  }

  /** What the one-pass loop still has to produce, given its two counters. */
  function OnePass(s: seq<byte>, crs: nat, lfs: nat, keep: bool): seq<byte> {
    if s == [] then Flush(crs, lfs, keep)
    else if s[0] == CR then OnePass(s[1..], crs + 1, lfs, keep)
    else if s[0] == LF then OnePass(s[1..], crs, lfs + 1, keep)
    else Flush(crs, lfs, keep) + [s[0]] + OnePass(s[1..], 0, 0, keep)
  }

  lemma BurstStep(s: seq<byte>)
    requires s != [] && IsNewline(s[0])
    ensures var n, m := Burst(s), Burst(s[1..]);
            && n == m + 1 && s[n..] == s[1..][m..]
            && Count(s[..n], CR) == (if s[0] == CR then 1 else 0) + Count(s[1..][..m], CR)
            && Count(s[..n], LF) == (if s[0] == LF then 1 else 0) + Count(s[1..][..m], LF)
  {
    assert s[..Burst(s)][1..] == s[1..][..Burst(s[1..])];
  }

  /** One pass with two counters computes the specification. */
  lemma {:induction false} OnePassIsNormalise(s: seq<byte>, crs: nat, lfs: nat, keep: bool)
    ensures var n := Burst(s);
            OnePass(s, crs, lfs, keep) ==
            Flush(crs + Count(s[..n], CR), lfs + Count(s[..n], LF), keep) + Normalise(s[n..], keep)
  {
    hide Flush;
    if s == [] {
      assert Flush(crs, lfs, keep) + [] == Flush(crs, lfs, keep);
    } else if IsNewline(s[0]) {
      BurstStep(s);
      OnePassIsNormalise(s[1..], if s[0] == CR then crs + 1 else crs, if s[0] == LF then lfs + 1 else lfs, keep);
    } else {
      OnePassIsNormalise(s[1..], 0, 0, keep);
      OnePassStarts(s[1..], keep);
      assert s[0..] == s && s[..0] == [];
      assert Flush(crs, lfs, keep) + [s[0]] + Normalise(s[1..], keep) ==
             Flush(crs, lfs, keep) + ([s[0]] + Normalise(s[1..], keep));
    }
  }

  lemma OnePassStarts(s: seq<byte>, keep: bool)
    ensures var n := Burst(s);
            Flush(Count(s[..n], CR), Count(s[..n], LF), keep) + Normalise(s[n..], keep) == Normalise(s, keep)
  {
  }

  // ----- what normalising does

  /** No CR is left, and no newline at all if they are not kept. */
  lemma {:induction false} NormalisedHasNoCr(s: seq<byte>, keep: bool)
    ensures CR !in Normalise(s, keep) && (!keep ==> LF !in Normalise(s, keep))
    decreases |s|
  {
    if s != [] {
      NormalisedHasNoCr(if IsNewline(s[0]) then s[Burst(s)..] else s[1..], keep);
    }
  }

  lemma {:induction false} CountAtMost(s: seq<byte>)
    ensures Count(s, CR) <= |s| && Count(s, LF) <= |s|
  {
    if s != [] {
      CountAtMost(s[1..]);
    }
  }

  /** Normalising never makes a text longer. */
  lemma {:induction false} NormaliseShrinks(s: seq<byte>, keep: bool)
    ensures |Normalise(s, keep)| <= |s|
    decreases |s|
  {
    if s != [] {
      var n := Burst(s);
      CountAtMost(s[..n]);
      NormaliseShrinks(if IsNewline(s[0]) then s[n..] else s[1..], keep);
    }
  }

  lemma {:induction false} LineFeedBurst(n: nat, t: seq<byte>)
    requires t == [] || !IsNewline(t[0])
    ensures Burst(LineFeeds(n) + t) == n
    ensures Count(LineFeeds(n), CR) == 0 && Count(LineFeeds(n), LF) == n
  {
    if n == 0 {
      assert LineFeeds(0) + t == t;
    } else {
      assert (LineFeeds(n) + t)[1..] == LineFeeds(n - 1) + t && LineFeeds(n)[1..] == LineFeeds(n - 1);
      LineFeedBurst(n - 1, t);
    }
  }

  lemma NormaliseLineFeeds(n: nat, t: seq<byte>)
    requires t == [] || !IsNewline(t[0])
    ensures Normalise(LineFeeds(n) + t, true) == LineFeeds(n) + Normalise(t, true)
  {
    var s := LineFeeds(n) + t;
    LineFeedBurst(n, t);
    assert s[..n] == LineFeeds(n) && s[n..] == t;
    if n == 0 {
      assert s == t && LineFeeds(0) + Normalise(t, true) == Normalise(t, true);
    }
  }

  /** Normalising twice is normalising once. */
  lemma {:induction false} NormaliseIsIdempotent(s: seq<byte>, keep: bool)
    ensures Normalise(Normalise(s, keep), keep) == Normalise(s, keep)
    decreases |s|
  {
    if s != [] {
      if IsNewline(s[0]) {
        var n := Burst(s);
        NormaliseIsIdempotent(s[n..], keep);
        var t := Normalise(s[n..], keep);
        if keep {
          NormaliseLineFeeds(Max(Count(s[..n], CR), Count(s[..n], LF)), t);
        } else {
          assert [] + t == t;
        }
      } else {
        NormaliseIsIdempotent(s[1..], keep);
        assert ([s[0]] + Normalise(s[1..], keep))[1..] == Normalise(s[1..], keep);
      }
    }
  }

  // ----- what becomes of lines

  ghost predicate OneLine(s: seq<byte>) {
    forall i :: 0 <= i < |s| ==> s[i] != '\n' as byte && s[i] != '\r' as byte
  }

  ghost predicate AllLines(lines: seq<seq<byte>>) {
    forall i :: 0 <= i < |lines| ==> OneLine(lines[i])
  }

  function Join(lines: seq<seq<byte>>, separator: seq<byte>): seq<byte> {
    if lines == [] then []
    else if |lines| == 1 then lines[0]
    else lines[0] + separator + Join(lines[1..], separator)
  }

  /** A line break, as browsers, Unix and the old Macintosh write it. */
  ghost predicate IsLineBreak(s: seq<byte>) {
    s == Ascii("\r\n") || s == Ascii("\n") || s == Ascii("\r")
  }

  lemma {:induction false} OnePassLine(line: seq<byte>, rest: seq<byte>, crs: nat, lfs: nat, keep: bool)
    requires OneLine(line) && line != []
    ensures OnePass(line + rest, crs, lfs, keep) == Flush(crs, lfs, keep) + line + OnePass(rest, 0, 0, keep)
  {
    hide Flush;
    var text := line + rest;
    assert text[0] == line[0] && text[1..] == line[1..] + rest;
    if |line| == 1 {
      assert line[1..] + rest == rest && line == [line[0]];
    } else {
      OnePassLine(line[1..], rest, 0, 0, keep);
      NothingToFlush(keep);
      assert [] + line[1..] == line[1..] && line == [line[0]] + line[1..];
      assert Flush(crs, lfs, keep) + [line[0]] + (line[1..] + OnePass(rest, 0, 0, keep)) ==
             Flush(crs, lfs, keep) + line + OnePass(rest, 0, 0, keep);
    }
  }

  lemma NothingToFlush(keep: bool)
    ensures Flush(0, 0, keep) == []
  {
  }

  lemma OnePassBreak(separator: seq<byte>, rest: seq<byte>, crs: nat, lfs: nat, keep: bool)
    requires IsLineBreak(separator)
    ensures OnePass(separator + rest, crs, lfs, keep) ==
            OnePass(rest, if CR in separator then crs + 1 else crs, if LF in separator then lfs + 1 else lfs, keep)
  {
    assert Ascii("\r\n") == [CR, LF] && Ascii("\n") == [LF] && Ascii("\r") == [CR];
    var text := separator + rest;
    if |separator| == 2 {
      assert text[1..] == [LF] + rest && text[1..][1..] == rest;
    } else {
      assert text[1..] == rest;
    }
  }

  /** The counters after n line breaks, and what they will come to. */
  function CrsAfter(separator: seq<byte>, n: nat): nat {
    if CR in separator then n else 0
  }

  function LfsAfter(separator: seq<byte>, n: nat): nat {
    if LF in separator then n else 0
  }

  function Breaks(n: nat, keep: bool): seq<byte> {
    if keep then LineFeeds(n) else []
  }

  lemma FlushBreaks(separator: seq<byte>, n: nat, keep: bool)
    requires IsLineBreak(separator)
    ensures Flush(CrsAfter(separator, n), LfsAfter(separator, n), keep) == Breaks(n, keep)
  {
    assert CR in separator || LF in separator by {
      assert Ascii("\r\n")[0] == CR && Ascii("\n")[0] == LF && Ascii("\r")[0] == CR;
    }
  }

  lemma BreaksGrow(n: nat, keep: bool)
    ensures Breaks(n + 1, keep) == Breaks(n, keep) + Breaks(1, keep)
    ensures Breaks(0, keep) == [] && Breaks(1, keep) == if keep then [LF] else []
  {
    assert keep ==> LineFeeds(n + 1) == LineFeeds(n) + LineFeeds(1);
  }

  lemma LastLine(x: seq<byte>, separator: seq<byte>, n: nat, keep: bool)
    requires OneLine(x) && IsLineBreak(separator)
    ensures OnePass(x, CrsAfter(separator, n), LfsAfter(separator, n), keep) == Breaks(n, keep) + x
  {
    FlushBreaks(separator, n, keep);
    hide Flush, Breaks, CrsAfter, LfsAfter, IsLineBreak;
    assert x + [] == x && Breaks(n, keep) + [] == Breaks(n, keep);
    if x != [] {
      OnePassLine(x, [], CrsAfter(separator, n), LfsAfter(separator, n), keep);
      NothingToFlush(keep);
      assert Breaks(n, keep) + x + [] == Breaks(n, keep) + x;
    }
  }

  lemma MiddleLine(x: seq<byte>, separator: seq<byte>, tail: seq<byte>, n: nat, keep: bool)
    requires OneLine(x) && IsLineBreak(separator)
    ensures OnePass(x + (separator + tail), CrsAfter(separator, n), LfsAfter(separator, n), keep) ==
            if x == [] then OnePass(tail, CrsAfter(separator, n + 1), LfsAfter(separator, n + 1), keep)
            else Breaks(n, keep) + x + OnePass(tail, CrsAfter(separator, 1), LfsAfter(separator, 1), keep)
  {
    var crs, lfs := CrsAfter(separator, n), LfsAfter(separator, n);
    if x == [] {
      assert x + (separator + tail) == separator + tail;
      OnePassBreak(separator, tail, crs, lfs, keep);
    } else {
      FlushBreaks(separator, n, keep);
      OnePassBreak(separator, tail, 0, 0, keep);
      hide OnePass, Flush, Breaks, IsLineBreak;
      OnePassLine(x, separator + tail, crs, lfs, keep);
    }
  }

  /** With n line breaks pending. */
  lemma {:induction false} LinesFrom(lines: seq<seq<byte>>, separator: seq<byte>, n: nat, keep: bool)
    requires lines != [] && AllLines(lines) && IsLineBreak(separator)
    ensures OnePass(Join(lines, separator), CrsAfter(separator, n), LfsAfter(separator, n), keep) ==
            Breaks(n, keep) + Join(lines, Breaks(1, keep))
    decreases |lines|
  {
    hide OnePass, Breaks, CrsAfter, LfsAfter, IsLineBreak, OneLine;
    var x, line := lines[0], Breaks(1, keep);
    if |lines| == 1 {
      LastLine(x, separator, n, keep);
    } else {
      var tail, rest := Join(lines[1..], separator), Join(lines[1..], line);
      assert Join(lines, separator) == x + (separator + tail);
      assert Join(lines, line) == x + line + rest;
      MiddleLine(x, separator, tail, n, keep);
      if x == [] {
        LinesFrom(lines[1..], separator, n + 1, keep);
        BreaksGrow(n, keep);
        assert x + line == line && Breaks(n, keep) + line + rest == Breaks(n, keep) + (line + rest);
      } else {
        LinesFrom(lines[1..], separator, 1, keep);
        assert Breaks(n, keep) + x + (line + rest) == Breaks(n, keep) + (x + line + rest);
      }
    }
  }

  /** Lines come out as they were, joined by single line feeds, whatever joined them;
      or by nothing, if newlines are not wanted. */
  lemma LinesAreKept(lines: seq<seq<byte>>, separator: seq<byte>, keep: bool)
    requires lines != [] && AllLines(lines) && IsLineBreak(separator)
    ensures Normalise(Join(lines, separator), keep) == Join(lines, if keep then Ascii("\n") else [])
  {
    assert Ascii("\n") == [LF] && CrsAfter(separator, 0) == 0 && LfsAfter(separator, 0) == 0;
    BreaksGrow(0, keep);
    hide *;
    LinesFrom(lines, separator, 0, keep);
    var text, line := Join(lines, separator), Breaks(1, keep);
    OnePassFromStart(text, keep);
    assert text[0..] == text && [] + Join(lines, line) == Join(lines, line);
    assert [] + OnePass(text, 0, 0, keep) == OnePass(text, 0, 0, keep);
  }

  lemma {:induction false} CountIs(s: seq<byte>, b: byte)
    ensures Count(s, b) == multiset(s)[b]
  {
    if s != [] {
      assert s == [s[0]] + s[1..];
      CountIs(s[1..], b);
    }
  }

  /** A burst alone, in whatever pattern: as many line feeds as there are of the one or
      of the other, and no fewer than of either. */
  lemma BurstComesTo(s: seq<byte>)
    requires forall i :: 0 <= i < |s| ==> s[i] == '\r' as byte || s[i] == '\n' as byte
    ensures var out, crs, lfs := Normalise(s, true), multiset(s)['\r' as byte], multiset(s)['\n' as byte];
            && (forall i :: 0 <= i < |out| ==> out[i] == '\n' as byte)
            && |out| >= crs && |out| >= lfs && (|out| == crs || |out| == lfs)
  {
    CountIs(s, CR);
    CountIs(s, LF);
    if s != [] {
      assert Burst(s) == |s| && s[..|s|] == s && s[|s|..] == [];
      var n := Max(Count(s, CR), Count(s, LF));
      assert LineFeeds(n) + [] == LineFeeds(n);
    }
  }

  // ----- the code

  datatype FetchResult = FetchSuccess | FetchTruncated | FetchEmpty

  /** The inner loop: adds LFs while there is room. */
  method AddLineFeeds(result: array<byte>, len: nat, avail: nat, n: nat) returns (newLen: nat, truncated: bool)
    requires len <= avail < result.Length
    modifies result
    ensures newLen == if len + n <= avail then len + n else avail
    ensures result[..newLen] == old(result[..len]) + LineFeeds(newLen - len)
    ensures truncated <==> len + n > avail
    ensures forall i :: avail <= i < result.Length ==> result[i] == old(result[i])
  {
    newLen, truncated := len, false;
    var left := n;
    while left > 0
      invariant len <= newLen <= avail && newLen + left == len + n && !truncated
      invariant result[..newLen] == old(result[..len]) + LineFeeds(newLen - len)
      invariant forall i :: avail <= i < result.Length ==> result[i] == old(result[i])
    {
      if newLen >= avail {
        truncated := true;
        break;
      }
      result[newLen] := LF;
      assert result[..newLen + 1] == result[..newLen] + [LF];
      assert LineFeeds(newLen + 1 - len) == LineFeeds(newLen - len) + [LF];
      newLen, left := newLen + 1, left - 1;
    }
  }

  /** What a newline burst comes to, as the code computes it. */
  method FlushCounts(result: array<byte>, len: nat, avail: nat, crCount: nat, lfCount: nat, newlines: bool)
    returns (newLen: nat, truncated: bool)
    requires len <= avail < result.Length
    modifies result
    ensures var out := old(result[..len]) + Flush(crCount, lfCount, newlines);
            && newLen <= avail && result[..newLen] <= out
            && (if truncated then newLen == avail < |out| else newLen == |out|)
    ensures forall i :: avail <= i < result.Length ==> result[i] == old(result[i])
  {
    newLen, truncated := len, false;
    if crCount > 0 || lfCount > 0 {
      var lfsAdd := crCount;
      if lfCount > crCount {
        lfsAdd := lfCount;
      }
      if !newlines {
        lfsAdd := 0;
      }
      newLen, truncated := AddLineFeeds(result, len, avail, lfsAdd);
    }
  }

  lemma OnePassStep(s: seq<byte>, crs: nat, lfs: nat, keep: bool)
    ensures if s == [] then OnePass(s, crs, lfs, keep) == Flush(crs, lfs, keep)
            else if s[0] == CR then OnePass(s, crs, lfs, keep) == OnePass(s[1..], crs + 1, lfs, keep)
            else if s[0] == LF then OnePass(s, crs, lfs, keep) == OnePass(s[1..], crs, lfs + 1, keep)
            else OnePass(s, crs, lfs, keep) == Flush(crs, lfs, keep) + ([s[0]] + OnePass(s[1..], 0, 0, keep))
  {
  }

  lemma OnePassFromStart(s: seq<byte>, keep: bool)
    ensures [] + OnePass(s[0..], 0, 0, keep) == Normalise(s, keep)
  {
    OnePassIsNormalise(s, 0, 0, keep);
    OnePassStarts(s, keep);
    assert s[0..] == s && [] + Normalise(s, keep) == Normalise(s, keep);
  }

  /** The loop over the source string s. */
  method CopyNormalised(s: seq<byte>, result: array<byte>, avail: nat, newlines: bool)
    returns (len: nat, truncated: bool)
    requires avail < result.Length && NUL !in s
    modifies result
    ensures len <= avail && result[..len] <= Normalise(s, newlines)
    ensures if truncated then len == avail < |Normalise(s, newlines)| else len == |Normalise(s, newlines)|
    ensures forall i :: avail <= i < result.Length ==> result[i] == old(result[i])
  {
    hide OnePass, Normalise, Flush;
    truncated, len := false, 0;
    var crCount, lfCount, sp := 0, 0, 0;
    ghost var text := Normalise(s, newlines);
    OnePassFromStart(s, newlines);
    assert result[..0] == [];
    while true
      invariant sp <= |s| && len <= avail && !truncated
      invariant result[..len] + OnePass(s[sp..], crCount, lfCount, newlines) == text
      invariant forall i :: avail <= i < result.Length ==> result[i] == old(result[i])
      decreases |s| - sp
    {
      var ch := if sp < |s| then s[sp] else NUL;
      ghost var rest, before := s[sp..], result[..len];
      OnePassStep(rest, crCount, lfCount, newlines);
      if ch == CR {
        crCount := crCount + 1;
      } else if ch == LF {
        lfCount := lfCount + 1;
      } else {
        ghost var out := before + Flush(crCount, lfCount, newlines);
        len, truncated := FlushCounts(result, len, avail, crCount, lfCount, newlines);
        crCount, lfCount := 0, 0;
        if ch == NUL {
          assert rest == [] && out == text;
          break;
        }
        assert text == out + ([ch] + OnePass(rest[1..], 0, 0, newlines));
        if len >= avail {
          truncated := true;
          break;
        }
        assert result[..len] == out;
        result[len] := ch;
        len := len + 1;
        assert result[..len] == out + [ch];
        assert out + [ch] + OnePass(rest[1..], 0, 0, newlines) == text;
      }
      sp := sp + 1;
      assert s[sp..] == rest[1..];
    }
  }

  /** Writes what fits of the normalised field, and a NUL. Only the first `max`
      bytes of the buffer are touched. */
  method EntryString(value: seq<byte>, result: array<byte>, max: nat, newlines: bool) returns (code: FetchResult)
    requires 1 <= max <= result.Length
    modifies result
    ensures var text := Normalise(CStr(value), newlines);
            && Clip(text, max) + [NUL] <= result[..]
            && code == if |text| >= max then FetchTruncated else if text == [] then FetchEmpty else FetchSuccess
    ensures forall i :: max <= i < result.Length ==> result[i] == old(result[i])
  {
    hide Normalise;
    var len, truncated := CopyNormalised(CStr(value), result, max - 1, newlines);
    ghost var out := result[..len];
    result[len] := NUL;
    assert result[..len] == out;
    assert result[..][..len + 1] == out + [NUL];
    code := if truncated then FetchTruncated else if len == 0 then FetchEmpty else FetchSuccess;
  }

  /** With the size that cgiFormStringSpaceNeeded reports nothing is cut. */
  method EntryStringWithRoom(value: seq<byte>, newlines: bool) returns (text: seq<byte>)
    ensures text == Normalise(CStr(value), newlines)
  {
    var space := |CStr(value)| + 1;
    var buffer := new byte[space](_ => 0);
    var code := EntryString(value, buffer, space, newlines);
    NormaliseShrinks(CStr(value), newlines);
    assert code != FetchTruncated;
    ghost var want := Normalise(CStr(value), newlines);
    assert (want + [NUL]) <= buffer[..];
    NormalisedHasNoNul(CStr(value), newlines);
    CStrUpTo(want, buffer[..]);
    text := CStr(buffer[..]);
  }

  lemma {:induction false} NormalisedHasNoNul(s: seq<byte>, keep: bool)
    requires NUL !in s
    ensures NUL !in Normalise(s, keep)
    decreases |s|
  {
    if s != [] {
      NormalisedHasNoNul(if IsNewline(s[0]) then s[Burst(s)..] else s[1..], keep);
    }
  }

  lemma {:induction false} CStrUpTo(text: seq<byte>, buffer: seq<byte>)
    requires NUL !in text && text + [NUL] <= buffer
    ensures CStr(buffer) == text
  {
    if text != [] {
      assert text[1..] + [NUL] == (text + [NUL])[1..];
      assert buffer[0] == (text + [NUL])[0];
      CStrUpTo(text[1..], buffer[1..]);
    } else {
      assert buffer[0] == ([] + [NUL])[0];
    }
  }
}
