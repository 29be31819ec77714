// The parser of application/x-www-form-urlencoded data (section 17.13.4.1 of
// HTML 4.01).
module Urlencoded {
  import opened Bytes
  import opened Forms

  // ----- unescaping

  /** cgiHexValue: zero for what is not a hexadecimal digit. */
  function HexValue(b: byte): (v: byte)
    ensures v < 16
    ensures '0' as int <= b <= '9' as int ==> v == b - '0' as int
    ensures 'a' as int <= b <= 'f' as int ==> v == 10 + b - 'a' as int
    ensures 'A' as int <= b <= 'F' as int ==> v == 10 + b - 'A' as int
    ensures v != 0 ==> '0' as int <= b <= '9' as int || 'a' as int <= b <= 'f' as int || 'A' as int <= b <= 'F' as int
  {
    if 48 <= b <= 57 then b - 48
    else if 65 <= b <= 70 then b - 55
    else if 97 <= b <= 102 then b - 87
    else 0
  }

  /** A percent sign takes the next two bytes with it; cut short by the end, it
      yields nothing. */
  function Decode(s: seq<byte>): (r: seq<byte>)
    ensures |r| <= |s|
  {
    if s == [] then []
    else if s[0] == PERCENT then
      if |s| < 3 then [] else [HexValue(s[1]) * 16 + HexValue(s[2])] + Decode(s[3..])
    else if s[0] == PLUS then [SPACE] + Decode(s[1..])
    else [s[0]] + Decode(s[1..])
  }

  datatype EscapeState = Rest | First | Second

  /** What is still to come out when the decoder is in a given state. */
  function Pending(state: EscapeState, escaped: int, s: seq<byte>): seq<byte>
    requires state.Second? ==> 0 <= escaped <= 240
  {
    match state
    case Rest => Decode(s)
    case First => Decode([PERCENT] + s)
    case Second => if s == [] then [] else [escaped + HexValue(s[0])] + Decode(s[1..])
  }

  /** What the decoder emits for one byte, and its next state. */
  function Emits(state: EscapeState, escaped: int, ch: byte): seq<byte>
    requires state.Second? ==> 0 <= escaped <= 240
  {
    match state
    case Rest => if ch == PERCENT then [] else if ch == PLUS then [SPACE] else [ch]
    case First => []
    case Second => [escaped + HexValue(ch)]
  }

  function Next(state: EscapeState, ch: byte): EscapeState {
    match state
    case Rest => if ch == PERCENT then First else Rest
    case First => Second
    case Second => Rest
  }

  function Value(state: EscapeState, escaped: int, ch: byte): int {
    match state
    case Rest => escaped
    case First => HexValue(ch) * 16
    case Second => escaped + HexValue(ch)
  }

  /** One byte is taken from what is pending. */
  lemma PendingStep(state: EscapeState, escaped: int, s: seq<byte>)
    requires s != [] && (state.Second? ==> 0 <= escaped <= 240)
    ensures Pending(state, escaped, s) ==
            Emits(state, escaped, s[0]) + Pending(Next(state, s[0]), Value(state, escaped, s[0]), s[1..])
  {
    match state {
      case Rest =>
        assert [PERCENT] + s[1..] == s || s[0] != PERCENT;
      case First =>
        var t := [PERCENT] + s;
        if |s| > 1 {
          assert t[1] == s[0] && t[2] == s[1] && t[3..] == s[1..][1..];
        }
      case Second =>
    }
  }

  /** The three-state loop writes at most one byte per byte read, so the block of
      len + 1 bytes holds the result and its NUL. */
  method UnescapeChars(cp: seq<byte>) returns (decoded: seq<byte>)
    ensures decoded == Decode(cp)
  {
    hide Decode, Pending, HexValue;
    var s := new byte[|cp| + 1](_ => 0);
    var state, escapedValue := Rest, 0;
    var srcPos, dstPos := 0, 0;
    ghost var out: seq<byte> := [];
    PendingAtStart(cp);
    while srcPos < |cp|
      invariant 0 <= dstPos <= srcPos <= |cp| && (state.Second? ==> 0 <= escapedValue <= 240)
      invariant out == s[..dstPos] && out + Pending(state, escapedValue, cp[srcPos..]) == Decode(cp)
    {
      var ch := cp[srcPos];
      ghost var emits := Emits(state, escapedValue, ch);
      PendingStep(state, escapedValue, cp[srcPos..]);
      assert cp[srcPos..][1..] == cp[srcPos + 1..];
      match state {
        case Rest =>
          if ch == PERCENT {
            state := First;
          } else if ch == PLUS {
            s[dstPos] := SPACE;
            dstPos := dstPos + 1;
          } else {
            s[dstPos] := ch;
            dstPos := dstPos + 1;
          }
        case First =>
          escapedValue := HexValue(ch) * 16;
          state := Second;
        case Second =>
          escapedValue := escapedValue + HexValue(ch);
          s[dstPos] := escapedValue;
          dstPos := dstPos + 1;
          state := Rest;
      }
      out := out + emits;
      srcPos := srcPos + 1;
    }
    PendingAtEnd(state, escapedValue);
    assert cp[srcPos..] == [] && out + [] == out;
    s[dstPos] := NUL;
    decoded := s[..dstPos];
  }

  lemma PendingAtStart(cp: seq<byte>)
    ensures [] + Pending(Rest, 0, cp[0..]) == Decode(cp)
  {
  }

  lemma PendingAtEnd(state: EscapeState, escaped: int)
    requires state.Second? ==> 0 <= escaped <= 240
    ensures Pending(state, escaped, []) == []
  {
  }

  // ----- splitting

  /** The first raw name and value, and what follows them: a name ends at the
      first equals sign, whatever it contains, a value at the first ampersand. */
  function NextField(data: seq<byte>): (r: Option<(seq<byte>, seq<byte>, seq<byte>)>)
    ensures r.Some? ==> |r.value.2| < |data|
  {
    var i := Span(data, AllBut(EQUALS));
    if i == |data| then None
    else
      var rest := data[i + 1..];
      var j := Span(rest, AllBut(AMPERSAND));
      Some((data[..i], rest[..j], if j == |rest| then [] else rest[j + 1..]))
  }

  function EntryOfField(name: seq<byte>, value: seq<byte>): Entry {
    Entry(name, value, |CStr(value)|, [], [], None)
  }

  function FormEntries(data: seq<byte>): seq<Entry>
    decreases |data|
  {
    match NextField(data)
    case None => []
    case Some((name, value, rest)) => [EntryOfField(Decode(name), Decode(value))] + FormEntries(rest)
  }

  /** The inner loops: the length of a token, and whether its stop byte was found
      and stepped over. */
  method TakeToken(data: seq<byte>, start: nat, stop: byte) returns (len: nat, pos: nat, found: bool)
    requires start <= |data|
    ensures len == Span(data[start..], AllBut(stop)) && start + len <= |data|
    ensures found <==> start + len < |data|
    ensures pos == if found then start + len + 1 else |data|
    ensures data[start..][..len] == data[start..start + len]
    ensures found ==> data[start..][len + 1..] == data[pos..]
  {
    len, pos, found := 0, start, false;
    while pos != |data|
      invariant pos == start + len <= |data| && !found
      invariant forall i :: 0 <= i < len ==> data[start..][i] != stop
      decreases |data| - pos
    {
      if data[pos] == stop {
        found := true;
        pos := pos + 1;
        break;
      }
      pos, len := pos + 1, len + 1;
    }
    SpanIs(data[start..], AllBut(stop), len);
  }

  /** One turn of the outer loop, as far as the raw name and value. */
  method TakeField(data: seq<byte>, start: nat)
    returns (ok: bool, name: seq<byte>, value: seq<byte>, more: bool, pos: nat)
    requires start <= |data|
    ensures ok ==> start < pos <= |data| && (!more ==> pos == |data|)
    ensures match NextField(data[start..])
            case None => !ok
            case Some((n, v, rest)) => ok && name == n && value == v && data[pos..] == rest
  {
    hide Span;
    var len;
    len, pos, ok := TakeToken(data, start, EQUALS);
    name, value, more := data[start..start + len], [], false;
    if ok {
      var from := pos;
      len, pos, more := TakeToken(data, from, AMPERSAND);
      value := data[from..from + len];
    }
  }

  method ParseFormInput(data: seq<byte>) returns (entries: seq<Entry>)
    ensures entries == FormEntries(data)
  {
    hide NextField;
    entries := [];
    var pos, more := 0, true;
    assert data[0..] == data;
    while pos != |data|
      invariant pos <= |data| && entries + FormEntries(data[pos..]) == FormEntries(data)
      decreases |data| - pos
    {
      var ok, name, value, next;
      ok, name, value, more, next := TakeField(data, pos);
      if !ok {
        return;
      }
      var attr := UnescapeChars(name);
      value := UnescapeChars(value);
      entries := entries + [EntryOfField(attr, value)];
      pos := next;
      if !more {
        break;
      }
    }
    NoFields();
  }

  lemma NoFields()
    ensures FormEntries([]) == []
  {
  }

  // ----- the reference encoding

  /** The bytes that mean something to the parser. */
  const RESERVED: set<byte> := {'%' as byte, '+' as byte, '&' as byte, '=' as byte}

  function HexDigit(n: nat, upper: bool): byte
    requires n < 16
  {
    if n < 10 then '0' as byte + n else if upper then 'A' as byte + (n - 10) else 'a' as byte + (n - 10)
  }

  /** An encoder may leave any bytes as they are but the reserved ones; it writes
      other spaces as plus signs and escapes the rest, with digits of either case. */
  function Encode(s: seq<byte>, literal: set<byte>, upper: bool): seq<byte> {
    if s == [] then []
    else (if s[0] in literal then [s[0]]
          else if s[0] == ' ' as byte then ['+' as byte]
          else ['%' as byte, HexDigit(s[0] / 16, upper), HexDigit(s[0] % 16, upper)]) + Encode(s[1..], literal, upper)
  }

  function EncodePairs(pairs: seq<(seq<byte>, seq<byte>)>, literal: set<byte>, upper: bool): seq<byte> {
    if pairs == [] then []
    else Encode(pairs[0].0, literal, upper) + ['=' as byte] + Encode(pairs[0].1, literal, upper) +
         if |pairs| == 1 then [] else ['&' as byte] + EncodePairs(pairs[1..], literal, upper)
  }

  /** What the entry of a pair holds: the name, the value, and the length of the value
      up to its NUL, if it has one. */
  ghost predicate FieldHolds(e: Entry, pair: (seq<byte>, seq<byte>)) {
    && e.attr == pair.0 && e.value == pair.1 && e.valueLength == |CStr(pair.1)|
    && e.fileName == [] && e.contentType == [] && e.upload == None
  }

  /** The entries for a list of pairs. */
  ghost predicate FieldsHold(entries: seq<Entry>, pairs: seq<(seq<byte>, seq<byte>)>) {
    |entries| == |pairs| && forall i :: 0 <= i < |pairs| ==> FieldHolds(entries[i], pairs[i])
  }

  function EntryOfPair(pair: (seq<byte>, seq<byte>)): (e: Entry)
    ensures FieldHolds(e, pair)
  {
    Entry(pair.0, pair.1, |CStr(pair.1)|, [], [], None)
  }

  /** The entries that the pairs should become. */
  function EntriesOfPairs(pairs: seq<(seq<byte>, seq<byte>)>): (r: seq<Entry>)
    ensures |r| == |pairs| && forall i :: 0 <= i < |pairs| ==> FieldHolds(r[i], pairs[i])
  {
    if pairs == [] then [] else [EntryOfPair(pairs[0])] + EntriesOfPairs(pairs[1..])
  }

  lemma HexRoundTrip(b: byte, upper: bool)
    ensures HexValue(HexDigit(b / 16, upper)) * 16 + HexValue(HexDigit(b % 16, upper)) == b
  {
  }

  lemma {:induction false} DecodeUndoesEncode(s: seq<byte>, literal: set<byte>, upper: bool)
    requires literal !! RESERVED
    ensures Decode(Encode(s, literal, upper)) == s
    ensures AMPERSAND !in Encode(s, literal, upper) && EQUALS !in Encode(s, literal, upper)
  {
    if s != [] {
      var tail := Encode(s[1..], literal, upper);
      DecodeUndoesEncode(s[1..], literal, upper);
      if s[0] in literal {
        assert ([s[0]] + tail)[1..] == tail;
      } else if s[0] == SPACE {
        assert ([PLUS] + tail)[1..] == tail;
      } else {
        HexRoundTrip(s[0], upper);
        assert ([PERCENT, HexDigit(s[0] / 16, upper), HexDigit(s[0] % 16, upper)] + tail)[3..] == tail;
      }
    }
  }

  lemma TokenEnds(token: seq<byte>, stop: byte, end: seq<byte>)
    requires stop !in token && (end == [] || end[0] == stop)
    ensures Span(token + end, AllBut(stop)) == |token|
    ensures (token + end)[..|token|] == token && (token + end)[|token|..] == end
    ensures end != [] ==> (token + end)[|token| + 1..] == end[1..]
  {
  }

  lemma FieldIsRead(name: seq<byte>, value: seq<byte>, end: seq<byte>)
    requires EQUALS !in name && AMPERSAND !in value && (end == [] || end[0] == AMPERSAND)
    ensures NextField(name + [EQUALS] + value + end) == Some((name, value, if end == [] then [] else end[1..]))
  {
    assert name + [EQUALS] + value + end == name + ([EQUALS] + (value + end));
    TokenEnds(name, EQUALS, [EQUALS] + (value + end));
    assert ([EQUALS] + (value + end))[1..] == value + end;
    TokenEnds(value, AMPERSAND, end);
  }

  lemma FieldIsHeld(pair: (seq<byte>, seq<byte>))
    ensures EntryOfField(pair.0, pair.1) == EntryOfPair(pair)
  {
  }

  lemma {:induction false} PairsAreRead(pairs: seq<(seq<byte>, seq<byte>)>, literal: set<byte>, upper: bool)
    requires literal !! RESERVED
    ensures FormEntries(EncodePairs(pairs, literal, upper)) == EntriesOfPairs(pairs)
  {
    hide NextField, EntryOfField, EntryOfPair, Decode, Encode;
    if pairs == [] {
      NoFields();
    } else {
      var (name, value) := pairs[0];
      var end := if |pairs| == 1 then [] else [AMPERSAND] + EncodePairs(pairs[1..], literal, upper);
      DecodeUndoesEncode(name, literal, upper);
      DecodeUndoesEncode(value, literal, upper);
      FieldIsRead(Encode(name, literal, upper), Encode(value, literal, upper), end);
      FieldIsHeld(pairs[0]);
      PairsAreRead(pairs[1..], literal, upper);
      if |pairs| > 1 {
        assert end[1..] == EncodePairs(pairs[1..], literal, upper);
      }
    }
  }

  /** Parsing the encoding of any list of pairs returns the names and the values, in
      order. */
  lemma ParseUndoesEncode(pairs: seq<(seq<byte>, seq<byte>)>, literal: set<byte>, upper: bool)
    requires literal !! RESERVED
    ensures FieldsHold(FormEntries(EncodePairs(pairs, literal, upper)), pairs)
  {
    hide FormEntries, EncodePairs, FieldHolds;
    PairsAreRead(pairs, literal, upper);
  }

  /** What has no equals sign is dropped. */
  lemma WithoutEqualsIsDropped(data: seq<byte>)
    requires '=' as byte !in data
    ensures FormEntries(data) == []
  {
    SpanIs(data, AllBut(EQUALS), |data|);
  }

  /** The stored length is the length of the value exactly when it has no NUL. */
  lemma ValueLengthIff(name: seq<byte>, value: seq<byte>)
    ensures EntryOfField(name, value).valueLength == |value| <==> NUL !in value
  {
  }
}
