// Where the search leaves the stream, whatever it emits on the way: the search for
// the first boundary throws the bytes before it away.
module Placement {
  import opened Bytes
  import opened MpStreams
  import opened Search

  /** What is left to be read behind the first occurrence of p. */
  function Wanted(text: seq<byte>, p: seq<byte>): Option<seq<byte>> {
    match Find(text, p)
    case None => None
    case Some(j) => Some(text[j + |p|..])
  }

  /** The stream that a scan leaves behind a match. */
  function Left(r: Scan): Option<Flow> {
    if r.found then Some(r.flow) else None
  }

  /** What is to be read then. */
  function ToRead(left: Option<Flow>): Option<seq<byte>> {
    match left
    case None => None
    case Some(flow) => Some(flow.View())
  }

  /** A stream with nothing in the ring. */
  function Plain(wanted: Option<seq<byte>>): (left: Option<Flow>)
    ensures ToRead(left) == wanted
  {
    match wanted
    case None => None
    case Some(rest) =>
      assert [] + rest == rest;
      Some(Flow([], rest))
  }

  /** The stream that the search loop leaves, from k bytes into a match. */
  function Verdict(flow: Flow, p: seq<byte>, k: nat): Option<Flow>
    requires k < |p|
  {
    Left(Machine(flow, p, k, [], true))
  }

  /** It does not depend on what was emitted, nor on the discipline so far. */
  lemma {:induction false} SameVerdict(flow: Flow, p: seq<byte>, k: nat, out: seq<byte>, clean: bool)
    requires k < |p|
    ensures Left(Machine(flow, p, k, out, clean)) == Verdict(flow, p, k)
    decreases |flow.View()| + k, |flow.View()|
  {
    hide Step;
    if flow.View() != [] {
      var t := Step(flow, p, k);
      if t.k < |p| {
        SameVerdict(t.flow, p, t.k, Plus(out, t.emits), clean && t.clean);
        SameVerdict(t.flow, p, t.k, Plus([], t.emits), true && t.clean);
      }
    }
  }

  lemma VerdictStep(flow: Flow, p: seq<byte>, k: nat)
    requires k < |p| && flow.View() != []
    ensures var t := Step(flow, p, k);
            Verdict(flow, p, k) == if t.k == |p| then Some(t.flow) else Verdict(t.flow, p, t.k)
  {
    hide Step;
    var t := Step(flow, p, k);
    if t.k < |p| {
      SameVerdict(t.flow, p, t.k, Plus([], t.emits), true && t.clean);
    }
  }

  // ----- the loop as a table: between two fetches the ring is empty

  /** The loop has emptied the ring, k bytes into a match; or it has matched the
      pattern, with some of the ring left. */
  datatype Pause = At(k: nat) | Matched(ring: seq<byte>)

  function Drain(ring: seq<byte>, p: seq<byte>, k: nat): (r: Pause)
    requires k < |p|
    ensures r.At? ==> r.k < |p|
    decreases |ring| + k, |ring|
  {
    if ring == [] then At(k)
    else
      assert Flow(ring, []).View() == ring;
      var t := Step(Flow(ring, []), p, k);
      if t.k == |p| then Matched(t.flow.ring) else Drain(t.flow.ring, p, t.k)
  }

  /** The table: where one more byte leads. */
  function Fed(p: seq<byte>, k: nat, d: byte): (r: Pause)
    requires k < |p|
    ensures r.At? ==> r.k < |p|
  {
    Drain([d], p, k)
  }

  /** The stream that is left in the end, when `rest` follows. */
  function Resumed(pause: Pause, rest: seq<byte>, p: seq<byte>): Option<Flow>
    requires pause.At? ==> pause.k < |p|
  {
    match pause
    case At(next) => Verdict(Flow([], rest), p, next)
    case Matched(left) => Some(Flow(left, rest))
  }

  /** With something in the ring, a turn of the loop leaves the rest alone. */
  lemma RestWaits(ring: seq<byte>, rest: seq<byte>, p: seq<byte>, k: nat)
    requires k < |p| && ring != []
    ensures var t, u := Step(Flow(ring, rest), p, k), Step(Flow(ring, []), p, k);
            t.k == u.k && t.flow == Flow(u.flow.ring, rest)
  {
  }

  lemma {:induction false} DrainFirst(ring: seq<byte>, rest: seq<byte>, p: seq<byte>, k: nat)
    requires k < |p|
    ensures Verdict(Flow(ring, rest), p, k) == Resumed(Drain(ring, p, k), rest, p)
    decreases |ring| + k, |ring|
  {
    hide Step, Verdict;
    if ring != [] {
      assert Flow(ring, []).View() == ring && Flow(ring, rest).View() == ring + rest;
      var t := Step(Flow(ring, []), p, k);
      VerdictStep(Flow(ring, rest), p, k);
      RestWaits(ring, rest, p, k);
      if t.k < |p| {
        DrainFirst(t.flow.ring, rest, p, t.k);
      }
    }
  }

  /** A byte that is fetched is dealt with like a ring of that byte. */
  lemma FetchOne(d: byte, rest: seq<byte>, p: seq<byte>, k: nat)
    requires k < |p|
    ensures Verdict(Flow([], [d] + rest), p, k) == Resumed(Fed(p, k, d), rest, p)
  {
    var fetched, held := Flow([], [d] + rest), Flow([d], rest);
    assert fetched.View() == held.View() == [d] + rest;
    assert fetched.Pop(1) == held.Pop(1) by {
      assert ([d] + rest)[1..] == rest;
    }
    assert Step(fetched, p, k) == Step(held, p, k);
    hide Step, Verdict, Drain;
    VerdictStep(fetched, p, k);
    VerdictStep(held, p, k);
    DrainFirst([d], rest, p, k);
  }

  // ----- the reference as a table

  ghost predicate EndsWith(s: seq<byte>, t: seq<byte>) {
    |t| <= |s| && s[|s| - |t|..] == t
  }

  /** The longest start of p, of at most n bytes, that s ends with. */
  function Border(s: seq<byte>, p: seq<byte>, n: nat): (j: nat)
    requires n <= |p| && n <= |s|
    ensures j <= n && EndsWith(s, p[..j])
    ensures forall i :: j < i <= n ==> !EndsWith(s, p[..i])
  {
    if s[|s| - n..] == p[..n] then n else Border(s, p, n - 1)
  }

  /** With p[..j] seen, and no longer start of p, one more byte leads here. */
  function Seen(p: seq<byte>, j: nat, d: byte): (i: nat)
    requires j < |p|
    ensures i <= j + 1 <= |p|
  {
    Border(p[..j] + [d], p, j + 1)
  }

  lemma NoneBeforeBorder(s: seq<byte>, p: seq<byte>, rest: seq<byte>, i: nat)
    requires 0 < |s| <= |p| && i < |s| - Border(s, p, |s|)
    ensures !OccursAt(s + rest, p, i)
  {
    hide Border;
    assert !EndsWith(s, p[..|s| - i]);
  }

  lemma BehindCut(s: seq<byte>, t: seq<byte>, rest: seq<byte>)
    requires EndsWith(s, t)
    ensures (s + rest)[|s| - |t|..] == t + rest
  {
    assert s == s[..|s| - |t|] + t;
  }

  /** Nothing before a border matters. */
  lemma DropBeforeBorder(s: seq<byte>, p: seq<byte>, rest: seq<byte>)
    requires 0 < |s| <= |p|
    ensures Wanted(s + rest, p) == Wanted(p[..Border(s, p, |s|)] + rest, p)
  {
    var j := Border(s, p, |s|);
    var cut := |s| - j;
    assert EndsWith(s, p[..j]);
    hide *;
    BehindCut(s, p[..j], rest);
    forall i: nat | i < cut
      ensures !OccursAt(s + rest, p, i)
    {
      NoneBeforeBorder(s, p, rest, i);
    }
    NothingBefore(s + rest, p, cut);
  }

  lemma {:induction false} NothingBefore(text: seq<byte>, p: seq<byte>, cut: nat)
    requires cut <= |text| && forall i: nat :: i < cut ==> !OccursAt(text, p, i)
    ensures Wanted(text, p) == Wanted(text[cut..], p)
  {
    if cut > 0 {
      assert !(p <= text) by {
        assert !OccursAt(text, p, 0);
      }
      forall i: nat | i < cut - 1
        ensures !OccursAt(text[1..], p, i)
      {
        OccursAtShift(text, p, i);
        assert !OccursAt(text, p, i + 1);
      }
      NothingBefore(text[1..], p, cut - 1);
      assert text[1..][cut - 1..] == text[cut..];
      match Find(text[1..], p) {
        case None =>
        case Some(j) => assert text[1..][j + |p|..] == text[j + 1 + |p|..];
      }
    }
  }

  /** What is left to be read in the end, when the start p[..i] has been seen. */
  function Continued(i: nat, rest: seq<byte>, p: seq<byte>): Option<seq<byte>>
    requires i <= |p|
  {
    if i == |p| then Some(rest) else Wanted(p[..i] + rest, p)
  }

  lemma AtFront(p: seq<byte>, rest: seq<byte>)
    ensures Wanted(p + rest, p) == Some(rest)
  {
    assert Find(p + rest, p) == Some(0);
  }

  lemma SeeOne(d: byte, rest: seq<byte>, p: seq<byte>, j: nat)
    requires j < |p|
    ensures Wanted(p[..j] + ([d] + rest), p) == Continued(Seen(p, j, d), rest, p)
  {
    hide *;
    var i, s := Seen(p, j, d), p[..j] + [d];
    SeenIsBorder(p, j, d);
    ContinuedIs(i, rest, p);
    assert p[..j] + ([d] + rest) == s + rest;
    DropBeforeBorder(s, p, rest);
  }

  lemma SeenIsBorder(p: seq<byte>, j: nat, d: byte)
    requires j < |p|
    ensures Seen(p, j, d) == Border(p[..j] + [d], p, j + 1)
  {
    hide Border;
  }

  lemma ContinuedIs(i: nat, rest: seq<byte>, p: seq<byte>)
    requires i <= |p|
    ensures Continued(i, rest, p) == Wanted(p[..i] + rest, p)
  {
    hide Wanted;
    if i == |p| {
      assert p[..i] == p;
      AtFront(p, rest);
    }
  }

  lemma ShortIsNone(p: seq<byte>, j: nat)
    requires j < |p|
    ensures Wanted(p[..j] + [], p) == None
  {
  }

  // ----- when the two tables agree

  /** The loop pauses where the pair of states is one of the given, or both match
      at the same byte, with nothing left in the ring. */
  ghost predicate Meets(pause: Pause, i: nat, p: seq<byte>, pairs: set<(nat, nat)>) {
    match pause
    case At(next) => i < |p| && (next, i) in pairs
    case Matched(left) => i == |p| && left == []
  }

  /** The pairs of states, of the loop and of the reference, are closed under
      every byte. */
  ghost predicate Closed(p: seq<byte>, pairs: set<(nat, nat)>) {
    forall k: nat, j: nat, d: byte :: (k, j) in pairs && k < |p| && j < |p| ==>
      Meets(Fed(p, k, d), Seen(p, j, d), p, pairs)
  }

  lemma {:induction false} ClosedPlacesRight(p: seq<byte>, pairs: set<(nat, nat)>, k: nat, j: nat, text: seq<byte>)
    requires Closed(p, pairs) && (k, j) in pairs && k < |p| && j < |p|
    ensures Verdict(Flow([], text), p, k) == Plain(Wanted(p[..j] + text, p))
    decreases |text|
  {
    hide Verdict, Wanted, Fed, Seen, Closed;
    if text == [] {
      ShortIsNone(p, j);
      NothingToRead(p, k);
    } else {
      var d, rest := text[0], text[1..];
      assert text == [d] + rest;
      FetchOne(d, rest, p, k);
      SeeOne(d, rest, p, j);
      ClosedStep(p, pairs, k, j, d);
      assert p[..j] + text == p[..j] + ([d] + rest);
      match Fed(p, k, d) {
        case At(next) => ClosedPlacesRight(p, pairs, next, Seen(p, j, d), rest);
        case Matched(left) =>
      }
    }
  }

  lemma ClosedStep(p: seq<byte>, pairs: set<(nat, nat)>, k: nat, j: nat, d: byte)
    requires Closed(p, pairs) && (k, j) in pairs && k < |p| && j < |p|
    ensures Meets(Fed(p, k, d), Seen(p, j, d), p, pairs)
  {
  }

  lemma NothingToRead(p: seq<byte>, k: nat)
    requires k < |p|
    ensures Verdict(Flow([], []), p, k) == None
  {
  }

  /** The loop, k bytes into a match, and the reference, having seen j, agree on
      every text. */
  ghost predicate Agree(p: seq<byte>, k: nat, j: nat)
    requires k < |p| && j < |p|
  {
    forall text :: ToRead(Verdict(Flow([], text), p, k)) == Wanted(p[..j] + text, p)
  }

  ghost function AgreeingPairs(p: seq<byte>): set<(nat, nat)> {
    set k: nat, j: nat | k < |p| && j < |p| && Agree(p, k, j) :: (k, j)
  }

  /** Agreement is handed on from byte to byte. */
  lemma AgreeStep(p: seq<byte>, k: nat, j: nat, d: byte)
    requires k < |p| && j < |p| && Agree(p, k, j)
    ensures Meets(Fed(p, k, d), Seen(p, j, d), p, AgreeingPairs(p))
  {
    var pause, i := Fed(p, k, d), Seen(p, j, d);
    forall rest
      ensures ToRead(Resumed(pause, rest, p)) == Continued(i, rest, p)
    {
      SameAfterOne(p, k, j, d, rest);
    }
    assert ToRead(Resumed(pause, [], p)) == Continued(i, [], p);
    hide Verdict, Wanted, Fed, Seen;
    match pause {
      case At(next) =>
        NothingToRead(p, next);
        assert i < |p|;
        forall rest
          ensures ToRead(Verdict(Flow([], rest), p, next)) == Wanted(p[..i] + rest, p)
        {
          assert ToRead(Resumed(pause, rest, p)) == Continued(i, rest, p);
        }
        assert Agree(p, next, i);
      case Matched(left) =>
        assert Flow(left, []).View() == left;
        if i < |p| {
          ShortIsNone(p, i);
        }
    }
  }

  lemma SameAfterOne(p: seq<byte>, k: nat, j: nat, d: byte, rest: seq<byte>)
    requires k < |p| && j < |p| && Agree(p, k, j)
    ensures ToRead(Resumed(Fed(p, k, d), rest, p)) == Continued(Seen(p, j, d), rest, p)
  {
    hide Verdict, Wanted, Fed, Seen, Resumed, Continued;
    FetchOne(d, rest, p, k);
    SeeOne(d, rest, p, j);
  }

  /** For every pattern: the search leaves the stream where it should, on all texts,
      if and only if some set of pairs of states that holds (0, 0) is closed. There
      are at most |p| * |p| pairs, so that this can be checked for a boundary. */
  lemma PlacesRightIff(p: seq<byte>)
    requires p != []
    ensures (forall text :: ToRead(Verdict(Flow([], text), p, 0)) == Wanted(text, p)) <==>
            exists pairs: set<(nat, nat)> :: (0, 0) in pairs && Closed(p, pairs)
  {
    hide Verdict, Wanted, Closed;
    if pairs: set<(nat, nat)> :| (0, 0) in pairs && Closed(p, pairs) {
      forall text
        ensures ToRead(Verdict(Flow([], text), p, 0)) == Wanted(text, p)
      {
        ClosedPlacesRight(p, pairs, 0, 0, text);
        assert p[..0] + text == text;
      }
    }
    if forall text :: ToRead(Verdict(Flow([], text), p, 0)) == Wanted(text, p) {
      assert forall text :: p[..0] + text == text;
      assert Agree(p, 0, 0);
      AgreeingPairsAreClosed(p);
    }
  }

  lemma AgreeingPairsAreClosed(p: seq<byte>)
    requires p != [] && Agree(p, 0, 0)
    ensures (0, 0) in AgreeingPairs(p) && Closed(p, AgreeingPairs(p))
  {
    hide Agree, Fed, Seen, Meets;
    forall k: nat, j: nat, d: byte | (k, j) in AgreeingPairs(p) && k < |p| && j < |p|
      ensures Meets(Fed(p, k, d), Seen(p, j, d), p, AgreeingPairs(p))
    {
      AgreeStep(p, k, j, d);
    }
  }

  // ----- a pattern for which they do, although its runs are not all clean

  lemma {:induction false} DrainMatch(p: seq<byte>, k: nat, n: nat, tail: seq<byte>)
    requires k <= n < |p|
    ensures Drain(p[k..n] + tail, p, k) == Drain(tail, p, n)
    decreases n - k
  {
    if k < n {
      var ring := p[k..n] + tail;
      assert ring == [p[k]] + (p[k + 1..n] + tail) && Flow(ring, []).View() == ring;
      DrainMatch(p, k + 1, n, tail);
    } else {
      assert p[k..n] + tail == tail;
    }
  }

  lemma DrainMismatch(p: seq<byte>, k: nat, d: byte, tail: seq<byte>)
    requires 0 < k < |p| && d != p[k]
    ensures Drain([d] + tail, p, k) == Drain(tail + p[1..k] + [d], p, 0)
  {
    var ring := [d] + tail;
    assert Flow(ring, []).View() == ring && ring[1..] == tail;
    assert tail + (p[1..k] + [d]) == tail + p[1..k] + [d];
  }

  lemma DrainOther(p: seq<byte>, d: byte, tail: seq<byte>)
    requires p != [] && d != p[0]
    ensures Drain([d] + tail, p, 0) == Drain(tail, p, 0)
  {
    var ring := [d] + tail;
    assert Flow(ring, []).View() == ring && ring[1..] == tail;
  }

  /** Within the run, a byte that does not belong to it takes the loop back to the start. */
  lemma {:induction false} BackToStart(p: seq<byte>, m: nat, k: nat, d: byte)
    requires RunThenMore(p, m) && k <= m && d != p[0] && d != p[k]
    ensures Fed(p, k, d) == At(0)
  {
    hide Drain;
    assert [d] + [] == [d];
    if k == 0 {
      DrainOther(p, d, []);
      assert Drain([], p, 0) == At(0) by { EmptyDrain(p, 0); }
    } else {
      DrainMismatch(p, k, d, []);
      RunInPattern(p, m, k);
      RunInPattern(p, m, k - 1);
      assert [] + p[1..k] + [d] == p[0..k - 1] + [d];
      DrainMatch(p, 0, k - 1, [d]);
      BackToStart(p, m, k - 1, d);
    }
  }

  lemma EmptyDrain(p: seq<byte>, k: nat)
    requires k < |p|
    ensures Drain([], p, k) == At(k)
  {
  }

  /** Behind the run and p[m], the other byte overtakes p[m], and the loop comes to
      the start all the same. */
  lemma BackFromBehind(p: seq<byte>, m: nat, d: byte)
    requires RunThenMore(p, m) && d != p[0] && d != p[m + 1]
    ensures Fed(p, m + 1, d) == At(0)
  {
    hide Drain;
    assert [d] + [] == [d];
    DrainMismatch(p, m + 1, d, []);
    RunInPattern(p, m, m);
    RunInPattern(p, m, m - 1);
    assert [] + p[1..m + 1] + [d] == p[0..m - 1] + ([p[m]] + [d]);
    DrainMatch(p, 0, m - 1, [p[m]] + [d]);
    DrainMismatch(p, m - 1, p[m], [d]);
    RunInPattern(p, m, m - 2);
    assert [d] + p[1..m - 1] + [p[m]] == [d] + (p[0..m - 2] + [p[m]]);
    DrainOther(p, d, p[0..m - 2] + [p[m]]);
    DrainMatch(p, 0, m - 2, [p[m]]);
    BackToStart(p, m, m - 2, p[m]);
  }

  lemma RunGoesOn(p: seq<byte>, m: nat)
    requires RunThenMore(p, m)
    ensures Fed(p, m, p[0]) == At(m)
  {
    hide Drain;
    assert [p[0]] + [] == [p[0]];
    DrainMismatch(p, m, p[0], []);
    RunInPattern(p, m, m);
    assert [] + p[1..m] + [p[0]] == p[0..m] + [];
    DrainMatch(p, 0, m, []);
    EmptyDrain(p, m);
  }

  lemma MatchGoesOn(p: seq<byte>, k: nat)
    requires k < |p|
    ensures Fed(p, k, p[k]) == if k + 1 == |p| then Matched([]) else At(k + 1)
  {
    var flow := Flow([p[k]], []);
    assert flow.View() == [p[k]] && flow.Pop(1) == Flow([], []);
    StepOnMatch(flow, Flow([], []), p, k);
    hide Step;
    if k + 1 < |p| {
      EmptyDrain(p, k + 1);
    }
  }

  lemma SeenIs(p: seq<byte>, j: nat, d: byte, i: nat)
    requires j < |p| && i <= j + 1 && EndsWith(p[..j] + [d], p[..i])
    requires forall n :: i < n <= j + 1 ==> !EndsWith(p[..j] + [d], p[..n])
    ensures Seen(p, j, d) == i
  {
    hide EndsWith;
  }

  lemma MatchIsSeen(p: seq<byte>, k: nat)
    requires k < |p|
    ensures Seen(p, k, p[k]) == k + 1
  {
    assert p[..k] + [p[k]] == p[..k + 1];
    SeenIs(p, k, p[k], k + 1);
  }

  /** The byte b, and nothing else, occurs once among bytes a. */
  ghost predicate OnceAmong(p: seq<byte>, m: nat) {
    RunThenMore(p, m) && |p| == m + 2 && p[m + 1] == p[0]
  }

  lemma DiffersAt(s: seq<byte>, t: seq<byte>, i: nat)
    requires i < |t| <= |s| && s[|s| - |t| + i] != t[i]
    ensures !EndsWith(s, t)
  {
    assert s[|s| - |t|..][i] == s[|s| - |t| + i];
  }

  lemma OnlyOther(p: seq<byte>, m: nat, i: nat)
    requires OnceAmong(p, m) && i < |p|
    ensures p[i] == p[0] <==> i != m
  {
  }

  lemma OtherIsNoBorder(p: seq<byte>, m: nat, k: nat, d: byte, n: nat)
    requires OnceAmong(p, m) && 0 < n <= k + 1 <= |p| && d != p[k] && d != p[0]
    ensures !EndsWith(p[..k] + [d], p[..n])
  {
    var s := p[..k] + [d];
    OnlyOther(p, m, n - 1);
    OnlyOther(p, m, k);
    assert m >= 2 && |p| == m + 2;
    hide OnceAmong, EndsWith;
    if p[n - 1] != d {
      DiffersAt(s, p[..n], n - 1);
    } else {
      OnlyOther(p, m, m - 1);
      OnlyOther(p, m, m);
      assert n == m + 1 && k == m + 1;
      DiffersAt(s, p[..n], m - 1);
    }
  }

  lemma OtherIsSeen(p: seq<byte>, m: nat, k: nat, d: byte)
    requires OnceAmong(p, m) && k < |p| && d != p[k] && d != p[0]
    ensures Seen(p, k, d) == 0
  {
    var s := p[..k] + [d];
    forall n | 0 < n <= k + 1
      ensures !EndsWith(s, p[..n])
    {
      OtherIsNoBorder(p, m, k, d, n);
    }
    assert s[|s|..] == p[..0];
    SeenIs(p, k, d, 0);
  }

  lemma RunIsSeen(p: seq<byte>, m: nat)
    requires OnceAmong(p, m)
    ensures Seen(p, m, p[0]) == m
  {
    var s := p[..m] + [p[0]];
    assert s[|s| - m..] == p[..m];
    assert s[|s| - (m + 1)..] == s && s[m] != p[..m + 1][m];
    SeenIs(p, m, p[0], m);
  }

  /** A run, one other byte, and one more of the run: the bytes before the first
      occurrence may come out in the wrong order, but it is found, on all texts. */
  lemma OnceAmongPlacesRight(p: seq<byte>, m: nat)
    requires OnceAmong(p, m)
    ensures forall text :: ToRead(Verdict(Flow([], text), p, 0)) == Wanted(text, p)
  {
    var pairs := set k: nat | k < |p| :: (k, k);
    hide Verdict, Wanted, Fed, Seen;
    forall k: nat, j: nat, d: byte | (k, j) in pairs && k < |p| && j < |p|
      ensures Meets(Fed(p, k, d), Seen(p, j, d), p, pairs)
    {
      if d == p[k] {
        MatchGoesOn(p, k);
        MatchIsSeen(p, k);
      } else if d == p[0] {
        assert k == m;
        RunGoesOn(p, m);
        RunIsSeen(p, m);
      } else {
        OtherIsSeen(p, m, k, d);
        if k <= m {
          BackToStart(p, m, k, d);
        } else {
          BackFromBehind(p, m, d);
        }
      }
    }
    assert (0, 0) in pairs && Closed(p, pairs);
    PlacesRightIff(p);
  }
}
