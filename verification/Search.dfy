// The search for a delimiter: what "first occurrence" means, the machine that
// the code runs (byte by byte over a first-in first-out ring), and when the
// machine finds the first occurrence.
module Search {
  import opened Bytes
  import opened MpStreams

  ghost predicate OccursAt(text: seq<byte>, p: seq<byte>, i: nat) {
    i + |p| <= |text| && text[i..i + |p|] == p
  }

  /** Where p first occurs in text. */
  function Find(text: seq<byte>, p: seq<byte>): (r: Option<nat>)
    ensures r.Some? ==> r.value + |p| <= |text|
  {
    if p <= text then Some(0)
    else if text == [] then None
    else match Find(text[1..], p)
      case None => None
      case Some(k) => Some(k + 1)
  }

  lemma OccursAtShift(text: seq<byte>, p: seq<byte>, i: nat)
    requires text != []
    ensures OccursAt(text[1..], p, i) <==> OccursAt(text, p, i + 1)
  {
  }

  /** Find answers Some(k) exactly when p occurs at k and nowhere before, and
      None exactly when p occurs nowhere. */
  lemma {:induction false} FindIsFirst(text: seq<byte>, p: seq<byte>)
    ensures match Find(text, p)
            case None => forall i: nat :: !OccursAt(text, p, i)
            case Some(k) => OccursAt(text, p, k) && forall i: nat :: i < k ==> !OccursAt(text, p, i)
  {
    assert p <= text <==> OccursAt(text, p, 0);
    if !(p <= text) && text != [] {
      FindIsFirst(text[1..], p);
      forall i: nat
        ensures OccursAt(text[1..], p, i) <==> OccursAt(text, p, i + 1)
      {
        OccursAtShift(text, p, i);
      }
      forall i: nat | OccursAt(text, p, i)
        ensures i > 0 && OccursAt(text[1..], p, i - 1)
      {
        OccursAtShift(text, p, i - 1);
      }
    }
  }

  /** Find is the only answer there is. */
  lemma FindIs(text: seq<byte>, p: seq<byte>, k: nat)
    requires OccursAt(text, p, k) && forall i: nat :: i < k ==> !OccursAt(text, p, i)
    ensures Find(text, p) == Some(k)
  {
    FindIsFirst(text, p);
  }

  /** How a scan ends: whether the pattern was matched, the bytes emitted, what
      remains in the stream, and whether every put-back found the ring empty. */
  datatype Scan = Scan(found: bool, out: seq<byte>, flow: Flow, clean: bool)

  /** The stream after a mismatch: nothing matched was lost, only the first byte
      has been consumed for good. */
  function Resume(next: Flow, p: seq<byte>, k: nat, d: byte): (f: Flow)
    requires k < |p|
    ensures |f.View()| == |next.View()| + k
  {
    if k > 0 then next.Push(p[1..k] + [d]) else next
  }

  /** What one turn of the search loop does: how many bytes are matched now, what
      is emitted, the stream, and whether a put-back found the ring empty. */
  datatype Turn = Turn(k: nat, emits: seq<byte>, flow: Flow, clean: bool)

  /** A mismatch after k matched bytes emits the first of them and puts the
      others, then the byte just read, at the tail of the ring. */
  function Step(flow: Flow, p: seq<byte>, k: nat): (t: Turn)
    requires k < |p| && flow.View() != []
    ensures if t.k == k + 1 then |t.flow.View()| == |flow.View()| - 1 && t.emits == [] && t.clean
            else t.k == 0 && |t.flow.View()| + 1 == |flow.View()| + k
  {
    var d, next := flow.View()[0], flow.Pop(1);
    if d == p[k] then Turn(k + 1, [], next, true)
    else if k > 0 then Turn(0, [p[0]], Resume(next, p, k, d), next.ring == [])
    else Turn(0, [d], next, true)
  }

  function Plus(out: seq<byte>, emits: seq<byte>): (r: seq<byte>)
    ensures r == out + emits
  {
    if emits == [] then
      assert out + emits == out;
      out
    else out + emits
  }

  /** The search loop of afterNextBoundary as a machine. */
  function Machine(flow: Flow, p: seq<byte>, k: nat, out: seq<byte>, clean: bool): (r: Scan)
    requires k < |p|
    ensures !r.found ==> r.flow.View() == []
    decreases |flow.View()| + k, |flow.View()|
  {
    if flow.View() == [] then
      Scan(false, out, flow, clean)
    else
      var t := Step(flow, p, k);
      if t.k == |p| then Scan(true, out, t.flow, clean)
      else Machine(t.flow, p, t.k, Plus(out, t.emits), clean && t.clean)
  }

  /** The discipline so far is carried along, and changes nothing else. */
  lemma {:induction false} CleanIsCarried(flow: Flow, p: seq<byte>, k: nat, out: seq<byte>, clean: bool)
    requires k < |p|
    ensures var r := Machine(flow, p, k, out, true);
            Machine(flow, p, k, out, clean) == r.(clean := clean && r.clean)
    decreases |flow.View()| + k, |flow.View()|
  {
    hide Step;
    if flow.View() != [] {
      var t := Step(flow, p, k);
      if t.k < |p| {
        CleanIsCarried(t.flow, p, t.k, Plus(out, t.emits), clean && t.clean);
        CleanIsCarried(t.flow, p, t.k, Plus(out, t.emits), t.clean);
      }
    }
  }

  // ----- a run whose put-backs all find the ring empty is an exact search

  /** The scan r of `text`, begun with `out` already emitted, ends where the
      first occurrence of p says it should. */
  ghost predicate Located(r: Scan, p: seq<byte>, text: seq<byte>, out: seq<byte>) {
    match Find(text, p)
    case None => !r.found && r.flow.View() == []
    case Some(j) => r.found && r.out == out + text[..j] && r.flow.View() == text[j + |p|..]
  }

  lemma LocatedFromTail(r: Scan, p: seq<byte>, text: seq<byte>, out: seq<byte>)
    requires text != [] && !(p <= text)
    requires Located(r, p, text[1..], out + [text[0]])
    ensures Located(r, p, text, out)
  {
  }

  lemma LocatedAtFront(r: Scan, p: seq<byte>, text: seq<byte>, out: seq<byte>)
    requires r.found && r.out == out && text == p + r.flow.View()
    ensures Located(r, p, text, out)
  {
  }

  lemma LocatedNowhere(r: Scan, p: seq<byte>, k: nat, text: seq<byte>, out: seq<byte>)
    requires k < |p| && text == p[..k] + [] && !r.found && r.flow.View() == []
    ensures Located(r, p, text, out)
  {
  }

  lemma MatchKeepsText(next: Flow, p: seq<byte>, k: nat)
    requires k < |p|
    ensures p[..k] + ([p[k]] + next.View()) == p[..k + 1] + next.View()
    ensures k + 1 == |p| ==> p[..k + 1] == p
  {
  }

  /** After a mismatch the pattern is not at the front of the text, and exactly
      the text without its first byte is to be read. */
  lemma ResumeView(next: Flow, p: seq<byte>, k: nat, d: byte)
    requires k < |p| && d != p[k] && (k > 0 ==> next.ring == [])
    ensures var text := p[..k] + ([d] + next.View());
            && text[0] == (if k > 0 then p[0] else d)
            && !(p <= text)
            && text[1..] == p[..0] + Resume(next, p, k, d).View()
  {
  }

  lemma FlowHead(flow: Flow)
    requires flow.View() != []
    ensures flow.View() == [flow.View()[0]] + flow.Pop(1).View()
  {
  }

  /** What a clean turn means for the text: a byte of the match, or proof that
      the match does not start here. */
  lemma StepText(flow: Flow, p: seq<byte>, k: nat)
    requires k < |p| && flow.View() != [] && Step(flow, p, k).clean
    ensures var t, text := Step(flow, p, k), p[..k] + flow.View();
            if t.k == k + 1 then
              t.emits == [] && text == p[..k + 1] + t.flow.View() && (k + 1 == |p| ==> text == p + t.flow.View())
            else
              t.k == 0 && !(p <= text) && t.emits == [text[0]] && p[..0] + t.flow.View() == text[1..]
  {
    hide Resume;
    var d, next := flow.View()[0], flow.Pop(1);
    FlowHead(flow);
    if d == p[k] {
      MatchKeepsText(next, p, k);
    } else {
      ResumeView(next, p, k, d);
    }
  }

  /** Once a put-back has found the ring in use, the run is never clean again. */
  lemma {:induction false} DirtyStaysDirty(flow: Flow, p: seq<byte>, k: nat, out: seq<byte>)
    requires k < |p|
    ensures !Machine(flow, p, k, out, false).clean
    decreases |flow.View()| + k, |flow.View()|
  {
    hide Step;
    if flow.View() != [] {
      var t := Step(flow, p, k);
      if t.k < |p| {
        DirtyStaysDirty(t.flow, p, t.k, Plus(out, t.emits));
      }
    }
  }

  /** For every pattern: a clean run stops behind the first occurrence, emits the
      bytes before it, and finds nothing only when there is nothing to find. */
  lemma {:induction false} CleanRunsAreExact(flow: Flow, p: seq<byte>, k: nat, out: seq<byte>, clean: bool)
    requires k < |p|
    requires Machine(flow, p, k, out, clean).clean
    ensures clean
    ensures Located(Machine(flow, p, k, out, clean), p, p[..k] + flow.View(), out)
    decreases |flow.View()| + k, |flow.View()|
  {
    if !clean {
      DirtyStaysDirty(flow, p, k, out);
    }
    hide Step, Located;
    var r, text := Machine(flow, p, k, out, clean), p[..k] + flow.View();
    if flow.View() == [] {
      LocatedNowhere(r, p, k, text, out);
    } else {
      var t := Step(flow, p, k);
      if t.k < |p| {
        CleanRunsAreExact(t.flow, p, t.k, Plus(out, t.emits), clean && t.clean);
      }
      StepText(flow, p, k);
      if t.k == |p| {
        LocatedAtFront(r, p, text, out);
      } else if t.k == 0 {
        LocatedFromTail(r, p, text, out);
      }
    }
  }

  // ----- which runs are clean

  /** The run stayed as clean as it was, and a match left the ring empty. */
  ghost predicate Tidy(r: Scan, clean: bool) {
    r.clean == clean && (r.found ==> r.flow.ring == [])
  }

  /** The pattern starts with a byte that it does not contain again. */
  ghost predicate HeadIsUnique(p: seq<byte>) {
    |p| >= 3 && forall i :: 0 < i < |p| ==> p[i] != p[0]
  }

  /** Only the last byte of the ring can be c. */
  ghost predicate Quiet(ring: seq<byte>, c: byte) {
    |ring| <= 1 || (ring[0] != c && Quiet(ring[1..], c))
  }

  lemma {:induction false} QuietIf(s: seq<byte>, d: byte, c: byte)
    requires c !in s
    ensures Quiet(s + [d], c)
  {
    if s != [] {
      assert (s + [d])[1..] == s[1..] + [d];
      QuietIf(s[1..], d, c);
    }
  }

  /** The discipline under which the ring acts as a stack: a partial match of
      two or more bytes leaves it empty, and before any match only its last byte
      (or anything, in a ring of two) can start one. */
  ghost predicate RingOk(ring: seq<byte>, p: seq<byte>, k: nat)
    requires p != []
  {
    if k == 0 then |ring| <= 2 || Quiet(ring, p[0])
    else if k == 1 then |ring| <= 1
    else ring == []
  }

  lemma DisciplineStep(flow: Flow, p: seq<byte>, k: nat)
    requires HeadIsUnique(p) && k < |p| && RingOk(flow.ring, p, k) && flow.View() != []
    ensures var t := Step(flow, p, k);
            t.clean && if t.k < |p| then RingOk(t.flow.ring, p, t.k) else t.flow.ring == []
  {
    var d, next := flow.View()[0], flow.Pop(1);
    if k > 0 && d != p[k] {
      assert next.ring == [];
      QuietIf(p[1..k], d, p[0]);
      assert [] + (p[1..k] + [d]) == p[1..k] + [d];
    }
  }

  /** When the first byte of the pattern does not recur, every run that starts
      with at most two bytes in the ring is clean, and a match leaves the ring
      empty. */
  lemma {:induction false} UniqueHeadRunsClean(flow: Flow, p: seq<byte>, k: nat, out: seq<byte>, clean: bool)
    requires HeadIsUnique(p) && k < |p| && RingOk(flow.ring, p, k)
    ensures Tidy(Machine(flow, p, k, out, clean), clean)
    decreases |flow.View()| + k, |flow.View()|
  {
    hide Step, RingOk;
    if flow.View() != [] {
      var t := Step(flow, p, k);
      DisciplineStep(flow, p, k);
      if t.k < |p| {
        UniqueHeadRunsClean(t.flow, p, t.k, Plus(out, t.emits), clean);
      }
    }
  }

  /** The text has the whole pattern at the first place where the first byte of
      the pattern turns up. */
  ghost predicate OpensCleanly(text: seq<byte>, p: seq<byte>)
    requires p != []
  {
    text == [] || if text[0] == p[0] then p <= text else OpensCleanly(text[1..], p)
  }

  lemma {:induction false} StraightMatch(rest: seq<byte>, p: seq<byte>, k: nat, out: seq<byte>, clean: bool)
    requires k < |p| && p[k..] <= rest
    ensures Machine(Flow([], rest), p, k, out, clean) == Scan(true, out, Flow([], rest[|p| - k..]), clean)
    decreases |p| - k
  {
    assert p[k..][0] == rest[0];
    if k + 1 < |p| {
      assert p[k + 1..] == p[k..][1..];
      StraightMatch(rest[1..], p, k + 1, out, clean);
    }
  }

  /** No preamble, or one without the first byte of the pattern: nothing is ever
      put back. */
  lemma {:induction false} CleanOpeningRunsClean(text: seq<byte>, p: seq<byte>, out: seq<byte>, clean: bool)
    requires p != [] && OpensCleanly(text, p)
    ensures Tidy(Machine(Flow([], text), p, 0, out, clean), clean)
  {
    if text != [] {
      if text[0] == p[0] {
        assert p[0..] == p;
        StraightMatch(text, p, 0, out, clean);
      } else {
        CleanOpeningRunsClean(text[1..], p, out + [text[0]], clean);
      }
    }
  }

  /** A run of one byte with at most one other byte behind it. */
  ghost predicate RunThenOne(p: seq<byte>) {
    |p| >= 2 && forall i :: 0 <= i < |p| - 1 ==> p[i] == p[0]
  }

  /** The discipline for such a pattern: what the ring holds, but for its last
      byte, continues the match. */
  ghost predicate RunRing(ring: seq<byte>, p: seq<byte>, k: nat)
    requires p != []
  {
    (ring == [] || k + |ring| < |p|) && forall i :: 0 <= i < |ring| - 1 ==> ring[i] == p[0]
  }

  lemma RunRingStep(flow: Flow, p: seq<byte>, k: nat)
    requires RunThenOne(p) && k < |p| && RunRing(flow.ring, p, k) && flow.View() != []
    ensures var t := Step(flow, p, k);
            t.clean && if t.k < |p| then RunRing(t.flow.ring, p, t.k) else t.flow.ring == []
  {
  }

  lemma {:induction false} RunThenOneRunsClean(flow: Flow, p: seq<byte>, k: nat, out: seq<byte>, clean: bool)
    requires RunThenOne(p) && k < |p| && RunRing(flow.ring, p, k)
    ensures Tidy(Machine(flow, p, k, out, clean), clean)
    decreases |flow.View()| + k, |flow.View()|
  {
    hide Step, RunRing;
    if flow.View() != [] {
      var t := Step(flow, p, k);
      RunRingStep(flow, p, k);
      if t.k < |p| {
        RunThenOneRunsClean(t.flow, p, t.k, Plus(out, t.emits), clean);
      }
    }
  }

  // ----- what goes wrong in a run that is not clean

  function Repeat(b: byte, n: nat): (r: seq<byte>)
    ensures |r| == n && forall i :: 0 <= i < n ==> r[i] == b
  {
    seq(n, _ => b)
  }

  /** The pattern starts with m equal bytes, then another, then at least one more. */
  ghost predicate RunThenMore(p: seq<byte>, m: nat) {
    2 <= m <= |p| - 2 && (forall i :: 0 <= i < m ==> p[i] == p[0]) && p[m] != p[0]
  }

  lemma StepOnMatch(flow: Flow, next: Flow, p: seq<byte>, k: nat)
    requires flow.View() != [] && k < |p| && flow.View()[0] == p[k] && flow.Pop(1) == next
    ensures Step(flow, p, k) == Turn(k + 1, [], next, true)
  {
  }

  /** A partial match against fresh input consumes it. */
  lemma {:induction false} PartialMatch(p: seq<byte>, k: nat, n: nat, rest: seq<byte>, out: seq<byte>, clean: bool)
    requires k <= n < |p|
    ensures Machine(Flow([], p[k..n] + rest), p, k, out, clean) == Machine(Flow([], rest), p, n, out, clean)
    decreases n - k
  {
    hide Step;
    if k < n {
      var flow := Flow([], p[k..n] + rest);
      StepOnMatch(flow, Flow([], p[k + 1..n] + rest), p, k);
      PartialMatch(p, k + 1, n, rest, out, clean);
    } else {
      assert p[k..n] + rest == rest;
    }
  }

  /** So does one against the ring. */
  lemma {:induction false} RingMatch(p: seq<byte>, k: nat, n: nat, tail: seq<byte>, rest: seq<byte>,
                                     out: seq<byte>, clean: bool)
    requires k <= n < |p|
    ensures Machine(Flow(p[k..n] + tail, rest), p, k, out, clean) == Machine(Flow(tail, rest), p, n, out, clean)
    decreases n - k
  {
    hide Step;
    if k < n {
      var flow := Flow(p[k..n] + tail, rest);
      assert p[k..n] + tail == [p[k]] + (p[k + 1..n] + tail);
      StepOnMatch(flow, Flow(p[k + 1..n] + tail, rest), p, k);
      RingMatch(p, k + 1, n, tail, rest, out, clean);
    } else {
      assert p[k..n] + tail == tail;
    }
  }

  lemma RunInPattern(p: seq<byte>, m: nat, n: nat)
    requires RunThenMore(p, m) && n <= m
    ensures p[0..n] == Repeat(p[0], n)
    ensures n > 0 ==> p[1..n] == Repeat(p[0], n - 1)
  {
  }

  lemma MismatchStep(flow: Flow, next: Flow, d: byte, p: seq<byte>, k: nat, out: seq<byte>, clean: bool)
    requires flow.View() != [] && flow.View()[0] == d && flow.Pop(1) == next
    requires 0 < k < |p| && d != p[k]
    ensures Machine(flow, p, k, out, clean) ==
            Machine(Flow(next.ring + p[1..k] + [d], next.rest), p, 0, out + [p[0]], clean && next.ring == [])
  {
    assert next.ring + (p[1..k] + [d]) == next.ring + p[1..k] + [d];
  }

  lemma FirstPutBack(p: seq<byte>, m: nat, d: byte, rest: seq<byte>)
    requires RunThenMore(p, m) && d != p[m + 1]
    ensures Machine(Flow([], p[0..m + 1] + ([d] + rest)), p, 0, [], true) ==
            Machine(Flow(Repeat(p[0], m - 1) + [p[m], d], rest), p, 0, [p[0]], true)
  {
    hide Machine;
    PartialMatch(p, 0, m + 1, [d] + rest, [], true);
    RunInPattern(p, m, m);
    assert [] + p[1..m + 1] + [d] == p[1..m] + [p[m], d];
    assert [] + [p[0]] == [p[0]];
    MismatchStep(Flow([], [d] + rest), Flow([], rest), d, p, m + 1, [], true);
  }

  lemma SecondPutBack(p: seq<byte>, m: nat, d: byte, rest: seq<byte>, out: seq<byte>)
    requires RunThenMore(p, m)
    ensures Machine(Flow(Repeat(p[0], m - 1) + [p[m], d], rest), p, 0, out, true) ==
            Machine(Flow([d] + Repeat(p[0], m - 2) + [p[m]], rest), p, 0, out + [p[0]], false)
  {
    hide Machine;
    RunInPattern(p, m, m - 1);
    RingMatch(p, 0, m - 1, [p[m], d], rest, out, true);
    MismatchStep(Flow([p[m], d], rest), Flow([d], rest), p[m], p, m - 1, out, true);
  }

  /** Behind p[..m + 1], a byte d that does not continue the match is put back
      behind the run and p[m], and then overtakes both. */
  lemma OvertakenByte(p: seq<byte>, m: nat, d: byte, rest: seq<byte>)
    requires RunThenMore(p, m) && d != p[m + 1]
    ensures Machine(Flow([], p[..m + 1] + [d] + rest), p, 0, [], true) ==
            Machine(Flow([d] + Repeat(p[0], m - 2) + [p[m]], rest), p, 0, [p[0], p[0]], false)
  {
    hide Machine;
    assert p[..m + 1] + [d] + rest == p[0..m + 1] + ([d] + rest);
    FirstPutBack(p, m, d, rest);
    SecondPutBack(p, m, d, rest, [p[0]]);
    assert [p[0]] + [p[0]] == [p[0], p[0]];
  }

  /** Fewer bytes than the pattern still needs. */
  lemma {:induction false} TooShortToMatch(flow: Flow, p: seq<byte>, k: nat, out: seq<byte>, clean: bool)
    requires k < |p| && k + |flow.View()| < |p|
    ensures !Machine(flow, p, k, out, clean).found
    decreases |flow.View()| + k, |flow.View()|
  {
    hide Step;
    if flow.View() != [] {
      var t := Step(flow, p, k);
      if t.k < |p| {
        TooShortToMatch(t.flow, p, t.k, Plus(out, t.emits), clean && t.clean);
      }
    }
  }

  /** A shorter run and the byte that should follow the full run, both in the
      ring: they are consumed without a match. */
  lemma {:induction false} ShortRunIsLost(n: nat, rest: seq<byte>, p: seq<byte>, m: nat, out: seq<byte>, clean: bool)
    requires RunThenMore(p, m) && n < m && |rest| < |p|
    ensures !Machine(Flow(Repeat(p[0], n) + [p[m]], rest), p, 0, out, clean).found
    decreases n
  {
    if n == 0 {
      var flow := Flow(Repeat(p[0], 0) + [p[m]], rest);
      assert flow.ring == [p[m]] && flow.View()[0] == p[m];
      assert flow.Pop(1) == Flow([], rest);
      TooShortToMatch(Flow([], rest), p, 0, out + [p[m]], clean);
    } else {
      RunInPattern(p, m, n);
      RingMatch(p, 0, n, [p[m]], rest, out, clean);
      MismatchStep(Flow([p[m]], rest), Flow([], rest), p[m], p, n, out, clean);
      assert [] + p[1..n] + [p[m]] == Repeat(p[0], n - 1) + [p[m]];
      ShortRunIsLost(n - 1, rest, p, m, out + [p[0]], clean);
    }
  }

  /** What an unclean run can cost: a miss. When the byte after p[m] does not belong
      to the run either, the pattern is not found behind the preamble p[..m + 1],
      where it plainly stands. */
  lemma DirtyRunMissesPattern(p: seq<byte>, m: nat)
    requires RunThenMore(p, m) && p[m + 1] != p[0]
    ensures var text := p[..m + 1] + p;
            OccursAt(text, p, m + 1) && !Machine(Flow([], text), p, 0, [], true).found
  {
    hide Machine;
    assert p[..m + 1] + p == p[..m + 1] + [p[0]] + p[1..];
    OvertakenByte(p, m, p[0], p[1..]);
    assert [p[0]] + Repeat(p[0], m - 2) == Repeat(p[0], m - 1);
    ShortRunIsLost(m - 1, p[1..], p, m, [p[0], p[0]], false);
  }

  /** Or a match that is not there. When one more byte of the run follows p[m], and
      then another byte, a run of three such bytes behind p[..m + 1] is rotated in
      front of p[m], and the pattern is found in a text that does not contain it. */
  lemma DirtyRunFindsAbsentPattern(p: seq<byte>, m: nat)
    requires RunThenMore(p, m) && |p| >= m + 3 && p[m + 1] == p[0] && p[m + 2] != p[0]
    ensures var text := p[..m + 2] + [p[0]] + p[m + 1..];
            Find(text, p).None?
            && Machine(Flow([], text), p, 0, [], true) == Scan(true, [p[0], p[0]], Flow([], []), false)
  {
    hide Machine, Find;
    var rest := p[m + 1..];
    var text := p[..m + 2] + [p[0]] + rest;
    assert text == p[0..m + 2] + ([p[0]] + rest);
    PartialMatch(p, 0, m + 2, [p[0]] + rest, [], true);
    RunInPattern(p, m, m);
    assert [] + p[1..m + 2] + [p[0]] == Repeat(p[0], m - 1) + [p[m], p[0], p[0]];
    assert [] + [p[0]] == [p[0]];
    MismatchStep(Flow([], [p[0]] + rest), Flow([], rest), p[0], p, m + 2, [], true);
    RunInPattern(p, m, m - 1);
    RingMatch(p, 0, m - 1, [p[m], p[0], p[0]], rest, [p[0]], true);
    MismatchStep(Flow([p[m], p[0], p[0]], rest), Flow([p[0], p[0]], rest), p[m], p, m - 1, [p[0]], true);
    assert [p[0], p[0]] + p[1..m - 1] + [p[m]] == p[0..m + 1] + [];
    assert [p[0]] + [p[0]] == [p[0], p[0]];
    RingMatch(p, 0, m + 1, [], rest, [p[0], p[0]], false);
    StraightMatch(rest, p, m + 1, [p[0], p[0]], false);
    assert rest[|p| - (m + 1)..] == [];
    NotInRotatedText(p, m);
  }

  lemma NotInRotatedText(p: seq<byte>, m: nat)
    requires RunThenMore(p, m) && |p| >= m + 3 && p[m + 1] == p[0] && p[m + 2] != p[0]
    ensures Find(p[..m + 2] + [p[0]] + p[m + 1..], p).None?
  {
    var text := p[..m + 2] + [p[0]] + p[m + 1..];
    FindIsFirst(text, p);
  }

  lemma {:induction false} OutOnlyGrows(flow: Flow, p: seq<byte>, k: nat, out: seq<byte>, clean: bool)
    requires k < |p|
    ensures out <= Machine(flow, p, k, out, clean).out
    decreases |flow.View()| + k, |flow.View()|
  {
    hide Step;
    if flow.View() != [] {
      var t := Step(flow, p, k);
      if t.k < |p| {
        OutOnlyGrows(t.flow, p, t.k, Plus(out, t.emits), clean && t.clean);
      }
    }
  }

  function Another(a: byte, b: byte, c: byte): (d: byte)
    ensures d != a && d != b && d != c
  {
    if 0 != a && 0 != b && 0 != c then 0
    else if 1 != a && 1 != b && 1 != c then 1
    else if 2 != a && 2 != b && 2 != c then 2
    else 3
  }

  /** A byte that occurs nowhere near the run is emitted ahead of it. */
  lemma OutOfOrder(p: seq<byte>, m: nat, d: byte)
    requires RunThenMore(p, m) && d != p[0] && d != p[m] && d != p[m + 1]
    ensures !Located(Machine(Flow([], p[..m + 1] + [d] + p), p, 0, [], true), p, p[..m + 1] + [d] + p, [])
  {
    var text := p[..m + 1] + [d] + p;
    var ring := Repeat(p[0], m - 2) + [p[m]];
    var r := Machine(Flow([], text), p, 0, [], true);
    assert OccursAt(text, p, m + 2);
    FindIsFirst(text, p);
    OvertakenByte(p, m, d, p);
    EmitsHead(Flow([d] + Repeat(p[0], m - 2) + [p[m]], p), p, [p[0], p[0]], false);
    assert r.out[..3][2] == d;
    assert text[2] != d;
  }

  lemma EmitsHead(flow: Flow, p: seq<byte>, out: seq<byte>, clean: bool)
    requires p != [] && flow.View() != [] && flow.View()[0] != p[0]
    ensures out + [flow.View()[0]] <= Machine(flow, p, 0, out, clean).out
  {
    var t := Step(flow, p, 0);
    OutOnlyGrows(t.flow, p, 0, out + [flow.View()[0]], clean);
  }

  lemma RunLength(p: seq<byte>) returns (m: nat)
    requires |p| >= 2 && p[1] == p[0] && !RunThenOne(p)
    ensures RunThenMore(p, m)
  {
    m := 2;
    while p[m] == p[0]
      invariant 2 <= m <= |p| - 2 && forall i :: 0 <= i < m ==> p[i] == p[0]
      decreases |p| - m
    {
      m := m + 1;
    }
  }

  /** For a pattern that repeats its first byte, as every opening boundary does:
      the search is exact on all texts (found, emitted and left over) if and only
      if at most one byte follows that run. Then, too, all of its runs are clean. */
  lemma AllSearchesExactIff(p: seq<byte>)
    requires |p| >= 2 && p[1] == p[0]
    ensures (forall text :: Located(Machine(Flow([], text), p, 0, [], true), p, text, [])) <==> RunThenOne(p)
  {
    hide Machine, Located, Tidy;
    if RunThenOne(p) {
      forall text
        ensures Located(Machine(Flow([], text), p, 0, [], true), p, text, [])
      {
        RunThenOneRunsClean(Flow([], text), p, 0, [], true);
        TidyIsExact(text, p);
      }
    } else {
      var m := RunLength(p);
      OutOfOrder(p, m, Another(p[0], p[m], p[m + 1]));
    }
  }

  lemma TidyIsExact(text: seq<byte>, p: seq<byte>)
    requires p != [] && Tidy(Machine(Flow([], text), p, 0, [], true), true)
    ensures Located(Machine(Flow([], text), p, 0, [], true), p, text, [])
  {
    hide Machine, Located;
    CleanRunsAreExact(Flow([], text), p, 0, [], true);
    assert p[..0] + Flow([], text).View() == text;
  }

  /** The same for the discipline: all runs are clean exactly for those patterns. */
  lemma AllRunsCleanIff(p: seq<byte>)
    requires |p| >= 2 && p[1] == p[0]
    ensures (forall text :: Machine(Flow([], text), p, 0, [], true).clean) <==> RunThenOne(p)
  {
    hide Machine;
    if RunThenOne(p) {
      forall text
        ensures Machine(Flow([], text), p, 0, [], true).clean
      {
        RunThenOneRunsClean(Flow([], text), p, 0, [], true);
      }
    } else {
      var m := RunLength(p);
      var d := if p[m + 1] == 0 then 1 else 0;
      OvertakenByte(p, m, d, []);
      DirtyStaysDirty(Flow([d] + Repeat(p[0], m - 2) + [p[m]], []), p, 0, [p[0], p[0]]);
    }
  }
}
