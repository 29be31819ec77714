// The virtual datastream of the multipart parser: the request body behind a
// ring buffer into which bytes can be put back.
module MpStreams {
  import opened Bytes

  const RING_SIZE: nat := 1024
  const EOF: int := -1

  /** The stream as a value: what sits in the ring, and what is still to be
      fetched from the request body. The ring is first-in first-out, so bytes
      that are put back come out after those already there. */
  datatype Flow = Flow(ring: seq<byte>, rest: seq<byte>) {

    /** The bytes in the order in which they will be read. */
    function View(): seq<byte> {
      ring + rest
    }

    function Pop(n: nat): (f: Flow)
      requires n <= |View()|
      ensures f.View() == View()[n..]
    {
      if n <= |ring| then Flow(ring[n..], rest) else Flow([], rest[n - |ring|..])
    }

    function Push(data: seq<byte>): (f: Flow)
      ensures ring == [] ==> f.View() == data + View()
    {
      Flow(ring + data, rest)
    }
  }

  // ----- any interleaving of reads and put-backs

  /** A read of n bytes, or the last n bytes delivered are put back. */
  datatype Use = Take(n: nat) | Return(n: nat)

  /** The bytes delivered and not put back, and the stream. */
  datatype Reading = Reading(delivered: seq<byte>, flow: Flow)

  predicate Legal(r: Reading, u: Use) {
    match u
    case Take(n) => true
    case Return(n) => n <= |r.delivered|
  }

  function Used(r: Reading, u: Use): Reading
    requires Legal(r, u)
  {
    match u
    case Take(n) =>
      var k := Min(n, |r.flow.View()|);
      Reading(r.delivered + r.flow.View()[..k], r.flow.Pop(k))
    case Return(n) =>
      var k := |r.delivered| - n;
      Reading(r.delivered[..k], r.flow.Push(r.delivered[k..]))
  }

  /** What has been delivered, followed by what will be, is the content, in order. */
  ghost predicate Conserves(r: Reading, content: seq<byte>) {
    r.delivered + r.flow.View() == content
  }

  /** Reads keep the content. A put-back does exactly when the ring holds nothing,
      or just what turns into itself when the bytes go behind it. */
  lemma UseConservesIff(r: Reading, u: Use, content: seq<byte>)
    requires Conserves(r, content) && Legal(r, u)
    ensures Conserves(Used(r, u), content) <==>
            u.Take? || var back := r.delivered[|r.delivered| - u.n..]; back + r.flow.ring == r.flow.ring + back
  {
    var v := r.flow.View();
    match u {
      case Take(n) =>
        var k := Min(n, |v|);
        assert v == v[..k] + v[k..];
      case Return(n) =>
        var k := |r.delivered| - n;
        var kept, back, ring, rest := r.delivered[..k], r.delivered[k..], r.flow.ring, r.flow.rest;
        assert r.delivered == kept + back;
        assert content == kept + (back + ring) + rest;
        assert kept + ((ring + back) + rest) == kept + (ring + back) + rest;
        MiddleOf(kept, back + ring, ring + back, rest);
    }
  }

  lemma MiddleOf(a: seq<byte>, b: seq<byte>, c: seq<byte>, d: seq<byte>)
    requires |b| == |c|
    ensures a + b + d == a + c + d <==> b == c
  {
    assert (a + b + d)[|a|..|a| + |b|] == b;
    assert (a + c + d)[|a|..|a| + |c|] == c;
  }

  ghost predicate Disciplined(r: Reading, uses: seq<Use>)
    decreases uses
  {
    uses == [] ||
    (Legal(r, uses[0]) && (uses[0].Return? ==> r.flow.ring == []) && Disciplined(Used(r, uses[0]), uses[1..]))
  }

  function AfterUses(r: Reading, uses: seq<Use>): Reading
    requires Disciplined(r, uses)
    decreases uses
  {
    if uses == [] then r else AfterUses(Used(r, uses[0]), uses[1..])
  }

  /** So does any number of them, as long as put-backs find the ring empty. */
  lemma {:induction false} UsesConserve(r: Reading, uses: seq<Use>, content: seq<byte>)
    requires Conserves(r, content) && Disciplined(r, uses)
    ensures Conserves(AfterUses(r, uses), content)
    decreases uses
  {
    hide Conserves;
    if uses != [] {
      EmptyCommutes(r, uses[0]);
      UseConservesIff(r, uses[0], content);
      UsesConserve(Used(r, uses[0]), uses[1..], content);
    }
  }

  lemma EmptyCommutes(r: Reading, u: Use)
    requires Legal(r, u) && (u.Return? ==> r.flow.ring == [])
    ensures u.Take? || var back := r.delivered[|r.delivered| - u.n..]; back + r.flow.ring == r.flow.ring + back
  {
  }

  lemma PopOne(flow: Flow)
    requires flow.View() != []
    ensures flow.View() == [flow.View()[0]] + flow.Pop(1).View()
    ensures |flow.Pop(1).ring| == if flow.ring == [] then 0 else |flow.ring| - 1
  {
  }

  lemma PopNone(flow: Flow)
    requires flow.View() == []
    ensures flow.ring == [] && flow.Pop(0) == flow
  {
  }

  /** A read that the ring can serve, and one that empties it and goes on. */
  lemma ReadSplits(start: Flow, data: seq<byte>, more: seq<byte>)
    requires data <= start.ring && more <= start.rest && (more == [] || data == start.ring)
    ensures data + more == start.View()[..|data| + |more|]
    ensures start.Pop(|data| + |more|) == Flow(start.ring[|data|..], start.rest[|more|..])
  {
  }

  function Min(a: int, b: int): int {
    if a <= b then a else b
  }

  function Max(a: int, b: int): int {
    if a >= b then a else b
  }

  /** A put-back: how many bytes the ring held before it, those of the same episode
      not counted, and how many after. */
  datatype Episode = Episode(before: nat, after: nat)

  /** Every put-back found the ring empty, or not; and none filled it beyond `peak`. */
  ghost predicate Recorded(episodes: seq<Episode>, pushFront: bool, peak: nat) {
    && (pushFront <==> forall i :: 0 <= i < |episodes| ==> episodes[i].before == 0)
    && forall i :: 0 <= i < |episodes| ==> episodes[i].after <= peak
  }

  lemma RecordOne(episodes: seq<Episode>, pushFront: bool, peak: nat, e: Episode)
    requires Recorded(episodes, pushFront, peak)
    ensures Recorded(episodes + [e], pushFront && e.before == 0, Max(peak, e.after))
  {
    var more := episodes + [e];
    assert more[|episodes|] == e;
    assert forall i :: 0 <= i < |episodes| ==> more[i] == episodes[i];
  }

  class MpStream {
    const putback: array<byte>
    var readPos: nat
    var writePos: nat
    var offset: int
    /** The bytes behind cgiIn, the declared content length, and how many bytes
        the C library has handed over so far. */
    const input: seq<byte>
    const contentLength: nat
    var fetched: nat
    /** The put-backs so far; whether each of them found the ring empty; and the
        most that the ring ever held. */
    ghost var episodes: seq<Episode>
    ghost var pushFront: bool
    ghost var peak: nat

    /** What the ring holds, next byte first. */
    ghost var ring: seq<byte>

    ghost predicate RingShape()
      reads this, putback
    {
      putback.Length == RING_SIZE && readPos < RING_SIZE && writePos < RING_SIZE && |ring| < RING_SIZE &&
      (ring == [] <==> readPos == writePos) &&
      ring == if readPos <= writePos then putback[readPos..writePos] else putback[readPos..] + putback[..writePos]
    }

    function Limit(): nat {
      Min(|input|, contentLength)
    }

    /** The offset counts the bytes fetched less those waiting in the ring. */
    ghost predicate Valid()
      reads this, putback
    {
      RingShape() && fetched <= Limit() && 0 <= offset == fetched - |ring|
      && |ring| <= peak && Recorded(episodes, pushFront, peak)
    }

    ghost function State(): (f: Flow)
      requires Valid()
      reads this, putback
      ensures |f.View()| <= contentLength - offset
    {
      Flow(ring, input[fetched..Limit()])
    }

    ghost function View(): seq<byte>
      requires Valid()
      reads this, putback
    {
      State().View()
    }

    constructor (input: seq<byte>, contentLength: nat)
      ensures Valid() && fresh(putback)
      ensures this.input == input && this.contentLength == contentLength
      ensures State() == Flow([], input[..Limit()]) && offset == 0
      ensures episodes == [] && pushFront && peak == 0
    {
      this.input := input;
      this.contentLength := contentLength;
      putback := new byte[RING_SIZE](_ => 0);
      readPos, writePos, offset, fetched := 0, 0, 0, 0;
      ring, episodes, pushFront, peak := [], [], true, 0;
    }

    /** One iteration of the loop that drains the ring. */
    method TakeFromRing() returns (b: byte)
      requires RingShape() && readPos != writePos
      modifies this`readPos, this`ring
      ensures RingShape() && old(ring) == [b] + ring
    {
      b := putback[readPos];
      if readPos > writePos {
        assert putback[readPos..] == [b] + putback[readPos + 1..];
      }
      readPos := if readPos + 1 == RING_SIZE then 0 else readPos + 1;
      ring := ring[1..];
    }

    /** One iteration of the loop that fills the ring. */
    method AddToRing(b: byte)
      requires RingShape() && |ring| + 1 < RING_SIZE
      modifies this`writePos, this`ring, putback
      ensures RingShape() && ring == old(ring) + [b]
    {
      putback[writePos] := b;
      writePos := if writePos + 1 == RING_SIZE then 0 else writePos + 1;
      ring := ring + [b];
    }

    /** The loop that takes bytes from the ring until `want` are there or the
        ring is empty. */
    method DrainRing(want: nat) returns (data: seq<byte>)
      requires RingShape()
      modifies this`readPos, this`ring
      ensures RingShape() && old(ring) == data + ring
      ensures |data| == Min(want, |old(ring)|)
    {
      data := [];
      while |data| < want && readPos != writePos
        invariant RingShape() && |data| <= want && |data| <= |old(ring)|
        invariant data == old(ring)[..|data|] && ring == old(ring)[|data|..]
      {
        var b := TakeFromRing();
        data := data + [b];
      }
    }

    /** fread on the request body. */
    method Fetch(want: nat) returns (data: seq<byte>)
      requires fetched + want <= contentLength && fetched <= |input|
      modifies this`fetched
      ensures old(fetched) <= fetched <= Limit() && fetched == old(fetched) + |data|
      ensures |data| == Min(want, |input| - old(fetched))
      ensures data == input[old(fetched)..fetched]
    {
      var got := Min(want, |input| - fetched);
      data := input[fetched..fetched + got];
      fetched := fetched + got;
    }

    /** Takes from the ring, then fetches. The offset is left to the caller. */
    method Gather(want: nat) returns (data: seq<byte>)
      requires Valid() && want <= contentLength - offset
      modifies this`readPos, this`ring, this`fetched
      ensures RingShape() && fetched <= Limit() && fetched - |ring| == offset + |data|
      ensures |data| == Min(want, |old(View())|) && data == old(View())[..|data|]
      ensures Flow(ring, input[fetched..Limit()]) == old(State()).Pop(|data|)
    {
      ghost var start := State();
      data := DrainRing(want);
      var more := [];
      if |data| < want {
        more := Fetch(want - |data|);
      }
      ReadSplits(start, data, more);
      data := data + more;
    }

    /** Reads up to `len` bytes, ring first, and never past the declared length.
        Short reads happen exactly at the end of the view. */
    method Read(len: nat) returns (got: int, data: seq<byte>)
      requires Valid()
      modifies this`readPos, this`ring, this`offset, this`fetched
      ensures Valid()
      ensures |data| == Min(len, |old(View())|) && data == old(View())[..|data|]
      ensures State() == old(State()).Pop(|data|)
      ensures offset == old(offset) + |data|
      ensures got == if len > 0 && old(offset) == contentLength then EOF else |data|
    {
      var want := if len > contentLength - offset then contentLength - offset else len;
      data := Gather(want);
      got := |data|;
      offset := offset + got;
      if want == 0 && len > 0 {
        got := EOF;
      }
    }

    /** The loop that adds bytes to the ring. */
    method FillRing(data: seq<byte>)
      requires RingShape() && |ring| + |data| < RING_SIZE
      modifies this`writePos, this`ring, putback
      ensures RingShape() && ring == old(ring) + data
    {
      var i := 0;
      while i < |data|
        invariant 0 <= i <= |data| && RingShape()
        invariant ring == old(ring) + data[..i]
      {
        AddToRing(data[i]);
        i := i + 1;
      }
      assert data[..i] == data;
    }

    ghost method Note(e: Episode)
      requires Recorded(episodes, pushFront, peak)
      modifies this`episodes, this`pushFront, this`peak
      ensures Recorded(episodes, pushFront, peak)
      ensures episodes == old(episodes) + [e] && pushFront == (old(pushFront) && e.before == 0)
      ensures peak == Max(old(peak), e.after)
    {
      RecordOne(episodes, pushFront, peak, e);
      episodes, pushFront, peak := episodes + [e], pushFront && e.before == 0, Max(peak, e.after);
    }

    /** Puts bytes back at the tail of the ring. Callers must leave room, and
        may only put back as many bytes as they have read. The bytes are the
        next to be read exactly when the ring was empty, apart from `behind`
        bytes of the same episode. */
    method PutBack(data: seq<byte>, ghost behind: nat := 0)
      requires Valid() && |ring| + |data| < RING_SIZE && |data| <= offset && behind <= |ring|
      modifies this`offset, this`writePos, this`ring, this`episodes, this`pushFront, this`peak, putback
      ensures Valid() && State() == old(State()).Push(data)
      ensures offset == old(offset) - |data|
      ensures episodes == old(episodes) + [Episode(|old(ring)| - behind, |old(ring)| + |data|)]
      ensures pushFront == (old(pushFront) && |old(ring)| == behind)
      ensures peak == Max(old(peak), |old(ring)| + |data|)
    {
      hide Recorded;
      offset := offset - |data|;
      Note(Episode(|ring| - behind, |ring| + |data|));
      FillRing(data);
    }

    /** mpRead for one byte. */
    method ReadByte() returns (ok: bool, d: byte)
      requires Valid()
      modifies this`readPos, this`ring, this`offset, this`fetched
      ensures Valid() && (ok <==> old(State()).View() != [])
      ensures ok ==> d == old(State()).View()[0] && State() == old(State()).Pop(1) && offset == old(offset) + 1
      ensures ok ==> |ring| == if old(ring) == [] then 0 else |old(ring)| - 1
      ensures !ok ==> State() == old(State()) && offset == old(offset)
    {
      hide Flow.Pop, Recorded;
      ghost var start := State();
      if start.View() != [] {
        PopOne(start);
      } else {
        PopNone(start);
      }
      var got, data := Read(1);
      ok := got == 1;
      d := if ok then data[0] else NUL;
    }

    /** mpPutBack for one byte. */
    method PutBackByte(d: byte)
      requires Valid() && |ring| + 1 < RING_SIZE && offset > 0
      modifies this`offset, this`writePos, this`ring, this`episodes, this`pushFront, this`peak, putback
      ensures Valid() && State() == old(State()).Push([d]) && offset == old(offset) - 1
      ensures pushFront == (old(pushFront) && old(ring) == [])
      ensures peak == Max(old(peak), |old(ring)| + 1)
    {
      PutBack([d]);
    }
  }
}
