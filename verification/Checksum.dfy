// The Internet checksum (sections 1 and 2 of RFC 1071): the two implementations,
// the incremental update of an outgoing probe, and what they compute.
module Checksums {
  import opened Bytes

  const INT_MAX: int := 0x7FFF_FFFF

  // ----- one's complement sums

  /** The canonical one's complement value of a sum of 16-bit words: zero only if
      the sum is zero, otherwise the residue modulo 65535 from 1 to 65535. */
  function Ones(sum: nat): (r: nat)
    ensures r < 0x1_0000
  {
    if sum == 0 then 0 else (sum - 1) % 0xFFFF + 1
  }

  /** It is the one representative there is: zero stands for zero only. */
  lemma OnesIs(sum: nat, r: nat)
    ensures r == Ones(sum) <==> r <= 0xFFFF && r % 0xFFFF == sum % 0xFFFF && (r == 0 <==> sum == 0)
  {
    if sum > 0 {
      var q := (sum - 1) / 0xFFFF;
      assert sum == 0xFFFF * q + Ones(sum);
      Residue(q, Ones(sum));
    }
  }

  lemma Residue(q: nat, n: nat)
    ensures (0xFFFF * q + n) % 0xFFFF == n % 0xFFFF
  {
  }

  /** The two folds of a 32-bit sum, and the truncation to 16 bits. */
  function Folded(sum: nat): (r: nat)
    ensures r < 0x1_0000
  {
    var once := sum / 0x1_0000 + sum % 0x1_0000;
    (once + once / 0x1_0000) % 0x1_0000
  }

  lemma OnesOfSmall(n: nat)
    requires n <= 2 * 0xFFFF
    ensures Ones(n) == if n <= 0xFFFF then n else n - 0xFFFF
  {
  }

  lemma FoldOfSmall(once: nat)
    requires once <= 2 * 0xFFFF
    ensures (once + once / 0x1_0000) % 0x1_0000 == if once <= 0xFFFF then once else once - 0xFFFF
  {
  }

  /** Two folds are enough for any sum that fits an int. */
  lemma TwoFoldsSuffice(sum: nat)
    requires sum <= INT_MAX
    ensures Folded(sum) == Ones(sum)
  {
    hide Ones;
    var hi, lo := sum / 0x1_0000, sum % 0x1_0000;
    var once := hi + lo;
    assert sum == 0xFFFF * hi + once && hi <= 0x7FFF;
    FoldOfSmall(once);
    OnesOfSmall(once);
    if once > 0 {
      OnesOfMultiple(once, hi);
    }
  }

  lemma OnesOfMultiple(n: nat, k: nat)
    requires n > 0
    ensures Ones(0xFFFF * k + n) == Ones(n)
    decreases k
  {
    if k > 0 {
      OnesOfMultiple(n, k - 1);
      assert (0xFFFF * (k - 1) + n - 1 + 0xFFFF) % 0xFFFF == (0xFFFF * (k - 1) + n - 1) % 0xFFFF;
    }
  }

  /** Sums can be reduced before they are added to. */
  lemma OnesPlus(a: nat, b: nat)
    ensures Ones(Ones(a) + b) == Ones(a + b)
  {
    if a > 0 {
      var k := (a - 1) / 0xFFFF;
      assert a == 0xFFFF * k + Ones(a);
      OnesOfMultiple(Ones(a) + b, k);
    }
  }

  function Complement(word: nat): (r: nat)
    requires word < 0x1_0000
    ensures r < 0x1_0000
  {
    0xFFFF - word
  }

  /** Adding the complement of a sum to it makes all bits ones. */
  lemma ComplementCompletes(sum: nat)
    ensures Ones(sum + Complement(Ones(sum))) == 0xFFFF
  {
  }

  // ----- sums over memory

  /** The sum of the 16-bit words of a little-endian machine; a last odd byte
      counts as a word with a zero behind it. */
  function Sum(b: seq<byte>): (s: nat)
    ensures s <= 0xFFFF * ((|b| + 1) / 2)
  {
    if |b| == 0 then 0
    else if |b| == 1 then b[0]
    else
      var low: int, high: int := b[0], b[1];
      low + 256 * high + Sum(b[2..])
  }

  lemma SumOfWord(b: seq<byte>, from: nat, end: nat)
    requires from + 2 <= end <= |b|
    ensures var low: int, high: int := b[from], b[from + 1];
            Sum(b[from..end]) == low + 256 * high + Sum(b[from + 2..end])
  {
  }

  lemma {:induction false} SumOfParts(a: seq<byte>, b: seq<byte>)
    requires |a| % 2 == 0
    ensures Sum(a + b) == Sum(a) + Sum(b)
  {
    if a == [] {
      assert a + b == b;
    } else {
      assert (a + b)[2..] == a[2..] + b;
      SumOfParts(a[2..], b);
    }
  }

  /** What in_cksum computes. */
  function Checksum(b: seq<byte>, seed: nat): (r: nat)
    ensures r < 0x1_0000
  {
    Complement(Ones(seed + Sum(b)))
  }

  /** Checksumming the second part of a packet, seeded with the complement of the
      checksum of the first, is checksumming the packet. */
  lemma ChecksumInParts(a: seq<byte>, b: seq<byte>)
    requires |a| % 2 == 0
    ensures Checksum(b, Complement(Checksum(a, 0))) == Checksum(a + b, 0)
  {
    SumOfParts(a, b);
    OnesPlus(Sum(a), Sum(b));
  }

  function Zeros(n: nat): (r: seq<byte>)
    ensures |r| == n
  {
    seq(n, _ => 0)
  }

  lemma {:induction false} SumOfZeros(n: nat)
    ensures Sum(Zeros(n)) == 0
  {
    if n >= 2 {
      assert Zeros(n)[2..] == Zeros(n - 2);
      SumOfZeros(n - 2);
    }
  }

  /** The incremental update: the area was zero when the packet was summed; then
      bytes were stored there, and only they were summed, with the complement of
      the checksum as the seed. */
  lemma PatchedChecksum(head: seq<byte>, area: seq<byte>, tail: seq<byte>)
    requires |head| % 2 == 0 && |area| % 2 == 0
    ensures Checksum(area, Complement(Checksum(head + Zeros(|area|) + tail, 0))) == Checksum(head + area + tail, 0)
  {
    var zeros := Zeros(|area|);
    SumOfParts(head + zeros, tail);
    SumOfParts(head, zeros);
    SumOfParts(head + area, tail);
    SumOfParts(head, area);
    SumOfZeros(|area|);
    OnesPlus(Sum(head) + Sum(tail), Sum(area));
  }

  function WordBytes(word: nat): (r: seq<byte>)
    requires word < 0x1_0000
    ensures |r| == 2
  {
    [word % 256, word / 256]
  }

  function Word(low: int, high: int): int {
    low + 256 * high
  }

  /** The same in network order. */
  function NetworkBytes(word: nat): (r: seq<byte>)
    requires word < 0x1_0000
    ensures |r| == 2
  {
    [word / 256, word % 256]
  }

  /** A packet with a 16-bit checksum field at an even place. */
  function WithField(head: seq<byte>, field: nat, tail: seq<byte>): seq<byte>
    requires field < 0x1_0000
  {
    head + WordBytes(field) + tail
  }

  lemma SumWithField(head: seq<byte>, field: nat, tail: seq<byte>)
    requires |head| % 2 == 0 && field < 0x1_0000
    ensures Sum(WithField(head, field, tail)) == Sum(WithField(head, 0, tail)) + field
  {
    SumOfParts(head + WordBytes(field), tail);
    SumOfParts(head, WordBytes(field));
    SumOfParts(head + WordBytes(0), tail);
    SumOfParts(head, WordBytes(0));
    assert Sum(WordBytes(field)) == field && Sum(WordBytes(0)) == 0;
  }

  /** Summing a packet with its checksum in place gives zero. */
  lemma ResumIsZero(head: seq<byte>, tail: seq<byte>)
    requires |head| % 2 == 0
    ensures Checksum(WithField(head, Checksum(WithField(head, 0, tail), 0), tail), 0) == 0
  {
    var sum := Sum(WithField(head, 0, tail));
    SumWithField(head, Complement(Ones(sum)), tail);
    ComplementCompletes(sum);
  }

  /** And no other value in the field does, but for the other representation of
      zero. */
  lemma ResumIsZeroIff(head: seq<byte>, tail: seq<byte>, field: nat)
    requires |head| % 2 == 0 && field < 0x1_0000
    ensures var want := Checksum(WithField(head, 0, tail), 0);
            Checksum(WithField(head, field, tail), 0) == 0 <==>
            field == want || (want == 0 && field == 0xFFFF)
  {
    hide Sum, WithField;
    var sum := Sum(WithField(head, 0, tail));
    SumWithField(head, field, tail);
    OnesPlus(sum, field);
    OnesOfSmall(Ones(sum) + field);
  }

  /** The fold that both implementations end with. */
  method FoldSum(total: nat) returns (answer: nat)
    requires total <= INT_MAX
    ensures answer == Complement(Ones(total))
  {
    TwoFoldsSuffice(total);
    var sum := total / 0x1_0000 + total % 0x1_0000;
    sum := sum + sum / 0x1_0000;
    answer := Complement(sum % 0x1_0000);
  }

  // ----- in_cksum

  /** Sums the words, then mops up an odd byte and folds. The int that holds the
      sum does not overflow. */
  method InCksum(b: seq<byte>, csum: nat) returns (answer: nat)
    requires csum < 0x1_0000 && csum + 0xFFFF * ((|b| + 1) / 2) <= INT_MAX
    ensures answer == Checksum(b, csum) && answer < 0x1_0000
  {
    var nleft, w, sum := |b|, 0, csum;
    while nleft > 1
      invariant nleft + w == |b| && w % 2 == 0 && w <= |b|
      invariant sum + Sum(b[w..]) == csum + Sum(b)
      invariant sum <= csum + 0xFFFF * (w / 2) <= INT_MAX
      decreases nleft
    {
      var low: int, high: int := b[w], b[w + 1];
      assert b[w..][2..] == b[w + 2..];
      sum := sum + (low + 256 * high);
      w := w + 2;
      nleft := nleft - 2;
    }
    if nleft == 1 {
      sum := sum + b[w];
    }
    answer := FoldSum(sum);
  }

  // ----- icmp_cksum, the second implementation

  /** The mask 0xfffe in its loop condition ignores the multiples of 65536 in the
      length, and a last odd byte is put into the other half of a word. */
  function IcmpSum(data: seq<byte>, len: nat): nat
    requires len <= |data|
  {
    var n := len % 0x1_0000 / 2 * 2;
    var last: int := if len % 2 == 1 then data[n] else 0;
    Sum(data[..n]) + 256 * last
  }

  function IcmpChecksum(data: seq<byte>, len: nat): (r: nat)
    requires len <= |data|
  {
    Complement(Ones(IcmpSum(data, len)))
  }

  lemma DropWord(len: nat)
    requires len % 0x1_0000 >= 2
    ensures (len - 2) % 0x1_0000 == len % 0x1_0000 - 2
  {
  }

  method IcmpCksum(data: seq<byte>, length: nat) returns (answer: nat)
    requires length <= |data| && length <= INT_MAX
    ensures answer == IcmpChecksum(data, length) && answer < 0x1_0000
  {
    hide Sum;
    var sum, len, p := 0, length, 0;
    ghost var n := length % 0x1_0000 / 2 * 2;
    var odd := len % 2 == 1;
    assert data[0..n] == data[..n];
    while len % 0x1_0000 >= 2
      invariant len + p == length && p % 2 == 0 && p <= n && len % 0x1_0000 == length % 0x1_0000 - p
      invariant sum + Sum(data[p..n]) == Sum(data[..n]) && sum <= 0xFFFF * (p / 2)
      decreases len
    {
      var low: int, high: int := data[p], data[p + 1];
      SumOfWord(data, p, n);
      sum := sum + (low + 256 * high);
      DropWord(len);
      p := p + 2;
      len := len - 2;
    }
    assert p == n && data[p..n] == [];
    assert Sum([]) == 0 by {
      SumOfZeros(0);
      assert Zeros(0) == [];
    }
    if odd {
      var last: int := data[p];
      sum := sum + 256 * last;
    }
    answer := FoldSum(sum);
  }

  /** The two implementations agree on a packet of less than 65536 bytes exactly
      when its length is even or its last byte is zero. */
  lemma ImplementationsAgreeIff(b: seq<byte>)
    requires |b| < 0x1_0000
    ensures IcmpChecksum(b, |b|) == Checksum(b, 0) <==> |b| % 2 == 0 || b[|b| - 1] == 0
  {
    var n := |b| / 2 * 2;
    assert n == |b| % 0x1_0000 / 2 * 2;
    assert b == b[..n] + b[n..];
    SumOfParts(b[..n], b[n..]);
    if |b| % 2 == 1 {
      var last: int := b[n];
      assert b[n..] == [b[n]];
      assert Sum([b[n]]) == last;
      hide Sum, Ones;
      assert Sum(b) == Sum(b[..n]) + last && IcmpSum(b, |b|) == Sum(b[..n]) + 256 * last;
      if last != 0 {
        OnesApart(Sum(b[..n]) + last, 255 * last);
      }
    }
  }

  lemma OnesApart(a: nat, d: nat)
    requires a > 0 && 0 < d < 0xFFFF
    ensures Ones(a + d) != Ones(a)
  {
  }

  // ----- packets

  const ICMP_ECHO: byte := 8
  const TIMEVAL_SIZE: nat := 16

  /** Copies bytes into a buffer, between what is before and after them. */
  method Store(buffer: array<byte>, bytes: seq<byte>, at: nat, ghost before: seq<byte>, ghost after: seq<byte>)
    requires at == |before| && at + |bytes| + |after| == buffer.Length
    requires buffer[..at] == before && buffer[at + |bytes|..] == after
    modifies buffer
    ensures buffer[..] == before + bytes + after
  {
    forall i | 0 <= i < |bytes| {
      buffer[at + i] := bytes[i];
    }
    assert buffer[..at] == before && buffer[at + |bytes|..] == after;
    assert buffer[at..at + |bytes|] == bytes;
  }

  /** The header and the data as they leave: type, code, checksum, identifier,
      sequence number in network order, and the time stamp at the head of the
      data when there is room for one. */
  function Probe(outpack: seq<byte>, cc: nat, seqno: nat, ident: nat, stamp: Option<seq<byte>>,
                 checksum: nat): seq<byte>
    requires 8 <= cc <= |outpack| && seqno < 0x1_0000 && ident < 0x1_0000 && checksum < 0x1_0000
    requires stamp.Some? ==> |stamp.value| == TIMEVAL_SIZE && 8 + TIMEVAL_SIZE <= cc
  {
    [ICMP_ECHO, 0] + WordBytes(checksum) + (WordBytes(ident) + NetworkBytes(seqno) +
    match stamp
    case None => outpack[8..cc]
    case Some(bytes) => bytes + outpack[8 + TIMEVAL_SIZE..cc])
  }

  /** What send_probe leaves in outpack[..cc]: the same packet whichever way the
      checksum was computed, and one that checks. */
  method BuildProbe(outpack: array<byte>, datalen: nat, ntransmitted: nat, ident: nat, timing: bool, latency: bool,
                    stamp: seq<byte>)
    requires datalen + 8 <= outpack.Length <= 0x1_0000 && ident < 0x1_0000
    requires |stamp| == TIMEVAL_SIZE && (timing ==> datalen >= TIMEVAL_SIZE)
    modifies outpack
    ensures var cc, seqno := datalen + 8, (ntransmitted + 1) % 0x1_0000;
            var data := if timing then Some(stamp) else None;
            var unsummed := Probe(old(outpack[..]), cc, seqno, ident, data, 0);
            && outpack[..cc] == Probe(old(outpack[..]), cc, seqno, ident, data, Checksum(unsummed, 0))
            && outpack[cc..] == old(outpack[cc..])
  {
    hide WordBytes, NetworkBytes, Checksum;
    var cc, seqno := datalen + 8, (ntransmitted + 1) % 0x1_0000;
    ghost var rest, unsent := outpack[8..cc], outpack[cc..];
    ghost var head: seq<byte> := [ICMP_ECHO, 0];
    var ids := WordBytes(ident) + NetworkBytes(seqno);
    assert outpack[..0] == [] && outpack[8..] == rest + unsent;
    Store(outpack, [ICMP_ECHO, 0] + WordBytes(0) + ids, 0, [], rest + unsent);
    assert [] + ([ICMP_ECHO, 0] + WordBytes(0) + ids) + (rest + unsent) ==
           head + WordBytes(0) + (ids + rest) + unsent;
    ghost var whole := ids + if timing then stamp + rest[TIMEVAL_SIZE..] else rest;
    FinishProbe(outpack, cc, timing, latency, stamp, head, ids, rest, unsent);
    ProbeIs(old(outpack[..]), cc, seqno, ident, if timing then Some(stamp) else None, whole);
    ghost var field := Checksum(head + WordBytes(0) + whole, 0);
    Split(outpack[..], head + WordBytes(field) + whole, unsent, []);
    assert outpack[..] == head + WordBytes(field) + whole + unsent + [];
  }

  lemma ProbeIs(outpack: seq<byte>, cc: nat, seqno: nat, ident: nat, stamp: Option<seq<byte>>, whole: seq<byte>)
    requires 8 <= cc <= |outpack| && seqno < 0x1_0000 && ident < 0x1_0000
    requires stamp.Some? ==> |stamp.value| == TIMEVAL_SIZE && 8 + TIMEVAL_SIZE <= cc
    requires whole == WordBytes(ident) + NetworkBytes(seqno) +
                      if stamp.None? then outpack[8..cc] else stamp.value + outpack[8..cc][TIMEVAL_SIZE..]
    ensures forall checksum: nat :: checksum < 0x1_0000 ==>
              Probe(outpack, cc, seqno, ident, stamp, checksum) == [ICMP_ECHO, 0] + WordBytes(checksum) + whole
  {
    hide WordBytes, NetworkBytes;
    assert stamp.Some? ==> outpack[8..cc][TIMEVAL_SIZE..] == outpack[8 + TIMEVAL_SIZE..cc];
  }

  /** The data and the checksum, behind a header whose checksum is zero. */
  method FinishProbe(outpack: array<byte>, cc: nat, timing: bool, latency: bool, stamp: seq<byte>,
                     ghost head: seq<byte>, ghost ids: seq<byte>, ghost rest: seq<byte>, ghost unsent: seq<byte>)
    requires |head| == 2 && |ids| == 4 && |stamp| == TIMEVAL_SIZE && (timing ==> |rest| >= TIMEVAL_SIZE)
    requires cc == 8 + |rest| && cc <= outpack.Length <= 0x1_0000
    requires outpack[..] == head + WordBytes(0) + (ids + rest) + unsent
    modifies outpack
    ensures var whole := ids + if timing then stamp + rest[TIMEVAL_SIZE..] else rest;
            outpack[..] == head + WordBytes(Checksum(head + WordBytes(0) + whole, 0)) + whole + unsent
  {
    hide WordBytes, Checksum;
    if !timing {
      var checksum := SumAndStore(outpack, cc, head, ids + rest, unsent);
    } else {
      ghost var start, area, tail := head + WordBytes(0), rest[..TIMEVAL_SIZE], rest[TIMEVAL_SIZE..];
      assert rest == area + tail;
      assert start + (ids + (area + tail)) + unsent == start + ids + area + tail + unsent;
      StampAndSum(outpack, cc, latency, stamp, head, ids, area, tail, unsent);
    }
  }

  /** The time stamp is stored before the packet is summed, or the area is zeroed
      first, and the stamp added to the checksum afterwards. */
  method StampAndSum(outpack: array<byte>, cc: nat, latency: bool, stamp: seq<byte>, ghost head: seq<byte>,
                     ghost ids: seq<byte>, ghost area: seq<byte>, ghost tail: seq<byte>, ghost unsent: seq<byte>)
    requires |head| == 2 && |ids| == 4 && |area| == |stamp| == TIMEVAL_SIZE
    requires cc == 8 + TIMEVAL_SIZE + |tail| && cc <= outpack.Length <= 0x1_0000
    requires outpack[..] == head + WordBytes(0) + ids + area + tail + unsent
    modifies outpack
    ensures var whole := ids + (stamp + tail);
            outpack[..] == head + WordBytes(Checksum(head + WordBytes(0) + whole, 0)) + whole + unsent
  {
    hide WordBytes, Checksum;
    var first := if latency then stamp else Zeros(TIMEVAL_SIZE);
    ghost var start := head + WordBytes(0);
    assert start + ids + area + tail + unsent == start + ids + area + (tail + unsent);
    Split(outpack[..], start + ids, area, tail + unsent);
    Store(outpack, first, 8, start + ids, tail + unsent);
    Regroup(start, ids, first, tail, unsent);
    var checksum := SumAndStore(outpack, cc, head, ids + (first + tail), unsent);
    if !latency {
      AddStamp(outpack, checksum, stamp, head, ids, tail, unsent);
    }
  }

  lemma Regroup(a: seq<byte>, b: seq<byte>, c: seq<byte>, d: seq<byte>, e: seq<byte>)
    ensures a + (b + (c + d)) + e == (a + b) + c + (d + e)
  {
  }

  /** The time stamp goes into the zeroed area, and only it is summed. */
  method AddStamp(outpack: array<byte>, checksum: nat, stamp: seq<byte>, ghost head: seq<byte>,
                  ghost ids: seq<byte>, ghost tail: seq<byte>, ghost unsent: seq<byte>)
    requires |head| == 2 && |ids| == 4 && |stamp| == TIMEVAL_SIZE
    requires var whole := ids + (Zeros(TIMEVAL_SIZE) + tail);
             && checksum == Checksum(head + WordBytes(0) + whole, 0)
             && outpack[..] == head + WordBytes(checksum) + whole + unsent
    modifies outpack
    ensures var whole := ids + (stamp + tail);
            outpack[..] == head + WordBytes(Checksum(head + WordBytes(0) + whole, 0)) + whole + unsent
  {
    hide WordBytes, Checksum;
    ghost var start, zeros := head + WordBytes(checksum), Zeros(TIMEVAL_SIZE);
    Regroup(start, ids, zeros, tail, unsent);
    Split(outpack[..], start + ids, zeros, tail + unsent);
    Store(outpack, stamp, 8, start + ids, tail + unsent);
    Regroup(start, ids, stamp, tail, unsent);
    PatchedProbe(head + WordBytes(0), ids, stamp, tail);
    var patched := InCksum(stamp, Complement(checksum));
    ghost var whole := ids + (stamp + tail);
    assert head + WordBytes(checksum) + whole + unsent == head + WordBytes(checksum) + (whole + unsent);
    Split(outpack[..], head, WordBytes(checksum), whole + unsent);
    Store(outpack, WordBytes(patched), 2, head, whole + unsent);
    assert head + WordBytes(patched) + whole + unsent == head + WordBytes(patched) + (whole + unsent);
  }

  lemma Split(whole: seq<byte>, a: seq<byte>, b: seq<byte>, c: seq<byte>)
    requires whole == a + b + c
    ensures whole[..|a|] == a && whole[|a| + |b|..] == c
  {
  }

  lemma PatchedProbe(start: seq<byte>, ids: seq<byte>, stamp: seq<byte>, tail: seq<byte>)
    requires |start| % 2 == 0 && |ids| % 2 == 0 && |stamp| % 2 == 0
    ensures Checksum(stamp, Complement(Checksum(start + (ids + (Zeros(|stamp|) + tail)), 0))) ==
            Checksum(start + (ids + (stamp + tail)), 0)
  {
    PatchedChecksum(start + ids, stamp, tail);
    assert start + ids + stamp + tail == start + (ids + (stamp + tail));
    assert start + ids + Zeros(|stamp|) + tail == start + (ids + (Zeros(|stamp|) + tail));
  }

  /** Sums a packet whose checksum field is zero, and fills the field in. */
  method SumAndStore(outpack: array<byte>, cc: nat, ghost head: seq<byte>, ghost tail: seq<byte>,
                     ghost unsent: seq<byte>)
    returns (checksum: nat)
    requires |head| == 2 && cc == 4 + |tail| && cc <= outpack.Length <= 0x1_0000
    requires outpack[..] == head + WordBytes(0) + tail + unsent
    modifies outpack
    ensures checksum == Checksum(head + WordBytes(0) + tail, 0)
    ensures outpack[..] == head + WordBytes(checksum) + tail + unsent
  {
    hide WordBytes, Checksum;
    assert outpack[..cc] == head + WordBytes(0) + tail;
    checksum := InCksum(outpack[..cc], 0);
    assert outpack[..] == head + WordBytes(0) + (tail + unsent);
    Split(outpack[..], head, WordBytes(0), tail + unsent);
    Store(outpack, WordBytes(checksum), 2, head, tail + unsent);
  }

  /** A probe is an echo request (type 8, code 0), with the identifier as it is in
      memory and the sequence number in network order. */
  lemma ProbeFields(outpack: seq<byte>, cc: nat, seqno: nat, ident: nat, stamp: Option<seq<byte>>, checksum: nat)
    requires 8 <= cc <= |outpack| && seqno < 0x1_0000 && ident < 0x1_0000 && checksum < 0x1_0000
    requires stamp.Some? ==> |stamp.value| == TIMEVAL_SIZE && 8 + TIMEVAL_SIZE <= cc
    ensures var p := Probe(outpack, cc, seqno, ident, stamp, checksum);
            && |p| == cc && p[0] == 8 && p[1] == 0
            && Word(p[2], p[3]) == checksum && Word(p[4], p[5]) == ident && Word(p[7], p[6]) == seqno
            && p[8..] == if stamp.None? then outpack[8..cc] else stamp.value + outpack[24..cc]
  {
    var p := Probe(outpack, cc, seqno, ident, stamp, checksum);
    var data := if stamp.None? then outpack[8..cc] else stamp.value + outpack[24..cc];
    var head: seq<byte> := [8, 0] + WordBytes(checksum) + WordBytes(ident) + NetworkBytes(seqno);
    assert p == head + data;
  }

  /** Every probe checks at the other end. */
  lemma ProbesCheck(outpack: seq<byte>, cc: nat, seqno: nat, ident: nat, stamp: Option<seq<byte>>)
    requires 8 <= cc <= |outpack| && seqno < 0x1_0000 && ident < 0x1_0000
    requires stamp.Some? ==> |stamp.value| == TIMEVAL_SIZE && 8 + TIMEVAL_SIZE <= cc
    ensures var unsummed := Probe(outpack, cc, seqno, ident, stamp, 0);
            Checksum(Probe(outpack, cc, seqno, ident, stamp, Checksum(unsummed, 0)), 0) == 0
  {
    var tail := Probe(outpack, cc, seqno, ident, stamp, 0)[4..];
    ResumIsZero([ICMP_ECHO, 0], tail);
    assert Probe(outpack, cc, seqno, ident, stamp, 0) == WithField([ICMP_ECHO, 0], 0, tail);
    var field := Checksum(Probe(outpack, cc, seqno, ident, stamp, 0), 0);
    assert Probe(outpack, cc, seqno, ident, stamp, field) == WithField([ICMP_ECHO, 0], field, tail);
  }

  // ----- icmp_pack

  /** The bytes 0, 1, ..., n - 1. */
  function Counting(n: nat): (r: seq<byte>)
    requires n <= 256
    ensures |r| == n
  {
    seq(n, i requires 0 <= i < n => i)
  }

  function Packed(seqno: nat, pid: nat, length: nat, checksum: nat): seq<byte>
    requires length < 256 && checksum < 0x1_0000
  {
    [ICMP_ECHO, 0] + WordBytes(checksum) + (WordBytes(pid % 0x1_0000) + WordBytes(seqno % 0x1_0000) + Counting(length))
  }

  /** Fills a packet and sums `length` bytes of it; the loop over the data counts
      with a byte, so that it ends only for lengths below 256. */
  method IcmpPack(packet: array<byte>, seqno: nat, pid: nat, length: nat)
    requires length < 256 && 8 + length <= packet.Length
    modifies packet
    ensures packet[..8 + length] ==
            Packed(seqno, pid, length, IcmpChecksum(Packed(seqno, pid, length, 0), length))
    ensures packet[8 + length..] == old(packet[8 + length..])
  {
    hide WordBytes, Counting, IcmpChecksum;
    ghost var unsent, area := packet[8 + length..], packet[8..8 + length];
    ghost var head: seq<byte> := [ICMP_ECHO, 0];
    var ids := WordBytes(pid % 0x1_0000) + WordBytes(seqno % 0x1_0000);
    assert packet[..0] == [] && packet[8..] == area + unsent;
    Store(packet, [ICMP_ECHO, 0] + WordBytes(0) + ids, 0, [], area + unsent);
    assert packet[..8] == head + WordBytes(0) + ids && packet[8 + length..] == unsent;
    FillData(packet, length);
    var checksum := SumAndStoreIcmp(packet, length, head, ids + Counting(length), unsent);
    assert packet[..8 + length] == head + WordBytes(checksum) + (ids + Counting(length));
  }

  method SumAndStoreIcmp(packet: array<byte>, length: nat, ghost head: seq<byte>, ghost tail: seq<byte>,
                         ghost unsent: seq<byte>)
    returns (checksum: nat)
    requires |head| == 2 && |tail| == 4 + length && length < 256
    requires packet[..] == head + WordBytes(0) + tail + unsent
    modifies packet
    ensures checksum == IcmpChecksum(head + WordBytes(0) + tail, length) && checksum < 0x1_0000
    ensures packet[..] == head + WordBytes(checksum) + tail + unsent
  {
    hide WordBytes, IcmpChecksum;
    assert packet[..8 + length] == head + WordBytes(0) + tail;
    checksum := IcmpCksum(packet[..8 + length], length);
    assert head + WordBytes(0) + tail + unsent == head + WordBytes(0) + (tail + unsent);
    Split(packet[..], head, WordBytes(0), tail + unsent);
    Store(packet, WordBytes(checksum), 2, head, tail + unsent);
  }

  method FillData(packet: array<byte>, length: nat)
    requires length < 256 && 8 + length <= packet.Length
    modifies packet
    ensures packet[..] == old(packet[..8]) + Counting(length) + old(packet[8 + length..])
  {
    for i := 0 to length
      invariant packet[..8] == old(packet[..8]) && packet[8 + length..] == old(packet[8 + length..])
      invariant packet[8..8 + i] == Counting(length)[..i]
    {
      packet[8 + i] := i;
      assert packet[8..8 + i + 1] == packet[8..8 + i] + [i];
    }
    assert packet[..] == packet[..8] + packet[8..8 + length] + packet[8 + length..];
  }

  /** The field adds itself to the sum. */
  lemma IcmpSumWithField(head: seq<byte>, field: nat, tail: seq<byte>, length: nat)
    requires |head| == 2 && field < 0x1_0000 && 4 <= length < 256 && length <= 4 + |tail|
    ensures IcmpSum(WithField(head, field, tail), length) == IcmpSum(WithField(head, 0, tail), length) + field
  {
    var n := length / 2 * 2;
    var p0, p1 := WithField(head, 0, tail), WithField(head, field, tail);
    assert n == length % 0x1_0000 / 2 * 2;
    assert p0[..n] == WithField(head, 0, tail[..n - 4]) && p1[..n] == WithField(head, field, tail[..n - 4]);
    assert length % 2 == 1 ==> p1[n] == p0[n];
    hide Sum, WithField;
    SumWithField(head, field, tail[..n - 4]);
  }

  /** The packet checks, whatever its length, if the field is in what is summed. */
  lemma PackedChecks(seqno: nat, pid: nat, length: nat)
    requires 4 <= length < 256
    ensures var field := IcmpChecksum(Packed(seqno, pid, length, 0), length);
            IcmpChecksum(Packed(seqno, pid, length, field), length) == 0
  {
    var head, tail := [ICMP_ECHO, 0], WordBytes(pid % 0x1_0000) + WordBytes(seqno % 0x1_0000) + Counting(length);
    var p0 := Packed(seqno, pid, length, 0);
    var field := IcmpChecksum(p0, length);
    assert p0 == WithField(head, 0, tail) && Packed(seqno, pid, length, field) == WithField(head, field, tail);
    hide IcmpSum, Ones, WithField, Packed;
    IcmpSumWithField(head, field, tail, length);
    ComplementCompletes(IcmpSum(p0, length));
  }

  /** The fields of a packed packet: all in the order of memory, and counting data. */
  lemma PackedFields(seqno: nat, pid: nat, length: nat, checksum: nat)
    requires length < 256 && checksum < 0x1_0000
    ensures var p := Packed(seqno, pid, length, checksum);
            && |p| == 8 + length && p[0] == 8 && p[1] == 0
            && Word(p[2], p[3]) == checksum && Word(p[4], p[5]) == pid % 0x1_0000
            && Word(p[6], p[7]) == seqno % 0x1_0000
            && forall i :: 8 <= i < 8 + length ==> p[i] == i - 8
  {
    var p := Packed(seqno, pid, length, checksum);
    var head: seq<byte> := [8, 0] + WordBytes(checksum) + WordBytes(pid % 0x1_0000) + WordBytes(seqno % 0x1_0000);
    assert p == head + Counting(length);
  }
}
