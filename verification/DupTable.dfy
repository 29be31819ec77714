// The table of received sequence numbers, and what it is good for over a run.
module DupTables {
  import opened Tracking

  /** One bit for each 16-bit sequence number, eight to a byte. */
  const MAX_DUP_CHK: nat := 0x1_0000

  /** 1 << k */
  function Mask(k: int): bv8
    requires 0 <= k < 8
  {
    if k == 0 then 1 else if k == 1 then 2 else if k == 2 then 4 else if k == 3 then 8
    else if k == 4 then 16 else if k == 5 then 32 else if k == 6 then 64 else 128
  }

  predicate Bit(b: bv8, k: int)
    requires 0 <= k < 8
  {
    b & Mask(k) != 0
  }

  lemma SetBit(b: bv8, i: int, j: int)
    requires 0 <= i < 8 && 0 <= j < 8
    ensures Bit(b | Mask(i), j) <==> i == j || Bit(b, j)
  {
  }

  lemma ClearBit(b: bv8, i: int, j: int)
    requires 0 <= i < 8 && 0 <= j < 8
    ensures Bit(b & !Mask(i), j) <==> i != j && Bit(b, j)
  {
  }

  class DupTable {
    const bytes: array<bv8>

    ghost predicate Valid() {
      bytes.Length == MAX_DUP_CHK / 8
    }

    predicate Marked(n: int)
      requires Valid() && 0 <= n < MAX_DUP_CHK
      reads bytes
    {
      Bit(bytes[n / 8], n % 8)
    }

    /** The numbers whose bit is set. */
    ghost function Slots(): (s: set<int>)
      requires Valid()
      reads bytes
    {
      set n | 0 <= n < MAX_DUP_CHK && Marked(n)
    }

    constructor ()
      ensures Valid() && fresh(bytes) && Slots() == {}
    {
      bytes := new bv8[MAX_DUP_CHK / 8](_ => 0);
    }

    /** TST */
    method Test(n: int) returns (marked: bool)
      requires Valid() && 0 <= n < MAX_DUP_CHK
      ensures marked <==> n in Slots()
    {
      marked := Marked(n);
    }

    /** SET */
    method Set(n: int)
      requires Valid() && 0 <= n < MAX_DUP_CHK
      modifies bytes
      ensures Slots() == old(Slots()) + {n}
    {
      bytes[n / 8] := bytes[n / 8] | Mask(n % 8);
      forall m | 0 <= m < MAX_DUP_CHK
        ensures Marked(m) <==> m == n || old(Marked(m))
      {
        SetBit(old(bytes[n / 8]), n % 8, m % 8);
      }
    }

    /** CLR */
    method Clear(n: int)
      requires Valid() && 0 <= n < MAX_DUP_CHK
      modifies bytes
      ensures Slots() == old(Slots()) - {n}
    {
      bytes[n / 8] := bytes[n / 8] & !Mask(n % 8);
      forall m | 0 <= m < MAX_DUP_CHK
        ensures Marked(m) <==> m != n && old(Marked(m))
      {
        ClearBit(old(bytes[n / 8]), n % 8, m % 8);
      }
    }
  }

  // ----- counting replies

  /** The slots and the counters ntransmitted, nreceived, nrepeats, nchecksum. */
  datatype Dups = Dups(sent: nat, slots: set<int>, received: int, repeats: int, failed: int)

  /** send_probe clears the slot of the next number; the number is used up only if
      the probe counts as sent. */
  function Probed(d: Dups, counts: bool): Dups {
    d.(slots := d.slots - {Low(d.sent + 1)}, sent := if counts then d.sent + 1 else d.sent)
  }

  /** The last part of gather_statistics. */
  function Gathered(d: Dups, seqno: u16, csfailed: bool): Dups {
    if csfailed then d.(failed := d.failed + 1)
    else if seqno in d.slots then d.(repeats := d.repeats + 1)
    else d.(received := d.received + 1, slots := d.slots + {seqno})
  }

  datatype Happening = Probe(counts: bool) | Answer(probe: nat, csfailed: bool)

  function DupStep(d: Dups, h: Happening): Dups {
    match h
    case Probe(counts) => Probed(d, counts)
    case Answer(q, csfailed) => Gathered(d, Low(q), csfailed)
  }

  /** The truth about a run: which probes have been credited with a reply, and how
      many replies there were. */
  datatype Credit = Credit(probes: set<nat>, answers: nat)

  function CreditStep(c: Credit, h: Happening): Credit {
    match h
    case Probe(_) => c
    case Answer(q, csfailed) => Credit(if csfailed then c.probes else c.probes + {q}, c.answers + 1)
  }

  /** An answer names one of the last 65535 probes. */
  predicate Recent(sent: nat, q: nat) {
    1 <= q <= sent && sent - q < 0xFFFF
  }

  ghost predicate Credited(d: Dups, c: Credit) {
    && (forall q: nat :: Recent(d.sent, q) ==> (Low(q) in d.slots <==> q in c.probes))
    && (forall q :: q in c.probes ==> 1 <= q <= d.sent)
    && |c.probes| == d.received && d.received + d.repeats + d.failed == c.answers
  }

  lemma RecentAreApart(sent: nat, q: nat, p: nat)
    requires Recent(sent, q) && 1 <= p <= sent + 1 && sent + 1 - p < 0x1_0000 && Low(p) == Low(q)
    ensures p == q
  {
  }

  lemma ProbeIsCredited(d: Dups, c: Credit, counts: bool)
    requires Credited(d, c)
    ensures Credited(Probed(d, counts), c)
  {
  }

  lemma AnswerIsCredited(d: Dups, c: Credit, q: nat, csfailed: bool)
    requires Credited(d, c) && Recent(d.sent, q)
    ensures Credited(Gathered(d, Low(q), csfailed), CreditStep(c, Answer(q, csfailed)))
  {
    hide Low;
    var e, f := Gathered(d, Low(q), csfailed), CreditStep(c, Answer(q, csfailed));
    if !csfailed {
      assert q in c.probes ==> f.probes == c.probes;
      forall p: nat | Recent(d.sent, p)
        ensures Low(p) in e.slots <==> p in f.probes
      {
        if Low(p) == Low(q) {
          RecentAreApart(d.sent, q, p);
        }
      }
    }
  }

  ghost predicate AllRecent(d: Dups, run: seq<Happening>)
    decreases run
  {
    run == [] ||
    ((run[0].Answer? ==> Recent(d.sent, run[0].probe)) && AllRecent(DupStep(d, run[0]), run[1..]))
  }

  function DupRun(d: Dups, run: seq<Happening>): Dups
    decreases run
  {
    if run == [] then d else DupRun(DupStep(d, run[0]), run[1..])
  }

  function CreditRun(c: Credit, run: seq<Happening>): Credit
    decreases run
  {
    if run == [] then c else CreditRun(CreditStep(c, run[0]), run[1..])
  }

  /** Over every run whose answers name recent probes, the slots say which of them
      have been credited; no probe is credited twice, for the number received is
      the size of a set of probes; and every answer is counted once. */
  lemma {:induction false} RunIsCredited(d: Dups, c: Credit, run: seq<Happening>)
    requires Credited(d, c) && AllRecent(d, run)
    ensures Credited(DupRun(d, run), CreditRun(c, run))
    decreases run
  {
    hide Credited, Probed, Gathered;
    if run != [] {
      match run[0] {
        case Probe(counts) => ProbeIsCredited(d, c, counts);
        case Answer(q, csfailed) => AnswerIsCredited(d, c, q, csfailed);
      }
      RunIsCredited(DupStep(d, run[0]), CreditStep(c, run[0]), run[1..]);
    }
  }

  function AnswersIn(run: seq<Happening>, failedOnly: bool): nat {
    if run == [] then 0
    else (if run[0].Answer? && (run[0].csfailed || !failedOnly) then 1 else 0) + AnswersIn(run[1..], failedOnly)
  }

  /** The answers of a run, the failed ones, and those that credit a probe. */
  lemma {:induction false} CreditIs(d: Dups, c: Credit, run: seq<Happening>, q: nat)
    ensures CreditRun(c, run).answers == c.answers + AnswersIn(run, false)
    ensures DupRun(d, run).failed == d.failed + AnswersIn(run, true)
    ensures q in CreditRun(c, run).probes <==> q in c.probes || Answer(q, false) in run
    decreases run
  {
    if run != [] {
      CreditIs(DupStep(d, run[0]), CreditStep(c, run[0]), run[1..], q);
      assert run == [run[0]] + run[1..];
    }
  }

  lemma {:induction false} SetOfSmall(s: set<nat>, n: nat)
    requires forall q :: q in s ==> 1 <= q <= n
    ensures |s| <= n
    decreases n
  {
    if n > 0 {
      SetOfSmall(s - {n}, n - 1);
      if n !in s {
        assert s - {n} == s;
      }
    } else {
      assert s == {};
    }
  }

  /** Never more received than transmitted. */
  lemma ReceivedAtMostSent(d: Dups, c: Credit)
    requires Credited(d, c)
    ensures d.received <= d.sent
  {
    SetOfSmall(c.probes, d.sent);
  }

  /** The bound on the age is sharp: an answer to the probe just before the window
      is credited a second time once the next probe has been prepared. */
  lemma OlderAnswersCountTwice(d: Dups, c: Credit, q: nat)
    requires Credited(d, c) && q in c.probes && d.sent - q == 0xFFFF
    ensures Gathered(Probed(d, false), Low(q), false).received == d.received + 1
  {
  }
}
