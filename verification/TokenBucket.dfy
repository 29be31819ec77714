// The rate control of pinger: what the tokens bound, and what the delays that it
// returns are worth.
module TokenBucket {
  import opened Statistics

  const MININTERVAL: int := 10

  /** The settings: a fixed interval in ms, the preload, and the linger time. */
  datatype Config = Config(interval: int, preload: int, lingertime: int) {
    /** The check in setup, for a positive interval. */
    predicate Valid() {
      interval > 0 && preload >= 1 && interval < INT_MAX / preload && lingertime >= 0
    }
  }

  /** Its statics, with cur_time and ntransmitted. No probe has been tried while
      the seconds of cur_time are zero. */
  datatype Bucket = Bucket(cur: Timeval, tokens: int, sent: nat, oomCount: nat)

  const EMPTY := Bucket(Timeval(0, 0), 0, 0, 0)

  /** What comes of a call to send_probe. */
  datatype Sending = Delivered | NoBuffers | SocketFull | IcmpArrived | HardError

  /** The division of C, which truncates towards zero. */
  function Thousandth(n: int): int {
    if n >= 0 then n / 1000 else -(-n / 1000)
  }

  /** The elapsed milliseconds as pinger measures them. */
  function Elapsed(from: Timeval, to: Timeval): int {
    (to.sec - from.sec) * 1000 + Thousandth(to.usec - from.usec)
  }

  datatype Verdict = Wait(delay: int) | Go(bucket: Bucket)

  /** With an interval of zero, probes are held back to one in 10 ms while as many
      as the preload are in flight. */
  predicate HeldBack(c: Config, b: Bucket, now: Timeval, inFlight: int) {
    b.cur.sec != 0 && c.interval == 0 && Elapsed(b.cur, now) < MININTERVAL && inFlight >= c.preload
  }

  /** The rate check otherwise. */
  function Admit(c: Config, b: Bucket, now: Timeval): Verdict {
    if b.cur.sec == 0 then
      Go(b.(cur := now, tokens := c.interval * (c.preload - 1)))
    else
      var n := Elapsed(b.cur, now) + b.tokens;
      var ntokens := if n > c.interval * c.preload then c.interval * c.preload else n;
      if ntokens < c.interval then Wait(c.interval - ntokens)
      else Go(b.(cur := now, tokens := ntokens - c.interval))
  }

  function SchInt(a: int): int {
    if a <= MININTERVAL then MININTERVAL else a
  }

  /** The delay after running out of buffers. */
  function Backoff(c: Config): int {
    var d := SchInt(c.interval / 2);
    if d > 500 then 500 else d
  }

  /** What follows an attempt: the new state and the delay returned. */
  function Settle(c: Config, b: Bucket, s: Sending): (Bucket, int) {
    match s
    case Delivered => (b.(sent := b.sent + 1, oomCount := 0), c.interval - b.tokens)
    case NoBuffers =>
      if (b.oomCount + 1) * Backoff(c) < c.lingertime then
        (b.(tokens := 0, oomCount := b.oomCount + 1), Backoff(c))
      else
        (b.(tokens := 0, oomCount := b.oomCount + 1, sent := b.sent + 1), SchInt(c.interval))
    case SocketFull => (b.(tokens := b.tokens + c.interval), MININTERVAL)
    case IcmpArrived => (b.(tokens := b.tokens + c.interval), MININTERVAL)
    case HardError => (b.(tokens := 0, sent := b.sent + 1), SchInt(c.interval))
  }

  // ----- the budget

  /** The account of a run: the time of the first attempt in microseconds, the
      elapsed milliseconds credited since, and how many attempts were admitted
      after the first. */
  datatype Account = Account(start: int, measured: int, admitted: nat)

  const OPENED := Account(0, 0, 0)

  datatype Call = Call(now: Timeval, sending: Sending)

  predicate GoodClock(now: Timeval) {
    now.sec > 0 && now.Normal()
  }

  function Called(c: Config, b: Bucket, call: Call): Bucket {
    match Admit(c, b, call.now)
    case Wait(_) => b
    case Go(admitted) => Settle(c, admitted, call.sending).0
  }

  function Booked(c: Config, b: Bucket, a: Account, call: Call): Account {
    match Admit(c, b, call.now)
    case Wait(_) => a
    case Go(_) =>
      if b.cur.sec == 0 then Account(call.now.Micros(), 0, 0)
      else Account(a.start, a.measured + Elapsed(b.cur, call.now), a.admitted + 1)
  }

  /** The tokens stay within the preload, and everything sent is paid for by the
      preload and the measured time; measuring gains less than a millisecond for
      each attempt. */
  ghost predicate InBudget(c: Config, b: Bucket, a: Account) {
    && 0 <= b.tokens <= c.interval * c.preload
    && c.interval * b.sent + b.tokens <= c.interval * c.preload + a.measured
    && (if b.cur.sec == 0 then b.sent == 0 && b.tokens == 0 && a == OPENED
        else GoodClock(b.cur) && 1000 * a.measured <= b.cur.Micros() - a.start + 999 * a.admitted)
  }

  /** The product that is compared, and the refund, fit an int. */
  lemma NoOverflow(c: Config)
    requires c.Valid()
    ensures c.interval <= c.interval * c.preload <= INT_MAX
    ensures c.interval * (c.preload - 1) == c.interval * c.preload - c.interval
  {
    var q := INT_MAX / c.preload;
    assert INT_MAX == c.preload * q + INT_MAX % c.preload;
    ProductMonotone(c.preload, c.interval, q);
    ProductMonotone(c.interval, 1, c.preload);
    OneLess(c.interval, c.preload);
  }

  lemma OneLess(a: int, b: int)
    ensures a * (b - 1) == a * b - a
  {
  }

  lemma AdmittedInBudget(c: Config, b: Bucket, a: Account, now: Timeval)
    requires c.Valid() && InBudget(c, b, a) && GoodClock(now) && Admit(c, b, now).Go?
    ensures var d, e := Admit(c, b, now).bucket, Booked(c, b, a, Call(now, Delivered));
            && GoodClock(d.cur) && 0 <= d.tokens <= c.interval * c.preload - c.interval
            && c.interval * d.sent + d.tokens + c.interval <= c.interval * c.preload + e.measured
            && 1000 * e.measured <= d.cur.Micros() - e.start + 999 * e.admitted
  {
  }

  lemma SettledInBudget(c: Config, b: Bucket, a: Account, s: Sending)
    requires c.Valid() && GoodClock(b.cur) && 0 <= b.tokens <= c.interval * c.preload - c.interval
    requires c.interval * b.sent + b.tokens + c.interval <= c.interval * c.preload + a.measured
    requires 1000 * a.measured <= b.cur.Micros() - a.start + 999 * a.admitted
    ensures InBudget(c, Settle(c, b, s).0, a)
  {
  }

  lemma CallInBudget(c: Config, b: Bucket, a: Account, call: Call)
    requires c.Valid() && InBudget(c, b, a) && GoodClock(call.now)
    ensures InBudget(c, Called(c, b, call), Booked(c, b, a, call))
  {
    hide Settle;
    if Admit(c, b, call.now).Go? {
      AdmittedInBudget(c, b, a, call.now);
      SettledInBudget(c, Admit(c, b, call.now).bucket, Booked(c, b, a, call), call.sending);
    }
  }

  function RunOf(c: Config, b: Bucket, calls: seq<Call>): Bucket
    decreases calls
  {
    if calls == [] then b else RunOf(c, Called(c, b, calls[0]), calls[1..])
  }

  function Books(c: Config, b: Bucket, a: Account, calls: seq<Call>): Account
    decreases calls
  {
    if calls == [] then a else Books(c, Called(c, b, calls[0]), Booked(c, b, a, calls[0]), calls[1..])
  }

  /** Every run stays in budget, whatever comes of the attempts. */
  lemma {:induction false} RunInBudget(c: Config, b: Bucket, a: Account, calls: seq<Call>)
    requires c.Valid() && InBudget(c, b, a) && forall i :: 0 <= i < |calls| ==> GoodClock(calls[i].now)
    ensures InBudget(c, RunOf(c, b, calls), Books(c, b, a, calls))
    decreases calls
  {
    if calls != [] {
      CallInBudget(c, b, a, calls[0]);
      RunInBudget(c, Called(c, b, calls[0]), Booked(c, b, a, calls[0]), calls[1..]);
    }
  }

  /** A run from the start: the probes sent are bounded by the preload and the time
      since the first attempt. */
  lemma SentIsBounded(c: Config, calls: seq<Call>)
    requires c.Valid() && forall i :: 0 <= i < |calls| ==> GoodClock(calls[i].now)
    ensures var b, a := RunOf(c, EMPTY, calls), Books(c, EMPTY, OPENED, calls);
            && 0 <= b.tokens <= c.interval * c.preload <= INT_MAX
            && c.interval * b.sent + b.tokens <= c.interval * c.preload + a.measured
            && (b.cur.sec != 0 ==> 1000 * a.measured <= b.cur.Micros() - a.start + 999 * a.admitted)
  {
    NoOverflow(c);
    RunInBudget(c, EMPTY, OPENED, calls);
  }

  // ----- what an attempt costs

  /** At one moment, the first `preload` calls pass, and the next one has to wait for a
      whole interval. */
  lemma {:induction false} BurstFrom(c: Config, now: Timeval, k: nat, n: nat)
    requires c.Valid() && GoodClock(now) && 1 <= k && k + n <= c.preload
    ensures RunOf(c, Bucket(now, c.interval * (c.preload - k), k, 0), seq(n, _ => Call(now, Delivered))) ==
            Bucket(now, c.interval * (c.preload - k - n), k + n, 0)
    decreases n
  {
    var calls := seq(n, _ => Call(now, Delivered));
    if n > 0 {
      assert calls[0] == Call(now, Delivered) && calls[1..] == seq(n - 1, _ => Call(now, Delivered));
      PassesAtOnce(c, now, k);
      BurstFrom(c, now, k + 1, n - 1);
    }
  }

  lemma PassesAtOnce(c: Config, now: Timeval, k: nat)
    requires c.Valid() && GoodClock(now) && 1 <= k < c.preload
    ensures Called(c, Bucket(now, c.interval * (c.preload - k), k, 0), Call(now, Delivered)) ==
            Bucket(now, c.interval * (c.preload - (k + 1)), k + 1, 0)
  {
    NoOverflow(c);
    ProductMonotone(c.interval, 1, c.preload - k);
    ProductMonotone(c.interval, c.preload - k, c.preload);
    assert c.interval * (c.preload - (k + 1)) == c.interval * (c.preload - k) - c.interval;
  }

  lemma BurstPasses(c: Config, now: Timeval)
    requires c.Valid() && GoodClock(now)
    ensures var b := RunOf(c, EMPTY, seq(c.preload, _ => Call(now, Delivered)));
            b.sent == c.preload && Admit(c, b, now) == Wait(c.interval)
  {
    var calls := seq(c.preload, _ => Call(now, Delivered));
    assert calls[0] == Call(now, Delivered) && calls[1..] == seq(c.preload - 1, _ => Call(now, Delivered));
    assert Called(c, EMPTY, calls[0]) == Bucket(now, c.interval * (c.preload - 1), 1, 0);
    BurstFrom(c, now, 1, c.preload - 1);
    NoOverflow(c);
    assert c.interval * 0 == 0;
    hide RunOf;
  }

  /** A full socket, or an ICMP error that arrived, costs nothing: the same attempt
      passes again. */
  lemma RefundRestores(c: Config, b: Bucket, a: Account, now: Timeval, s: Sending)
    requires c.Valid() && InBudget(c, b, a) && GoodClock(now) && Admit(c, b, now).Go?
    requires s.SocketFull? || s.IcmpArrived?
    ensures var d := Admit(c, b, now).bucket; var e := Settle(c, d, s).0;
            e.sent == b.sent && Admit(c, e, now) == Go(d)
  {
    AdmittedInBudget(c, b, a, now);
    NoOverflow(c);
  }

  /** After a hard error, and when buffers ran out, nothing is left, so that another
      attempt has to wait for a whole interval. */
  lemma ErrorsCostAll(c: Config, b: Bucket, s: Sending)
    requires c.Valid() && GoodClock(b.cur) && (s.HardError? || s.NoBuffers?)
    ensures Admit(c, Settle(c, b, s).0, b.cur) == Wait(c.interval)
  {
    NoOverflow(c);
  }

  /** The delay returned after a hard error is enough, too. */
  lemma DelayAfterError(c: Config, b: Bucket, now: Timeval)
    requires c.Valid() && GoodClock(b.cur) && now.Micros() >= b.cur.Micros() + 1000 * Settle(c, b, HardError).1
    ensures Admit(c, Settle(c, b, HardError).0, now).Go?
  {
    NoOverflow(c);
    ElapsedAtLeast(b.cur, now, Settle(c, b, HardError).1);
  }

  /** The delay after running out of buffers is half an interval, within 10 to 500 ms. */
  lemma BackoffIs(c: Config)
    ensures 10 <= Backoff(c) <= 500 && (20 <= c.interval <= 1000 ==> Backoff(c) == c.interval / 2)
  {
  }

  /** A flood: with an interval of zero every call passes, but at most one in 10 ms
      while as many probes as the preload are unanswered. */
  lemma FloodPasses(c: Config, b: Bucket, now: Timeval, inFlight: int)
    requires c.interval == 0 && b.tokens == 0 && b.cur.sec != 0 && Elapsed(b.cur, now) >= 0
    ensures Admit(c, b, now) == Go(b.(cur := now))
    ensures HeldBack(c, b, now, inFlight) <==> Elapsed(b.cur, now) < 10 && inFlight >= c.preload
  {
    assert c.interval * c.preload == 0;
  }

  // ----- the delays

  /** Measuring by a clock that does not go back never gives a negative time. */
  lemma ElapsedIsNatural(from: Timeval, to: Timeval)
    requires from.Normal() && to.Normal() && from.Micros() <= to.Micros()
    ensures Elapsed(from, to) >= 0
  {
  }

  /** Once d milliseconds have passed on the clock, at least d are measured. */
  lemma ElapsedAtLeast(from: Timeval, to: Timeval, d: int)
    requires to.Micros() >= from.Micros() + 1000 * d
    ensures Elapsed(from, to) >= d
  {
  }

  /** A delay returned by a successful call is enough. */
  lemma DelayAfterDelivery(c: Config, b: Bucket, now: Timeval)
    requires c.Valid() && b.cur.sec != 0 && b.cur.Normal() && now.Normal() && b.cur.Micros() <= now.Micros()
    requires now.Micros() >= b.cur.Micros() + 1000 * Settle(c, b, Delivered).1
    ensures Admit(c, Settle(c, b, Delivered).0, now).Go?
  {
    NoOverflow(c);
    ElapsedAtLeast(b.cur, now, c.interval - b.tokens);
  }

  /** The first reading was rounded up, the second is rounded down, and the `extra`
      microseconds beyond the delay do not make up for it. */
  predicate Unlucky(cur: Timeval, first: Timeval, second: Timeval, extra: nat) {
    first.usec < cur.usec <= second.usec && (cur.usec - first.usec) % 1000 > extra
  }

  /** The measured times of two readings, the second d milliseconds and more after. */
  lemma ElapsedLater(cur: Timeval, first: Timeval, second: Timeval, d: int, extra: nat)
    requires second.Micros() == first.Micros() + 1000 * d + extra
    ensures if Unlucky(cur, first, second, extra) then Elapsed(cur, second) == Elapsed(cur, first) + d - 1
            else Elapsed(cur, second) >= Elapsed(cur, first) + d
  {
  }

  /** A delay returned by the rate check is not always enough. Once it has passed,
      by whatever margin, the next call passes the check unless the truncation of
      negative differences made the first reading too long and not the second, by
      more than the margin. */
  lemma DelayAfterWaitIff(c: Config, b: Bucket, first: Timeval, second: Timeval, extra: nat)
    requires c.Valid() && b.cur.sec != 0 && Admit(c, b, first).Wait?
    requires second.Micros() == first.Micros() + 1000 * Admit(c, b, first).delay + extra
    ensures Admit(c, b, second).Go? <==> !Unlucky(b.cur, first, second, extra)
  {
    NoOverflow(c);
    ElapsedLater(b.cur, first, second, Admit(c, b, first).delay, extra);
  }

  /** One millisecond more always is. */
  lemma DelayAndOneMore(c: Config, b: Bucket, first: Timeval, second: Timeval)
    requires c.Valid() && b.cur.sec != 0 && Admit(c, b, first).Wait?
    requires second.Micros() >= first.Micros() + 1000 * (Admit(c, b, first).delay + 1)
    ensures Admit(c, b, second).Go?
  {
    DelayAfterWaitIff(c, b, first, second, second.Micros() - first.Micros() - 1000 * Admit(c, b, first).delay);
  }

  /** The unlucky case does occur. */
  lemma UnluckyCase()
    ensures var c, b := Config(1001, 1, 10000), Bucket(Timeval(1, 500_500), 0, 1, 0);
            var first, second := Timeval(2, 0), Timeval(2, 501_000);
            && c.Valid() && GoodClock(b.cur) && Admit(c, b, first) == Wait(501)
            && second.Micros() == first.Micros() + 1000 * 501 && Admit(c, b, second) == Wait(1)
  {
  }
}
