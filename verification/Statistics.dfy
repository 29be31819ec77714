// Times, running sums, and the square root behind the mean deviation.
module Statistics {

  // ----- times

  /** A struct timeval. */
  datatype Timeval = Timeval(sec: int, usec: int) {
    function Micros(): int {
      sec * 1_000_000 + usec
    }

    predicate Normal() {
      0 <= usec < 1_000_000
    }
  }

  /** tvsub, which changes its first argument, and icmp_tvsub, which does not: the
      one borrows before it subtracts the seconds, the other after. */
  method Tvsub(out: Timeval, less: Timeval) returns (r: Timeval)
    ensures r.Micros() == out.Micros() - less.Micros()
    ensures out.Normal() && less.Normal() ==> r.Normal()
  {
    var sec, usec := out.sec, out.usec - less.usec;
    if usec < 0 {
      sec := sec - 1;
      usec := usec + 1_000_000;
    }
    sec := sec - less.sec;
    r := Timeval(sec, usec);
  }

  method IcmpTvsub(end: Timeval, begin: Timeval) returns (tv: Timeval)
    ensures tv.Micros() == end.Micros() - begin.Micros()
    ensures end.Normal() && begin.Normal() ==> tv.Normal()
  {
    var sec, usec := end.sec - begin.sec, end.usec - begin.usec;
    if usec < 0 {
      sec, usec := sec - 1, usec + 1_000_000;
    }
    tv := Timeval(sec, usec);
  }

  /** A normal timeval is determined by its value, so the two agree. */
  lemma NormalIsUnique(s: Timeval, t: Timeval)
    requires s.Normal() && t.Normal() && s.Micros() == t.Micros()
    ensures s == t
  {
  }

  // ----- the square root

  const LLONG_MAX: int := 0x7FFF_FFFF_FFFF_FFFF
  const INT_MAX: int := 0x7FFF_FFFF

  /** The integer square root. */
  ghost predicate IsRoot(r: int, a: int) {
    0 <= r && r * r <= a < (r + 1) * (r + 1)
  }

  lemma RootExists(a: nat) returns (r: nat)
    ensures IsRoot(r, a)
  {
    r := 0;
    while (r + 1) * (r + 1) <= a
      invariant r * r <= a
      decreases a - r * r
    {
      r := r + 1;
    }
  }

  lemma RootIsUnique(r: int, q: int, a: int)
    requires IsRoot(r, a) && IsRoot(q, a)
    ensures r == q
  {
  }

  lemma MulMonotone(a: int, b: int)
    requires 0 <= a <= b
    ensures a * a <= b * b
  {
  }

  /** A Newton step from above the root stays at or above it, and goes down. */
  lemma NewtonStep(x: int, a: int, s: int)
    requires 0 < s < x && IsRoot(s, a)
    ensures var y := (x + a / x) / 2; s <= y < x && y > 0
  {
    var q := a / x;
    assert a == x * q + a % x;
    if x + q < 2 * s {
      ProductBelowSquare(x, q, s);
    }
    if q >= x {
      ProductAtLeast(x, q);
      MulMonotone(s + 1, x);
    }
  }

  lemma ProductAtLeast(x: int, q: int)
    requires x > 0 && q >= x
    ensures x * q >= x * x
  {
  }

  /** Two factors whose sum falls short of 2 * s: even with the remainder, the
      product does not reach the square. */
  lemma ProductBelowSquare(x: int, q: int, s: int)
    requires 0 < s < x && q >= 0 && x + q < 2 * s
    ensures x * q + x <= s * s
  {
    var d := x - s;
    assert x * (q + 1) <= x * (2 * s - x) by {
      ProductMonotone(x, q + 1, 2 * s - x);
    }
    assert x * (2 * s - x) == s * s - d * d;
    assert d * d >= 0;
  }

  lemma ProductMonotone(x: int, a: int, b: int)
    requires x >= 0 && a <= b
    ensures x * a <= x * b
  {
  }

  lemma RootQuotient(a: int, s: int)
    requires s > 0 && IsRoot(s, a)
    ensures s <= a / s <= s + 2
    ensures a / s == s + 2 <==> a + 1 == (s + 1) * (s + 1)
  {
    assert (s + 1) * (s + 1) == s * s + 2 * s + 1;
    assert s * (s + 2) == s * s + 2 * s && s * (s + 3) == s * s + 3 * s;
    QuotientAtLeast(a, s, s);
    QuotientBelow(a, s, s + 3);
    if a + 1 == (s + 1) * (s + 1) {
      QuotientAtLeast(a, s, s + 2);
    } else {
      QuotientBelow(a, s, s + 2);
    }
  }

  /** The step from the root itself: it stays, or goes up by one in front of the
      next square. */
  lemma NewtonAtRoot(a: int, s: int)
    requires s > 0 && IsRoot(s, a)
    ensures var y := (s + a / s) / 2; y >= s && IsRoot(y, a + 1)
  {
    RootQuotient(a, s);
    var q := a / s;
    if q == s + 2 {
      assert (s + q) / 2 == s + 1;
      assert (s + 2) * (s + 2) == (s + 1) * (s + 1) + 2 * s + 3;
    } else {
      assert (s + q) / 2 == s;
    }
  }

  lemma QuotientBelow(a: nat, n: int, q: int)
    requires n > 0 && a < n * q
    ensures a / n < q
  {
  }

  lemma SumInRange(x: int, a: int)
    requires 1 <= x <= a
    ensures x + a / x <= a + 1
  {
    assert x * (a + 2 - x) == a + x + (x - 1) * (a - x);
    assert (x - 1) * (a - x) >= 0;
    QuotientBelow(a, x, a + 2 - x);
  }

  /** llsqrt: for 0 < a < LLONG_MAX it is the integer square root of a + 1, not of
      a; it never divides by zero and its sum never leaves the range of the type. */
  method Llsqrt(a: int) returns (root: int)
    requires -LLONG_MAX - 1 <= a <= LLONG_MAX
    ensures 0 < a < LLONG_MAX ==> IsRoot(root, a + 1)
    ensures a <= 0 || a == LLONG_MAX ==> root == a
  {
    hide IsRoot;
    var prev, x := LLONG_MAX, a;
    if x > 0 {
      ghost var s := RootExists(a);
      RootIsPositive(a, s);
      while x < prev
        invariant 0 < s <= x && (x < prev ==> x <= a < LLONG_MAX)
        invariant x < prev || (if a == LLONG_MAX then x == a else IsRoot(x, a + 1))
        decreases if x < prev then x else 0
      {
        SumInRange(x, a);
        assert x + a / x <= LLONG_MAX;
        if x > s {
          NewtonStep(x, a, s);
        } else {
          NewtonAtRoot(a, s);
        }
        prev := x;
        x := (x + a / x) / 2;
      }
    }
    root := x;
  }

  lemma RootIsPositive(a: int, s: int)
    requires a > 0 && IsRoot(s, a)
    ensures 0 < s <= a
  {
  }

  /** So it is one more than the root of a exactly in front of a perfect square. */
  lemma RootOfNext(a: int, r: int, s: int)
    requires a >= 0 && IsRoot(r, a + 1) && IsRoot(s, a)
    ensures r == if a + 1 == (s + 1) * (s + 1) then s + 1 else s
  {
    if a + 1 == (s + 1) * (s + 1) {
      assert (s + 2) * (s + 2) == (s + 1) * (s + 1) + 2 * s + 3;
      RootIsUnique(r, s + 1, a + 1);
    } else {
      RootIsUnique(r, s, a + 1);
    }
  }

  // ----- running sums

  /** The globals tsum, tsum2, tmin, tmax and rtt; tmin starts at LONG_MAX. */
  datatype Times = Times(tsum: int, tsum2: int, tmin: int, tmax: int, rtt: int)

  const NO_TIMES := Times(0, 0, LLONG_MAX, 0, 0)

  /** The effect of a round trip time on them. All of its quotients are of numbers
      that are not negative. */
  function Timed(t: Times, triptime: nat): Times {
    Times(t.tsum + triptime, t.tsum2 + triptime * triptime,
          if triptime < t.tmin then triptime else t.tmin,
          if triptime > t.tmax then triptime else t.tmax,
          if t.rtt == 0 then triptime * 8 else t.rtt + triptime - t.rtt / 8)
  }

  /** A reply with a good checksum was long enough to be timed, or not. */
  datatype Reply = Short | Full(triptime: nat)

  function After(t: Times, replies: seq<Reply>): Times
    decreases replies
  {
    if replies == [] then t
    else After(match replies[0] case Short => t case Full(triptime) => Timed(t, triptime), replies[1..])
  }

  /** How many were timed. */
  function TimedCount(replies: seq<Reply>): (n: nat)
    ensures n <= |replies|
  {
    if replies == [] then 0 else (if replies[0].Full? then 1 else 0) + TimedCount(replies[1..])
  }

  /** What holds after n timed replies: Cauchy-Schwarz on the sums, the bounds of
      the mean, and those of the shifted moving average. */
  ghost predicate Consistent(t: Times, n: nat) {
    && 0 <= t.tsum && 0 <= t.tsum2 && 0 <= t.rtt && t.tsum * t.tsum <= n * t.tsum2
    && (n == 0 ==> t == NO_TIMES)
    && (n > 0 ==> 0 <= t.tmin <= t.tmax && t.tmin * n <= t.tsum <= t.tmax * n && 8 * t.tmin <= t.rtt <= 8 * t.tmax)
  }

  lemma CauchySchwarzStep(sum: nat, sum2: nat, n: nat, x: nat)
    requires sum * sum <= n * sum2 && (n == 0 ==> sum == 0 && sum2 == 0)
    ensures (sum + x) * (sum + x) <= (n + 1) * (sum2 + x * x)
  {
  }

  lemma SquareIsNatural(x: int)
    ensures x * x >= 0
  {
  }

  /** The moving average stays between bounds that include the new value. */
  lemma AverageStaysBetween(rtt: int, low: nat, high: nat, x: nat)
    requires 8 * low <= rtt <= 8 * high && low <= x <= high
    ensures 8 * low <= rtt + x - rtt / 8 <= 8 * high
  {
  }

  lemma TimedIsConsistent(t: Times, n: nat, triptime: nat)
    requires Consistent(t, n) && triptime < LLONG_MAX
    ensures Consistent(Timed(t, triptime), n + 1)
  {
    var u := Timed(t, triptime);
    CauchySchwarzStep(t.tsum, t.tsum2, n, triptime);
    SquareIsNatural(triptime);
    if n > 0 {
      ProductMonotone(n, u.tmin, t.tmin);
      ProductMonotone(n, t.tmax, u.tmax);
      assert u.tmin * (n + 1) == n * u.tmin + u.tmin && u.tmax * (n + 1) == n * u.tmax + u.tmax;
      AverageStaysBetween(t.rtt, u.tmin, u.tmax, triptime);
    }
  }

  lemma {:induction false} RunIsConsistent(t: Times, n: nat, replies: seq<Reply>)
    requires Consistent(t, n)
    requires forall i :: 0 <= i < |replies| ==> replies[i].Full? ==> replies[i].triptime < LLONG_MAX
    ensures Consistent(After(t, replies), n + TimedCount(replies))
    decreases replies
  {
    if replies != [] {
      match replies[0] {
        case Short => RunIsConsistent(t, n, replies[1..]);
        case Full(triptime) =>
          TimedIsConsistent(t, n, triptime);
          RunIsConsistent(Timed(t, triptime), n + 1, replies[1..]);
      }
    }
  }

  // ----- what the sums are sums of

  /** The times that were measured. */
  function TimesIn(replies: seq<Reply>): seq<nat> {
    if replies == [] then []
    else (match replies[0] case Short => [] case Full(triptime) => [triptime]) + TimesIn(replies[1..])
  }

  function Total(times: seq<nat>): nat {
    if times == [] then 0 else times[0] + Total(times[1..])
  }

  function Squares(times: seq<nat>): nat {
    if times == [] then 0 else times[0] * times[0] + Squares(times[1..])
  }

  /** An average kept eight times enlarged: each new time goes in, an eighth goes out. */
  function Average(start: nat, times: seq<nat>): (r: nat)
    ensures start > 0 ==> r > 0
    decreases |times|
  {
    if times == [] then start else Average(start - start / 8 + times[0], times[1..])
  }

  /** It starts with the first time that is not zero. */
  function Smoothed(times: seq<nat>): nat {
    if times == [] then 0
    else if times[0] == 0 then Smoothed(times[1..])
    else Average(8 * times[0], times[1..])
  }

  lemma {:induction false} TotalPlus(times: seq<nat>, x: nat)
    ensures Total(times + [x]) == Total(times) + x && Squares(times + [x]) == Squares(times) + x * x
  {
    if times == [] {
      assert [] + [x] == [x] && [x][1..] == [];
    } else {
      assert (times + [x])[1..] == times[1..] + [x];
      TotalPlus(times[1..], x);
    }
  }

  lemma {:induction false} AveragePlus(start: nat, times: seq<nat>, x: nat)
    ensures Average(start, times + [x]) == Average(start, times) - Average(start, times) / 8 + x
    decreases |times|
  {
    if times == [] {
      assert [] + [x] == [x] && [x][1..] == [];
    } else {
      assert (times + [x])[1..] == times[1..] + [x];
      AveragePlus(start - start / 8 + times[0], times[1..], x);
    }
  }

  lemma {:induction false} SmoothedPlus(times: seq<nat>, x: nat)
    ensures var r := Smoothed(times); Smoothed(times + [x]) == if r == 0 then 8 * x else r - r / 8 + x
  {
    if times == [] {
      assert [] + [x] == [x] && [x][1..] == [];
    } else {
      assert (times + [x])[1..] == times[1..] + [x];
      if times[0] == 0 {
        SmoothedPlus(times[1..], x);
      } else {
        AveragePlus(8 * times[0], times[1..], x);
      }
    }
  }

  /** The globals are the sum of the times, the sum of their squares, the smallest, the
      largest, and the average. */
  ghost predicate SumsOf(t: Times, times: seq<nat>) {
    && t.tsum == Total(times) && t.tsum2 == Squares(times) && t.rtt == Smoothed(times)
    && (times == [] ==> t.tmin == LLONG_MAX && t.tmax == 0)
    && (times != [] ==> t.tmin in times && t.tmax in times)
    && forall i :: 0 <= i < |times| ==> t.tmin <= times[i] <= t.tmax
  }

  lemma TimedSums(t: Times, times: seq<nat>, x: nat)
    requires SumsOf(t, times) && x < LLONG_MAX
    ensures SumsOf(Timed(t, x), times + [x])
  {
    TotalPlus(times, x);
    SmoothedPlus(times, x);
    hide Total, Squares, Smoothed;
    var more, u := times + [x], Timed(t, x);
    assert more[|times|] == x && forall i :: 0 <= i < |times| ==> more[i] == times[i];
    assert x in more && forall y :: y in times ==> y in more;
  }

  /** So they are after every run. */
  lemma {:induction false} RunSums(t: Times, times: seq<nat>, replies: seq<Reply>)
    requires SumsOf(t, times)
    requires forall i :: 0 <= i < |replies| ==> replies[i].Full? ==> replies[i].triptime < LLONG_MAX
    ensures SumsOf(After(t, replies), times + TimesIn(replies))
    ensures |TimesIn(replies)| == TimedCount(replies)
    decreases replies
  {
    hide SumsOf;
    if replies == [] {
      assert times + [] == times;
    } else {
      match replies[0] {
        case Short =>
          RunSums(t, times, replies[1..]);
          assert [] + TimesIn(replies[1..]) == TimesIn(replies[1..]);
        case Full(triptime) =>
          TimedSums(t, times, triptime);
          RunSums(Timed(t, triptime), times + [triptime], replies[1..]);
          assert times + [triptime] + TimesIn(replies[1..]) == times + ([triptime] + TimesIn(replies[1..]));
      }
    }
  }

  lemma NothingSummed()
    ensures SumsOf(NO_TIMES, [])
  {
  }

  ghost predicate NoneAbove(replies: seq<Reply>, limit: nat) {
    forall i :: 0 <= i < |replies| && replies[i].Full? ==> replies[i].triptime <= limit
  }

  lemma {:induction false} LongestAtMost(t: Times, replies: seq<Reply>, limit: nat)
    requires t.tmax <= limit && NoneAbove(replies, limit)
    ensures After(t, replies).tmax <= limit
    decreases replies
  {
    if replies != [] {
      LongestAtMost(if replies[0].Full? then Timed(t, replies[0].triptime) else t, replies[1..], limit);
    }
  }

  /** The moving average is kept in an int, eight times enlarged. Replies within a
      limit never make it overflow exactly when eight times the limit fits. */
  lemma AverageFitsIff(limit: nat)
    requires limit < LLONG_MAX
    ensures (forall replies :: NoneAbove(replies, limit) ==> 0 <= After(NO_TIMES, replies).rtt <= INT_MAX) <==>
            8 * limit <= INT_MAX
  {
    if 8 * limit <= INT_MAX {
      forall replies | NoneAbove(replies, limit)
        ensures 0 <= After(NO_TIMES, replies).rtt <= INT_MAX
      {
        RunIsConsistent(NO_TIMES, 0, replies);
        LongestAtMost(NO_TIMES, replies, limit);
      }
    } else {
      var replies := [Full(limit)];
      assert NoneAbove(replies, limit) && replies[1..] == [];
      assert After(NO_TIMES, replies) == After(Timed(NO_TIMES, limit), []);
    }
  }

  /** The quotients of finish: the variance is never negative, even when some of
      the replies counted were not timed. */
  lemma VarianceIsNatural(t: Times, timed: nat, counted: nat)
    requires Consistent(t, timed) && timed <= counted && counted > 0
    ensures var mean := t.tsum / counted; t.tsum2 / counted - mean * mean >= 0
  {
    ProductMonotone(t.tsum2, timed, counted);
    MeanSquare(t.tsum, counted, t.tsum2);
  }

  lemma MeanSquare(sum: nat, n: nat, sum2: nat)
    requires n > 0 && sum * sum <= n * sum2
    ensures (sum / n) * (sum / n) <= sum2 / n
  {
    var mean := sum / n;
    assert n * mean <= sum;
    MulMonotone(n * mean, sum);
    SquareOfProduct(n, mean);
    CancelFactor(n, n * (mean * mean), sum2);
    QuotientAtLeast(sum2, n, mean * mean);
  }

  lemma SquareOfProduct(n: int, m: int)
    ensures (n * m) * (n * m) == n * (n * (m * m))
  {
  }

  lemma CancelFactor(n: int, a: int, b: int)
    requires n > 0 && n * a <= n * b
    ensures a <= b
  {
  }

  lemma QuotientAtLeast(a: nat, n: nat, q: nat)
    requires n > 0 && n * q <= a
    ensures a / n >= q
  {
    if a / n < q {
      ProductMonotone(n, a / n + 1, q);
    }
  }

  /** The statistics part of finish: the mean is that of the times, over the replies
      counted, and the deviation the root of the variance. */
  method Summarise(t: Times, nreceived: nat, nrepeats: nat, ghost times: seq<nat>) returns (tavg: int, tmdev: int)
    requires nreceived > 0 && |times| <= nreceived + nrepeats && SumsOf(t, times) && Consistent(t, |times|)
    requires t.tsum2 <= LLONG_MAX
    ensures var n := nreceived + nrepeats;
            var variance := Squares(times) / n - tavg * tavg;
            && tavg == Total(times) / n && variance >= 0
            && if variance == 0 || variance == LLONG_MAX then tmdev == variance else IsRoot(tmdev, variance + 1)
  {
    var n := nreceived + nrepeats;
    VarianceIsNatural(t, |times|, n);
    var tsum, tsum2 := t.tsum / n, t.tsum2 / n;
    tavg := tsum;
    SquareIsNatural(tsum);
    QuotientAtMost(t.tsum2, n);
    tmdev := Llsqrt(tsum2 - tsum * tsum);
  }

  lemma QuotientAtMost(a: nat, n: nat)
    requires n > 0
    ensures a / n <= a
  {
    ProductMonotone(a / n, 1, n);
  }

  // ----- the round trip time of a reply

  /** A negative time is taken as zero. The first time that happens, the clock is
      read again and the latency option set; the second reading counts. */
  function TripTime(first: int, second: int, latency: bool): (nat, bool) {
    if first >= 0 then (first, latency)
    else if latency then (0, true)
    else (if second < 0 then 0 else second, true)
  }

  /** That is the reading that counts, or zero if it is negative; and a negative first
      reading sets the option. */
  lemma TripTimeIs(first: int, second: int, latency: bool)
    ensures var (trip, option) := TripTime(first, second, latency);
            var reading := if first < 0 && !latency then second else first;
            && trip >= reading && (trip == reading || (trip == 0 && reading < 0))
            && option == (latency || first < 0)
  {
  }
}
