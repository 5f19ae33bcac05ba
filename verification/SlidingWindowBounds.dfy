/** What the limiter guarantees over every run: how many requests any stretch of time can hold,
    when a refusal ends, and when the long-window refusal can occur at all. */
module SlidingWindowBounds {
  import opened Quotas
  import opened SlidingWindow

  /** How many timestamps lie in the half-open interval from `lo` to `hi`. */
  function Count(log: seq<int>, lo: int, hi: int): nat {
    if log == [] then 0
    else
      var last := log[|log| - 1];
      Count(log[..|log| - 1], lo, hi) + (if lo <= last < hi then 1 else 0)
  }

  /** Each timestamp found fewer than `n` recent ones when it was accepted. */
  ghost predicate Sparse(log: seq<int>, span: nat, n: nat) {
    log == [] ||
    var pre, t := log[..|log| - 1], log[|log| - 1];
    Sparse(pre, span, n) && UpTo(pre, t) && |Recent(pre, t, span)| < n
  }

  lemma {:induction false} ProducedSparse(c: Config, log: seq<int>)
    requires Produced(c, log)
    ensures Sparse(log, c.windowMs, c.limit)
    ensures c.HasBurst() ==> Sparse(log, c.BurstSpan(), c.burstLimit)
  {
    if log != [] { ProducedSparse(c, log[..|log| - 1]); }
  }

  /** An interval that ends after `t` and is at most `span` long only holds timestamps recent at `t`. */
  lemma {:induction false} CountWithinRecent(log: seq<int>, t: int, span: int, lo: int, hi: int)
    requires t - span < lo
    ensures Count(log, lo, hi) <= |Recent(log, t, span)|
  {
    if log != [] { CountWithinRecent(log[..|log| - 1], t, span, lo, hi); }
  }

  lemma {:induction false} SparseBound(log: seq<int>, span: nat, n: nat, lo: int)
    requires Sparse(log, span, n)
    ensures Count(log, lo, lo + span) <= n
  {
    if log != [] {
      var pre, t := log[..|log| - 1], log[|log| - 1];
      if lo <= t < lo + span {
        CountWithinRecent(pre, t, span, lo, lo + span);
      } else {
        SparseBound(pre, span, n, lo);
      }
    }
  }

  /** In every run, any interval of length `windowMs` holds at most `limit` acceptances, and any
      interval of the burst span at most `burstLimit`. */
  lemma IntervalBound(c: Config, log: seq<int>, lo: int)
    requires Produced(c, log)
    ensures Count(log, lo, lo + c.windowMs) <= c.limit
    ensures c.HasBurst() ==> Count(log, lo, lo + c.BurstSpan()) <= c.burstLimit
  {
    ProducedSparse(c, log);
    SparseBound(log, c.windowMs, c.limit, lo);
    if c.HasBurst() { SparseBound(log, c.BurstSpan(), c.burstLimit, lo); }
  }

  // ── Refusals ──────────────────────────────────────────────────────────────────────────────

  lemma {:induction false} ProducedSorted(c: Config, log: seq<int>)
    requires Produced(c, log)
    ensures Sorted(log)
  {
    if log != [] { ProducedSorted(c, log[..|log| - 1]); }
  }

  /** The timestamps from `k` on are the recent ones. */
  predicate TailFrom(log: seq<int>, now: int, span: int, k: nat) {
    && k <= |log| && Recent(log, now, span) == log[k..]
    && forall i :: 0 <= i < |log| ==> (now - log[i] < span <==> i >= k)
  }

  lemma TailGrows(log: seq<int>, t: int, now: int, span: int, k: nat)
    requires TailFrom(log, now, span, k) && now - t < span
    ensures TailFrom(log + [t], now, span, k)
  {
    RecentAppend(log, t, now, span);
    assert (log + [t])[k..] == log[k..] + [t];
  }

  lemma NoneRecent(log: seq<int>, now: int, span: int)
    requires UpTo(log, now - span)
    ensures TailFrom(log, now, span, |log|)
  {
    AllStale(log, now, span);
    assert log[|log|..] == [];
  }

  /** In a sorted log the recent timestamps are the tail that begins at the first recent one. */
  lemma {:induction false} RecentIsTail(log: seq<int>, now: int, span: int)
    requires Sorted(log)
    ensures |Recent(log, now, span)| <= |log| && TailFrom(log, now, span, |log| - |Recent(log, now, span)|)
  {
    if log == [] || now - log[|log| - 1] >= span {
      NoneRecent(log, now, span);
    } else {
      var pre, t := log[..|log| - 1], log[|log| - 1];
      assert log == pre + [t];
      RecentIsTail(pre, now, span);
      TailGrows(pre, t, now, span, |pre| - |Recent(pre, now, span)|);
    }
  }

  /** The `n`-th latest timestamp, if there is one, has left the window. */
  predicate Clear(log: seq<int>, n: nat, span: int, now: int)
    requires n > 0
  {
    |log| < n || now - log[|log| - n] >= span
  }

  /** Closed form: the verdict depends on two timestamps only. */
  lemma DecideClosedForm(c: Config, log: seq<int>, now: int)
    requires Sorted(log)
    ensures Decide(c, log, now) == Allowed
       <==> Clear(log, c.limit, c.windowMs, now)
            && (c.burstLimit > 0 && c.burstWindowMs > 0 ==> Clear(log, c.burstLimit, c.BurstSpan(), now))
  {
    RecentIsTail(log, now, c.windowMs);
    RecentIsTail(log, now, c.BurstSpan());
  }

  /** The long window, not the burst cap, is what refuses. */
  predicate LongRefusal(c: Config, log: seq<int>, now: int) {
    |Recent(log, now, c.windowMs)| >= c.limit
  }

  lemma {:induction false} RecentIsCount(log: seq<int>, now: int, span: int)
    requires UpTo(log, now)
    ensures |Recent(log, now, span)| == Count(log, now - span + 1, now + 1)
  {
    if log != [] { RecentIsCount(log[..|log| - 1], now, span); }
  }

  /** A window in force is exactly full, never more than full. */
  lemma FullIsExact(c: Config, log: seq<int>, now: int)
    requires Produced(c, log) && UpTo(log, now)
    ensures |Recent(log, now, c.windowMs)| <= c.limit
    ensures c.HasBurst() ==> |Recent(log, now, c.BurstSpan())| <= c.burstLimit
  {
    IntervalBound(c, log, now - c.windowMs + 1);
    RecentIsCount(log, now, c.windowMs);
    if c.HasBurst() {
      IntervalBound(c, log, now - c.BurstSpan() + 1);
      RecentIsCount(log, now, c.BurstSpan());
    }
  }

  lemma BurstRefusalShape(c: Config, log: seq<int>, now: int)
    requires Produced(c, log) && UpTo(log, now)
    requires Decide(c, log, now) != Allowed && !LongRefusal(c, log, now)
    ensures c.HasBurst() && |log| >= c.burstLimit
    ensures Clear(log, c.limit, c.windowMs, now)
    ensures Decide(c, log, now) == Refused(RetryAfter(log[|log| - c.burstLimit], c.burstWindowMs, now))
  {
    ProducedSorted(c, log);
    FullIsExact(c, log, now);
    RecentIsTail(log, now, c.windowMs);
    RecentIsTail(log, now, c.BurstSpan());
  }

  /** A burst refusal lasts, with no acceptance in between, exactly until the oldest burst
      timestamp leaves the burst span; waiting the returned seconds is enough. If the burst window
      is not the longer one, no smaller whole number of seconds is enough, unless that number is
      already the minimum of one. */
  lemma {:induction false} BurstRefusalEnds(c: Config, log: seq<int>, now: int, seconds: int)
    requires Produced(c, log) && UpTo(log, now)
    requires Decide(c, log, now) == Refused(seconds) && !LongRefusal(c, log, now)
    ensures c.HasBurst() && |log| >= c.burstLimit
    ensures forall later :: now <= later ==>
              (Decide(c, log, later) == Allowed <==> later >= log[|log| - c.burstLimit] + c.BurstSpan())
    ensures Decide(c, log, now + 1000 * seconds) == Allowed
    ensures c.burstWindowMs <= c.windowMs && seconds > 1 ==>
              forall fewer :: 0 <= fewer < seconds ==> Decide(c, log, now + 1000 * fewer) != Allowed
  {
    ProducedSorted(c, log);
    BurstRefusalShape(c, log, now);
    forall later | now <= later
      ensures Decide(c, log, later) == Allowed <==> later >= log[|log| - c.burstLimit] + c.BurstSpan()
    {
      DecideClosedForm(c, log, later);
    }
    var oldest := log[|log| - c.burstLimit];
    assert seconds == RetryAfter(oldest, c.burstWindowMs, now);
    WaitCovers(oldest, c.burstWindowMs, now);
  }

  /** The announced seconds reach the end of the span, and fewer, above one, do not. */
  lemma WaitCovers(oldest: int, span: int, now: int)
    ensures var seconds := RetryAfter(oldest, span, now);
            && seconds >= 1 && now + 1000 * seconds >= oldest + span
            && (seconds > 1 ==> now + 1000 * (seconds - 1) < oldest + span)
  {
  }

  /** After a long-window refusal the returned wait always clears the long window; the retry is
      then accepted exactly when the burst cap is clear as well. */
  lemma LongRefusalEnds(c: Config, log: seq<int>, now: int, seconds: int)
    requires Produced(c, log) && UpTo(log, now)
    requires Decide(c, log, now) == Refused(seconds) && LongRefusal(c, log, now)
    ensures Decide(c, log, now + 1000 * seconds) == Allowed
       <==> (c.HasBurst() ==> Clear(log, c.burstLimit, c.BurstSpan(), now + 1000 * seconds))
    ensures seconds > 1 ==> !Clear(log, c.limit, c.windowMs, now + 1000 * (seconds - 1))
  {
    ProducedSorted(c, log);
    FullIsExact(c, log, now);
    RecentIsTail(log, now, c.windowMs);
    DecideClosedForm(c, log, now + 1000 * seconds);
  }

  // ── When the burst cap alone is binding ───────────────────────────────────────────────────

  lemma {:induction false} CountSplit(log: seq<int>, lo: int, mid: int, hi: int)
    requires lo <= mid <= hi
    ensures Count(log, lo, hi) == Count(log, lo, mid) + Count(log, mid, hi)
  {
    if log != [] { CountSplit(log[..|log| - 1], lo, mid, hi); }
  }

  /** Intervals of many spans hold at most as many times the bound. */
  lemma {:induction false} ManySpans(log: seq<int>, span: nat, n: nat, lo: int, k: nat)
    requires Sparse(log, span, n)
    ensures Count(log, lo, lo + k * span) <= k * n
    decreases k
  {
    if k == 0 {
      CountSplit(log, lo, lo, lo);
    } else {
      assert k * span == (k - 1) * span + span;
      assert k * n == (k - 1) * n + n;
      ManySpans(log, span, n, lo, k - 1);
      CountSplit(log, lo, lo + (k - 1) * span, lo + k * span);
      SparseBound(log, span, n, lo + (k - 1) * span);
    }
  }

  /** The burst cap fills the long window at most this often. */
  predicate BurstBinds(c: Config) {
    c.HasBurst() && c.BurstSpan() > 0 && CeilDiv(c.windowMs, c.BurstSpan()) * c.burstLimit < c.limit
  }

  lemma LongWindowUnreachable(c: Config, log: seq<int>, now: int)
    requires Produced(c, log) && UpTo(log, now) && BurstBinds(c)
    ensures !LongRefusal(c, log, now)
  {
    var span := c.BurstSpan();
    var k := CeilDiv(c.windowMs, span);
    var lo := now - c.windowMs + 1;
    RecentIsCount(log, now, c.windowMs);
    ProducedSparse(c, log);
    ManySpans(log, span, c.burstLimit, lo, k);
    assert lo + c.windowMs <= lo + k * span;
    CountSplit(log, lo, now + 1, lo + k * span);
  }

  /** In both shipped tiers the long-window refusal is unreachable, so a client that honours
      Retry-After is always served on its retry. */
  lemma ShippedTiersHonourRetryAfter(c: Config, log: seq<int>, now: int, seconds: int)
    requires c == PARTNER || c == INTERNAL
    requires Produced(c, log) && UpTo(log, now)
    requires Decide(c, log, now) == Refused(seconds)
    ensures !LongRefusal(c, log, now)
    ensures Decide(c, log, now + 1000 * seconds) == Allowed
  {
    assert CeilDiv(60_000, 10_000) == 6;
    LongWindowUnreachable(c, log, now);
    BurstRefusalEnds(c, log, now, seconds);
  }

  /** The shipped tiers: a partner key is let through at most 50 times in 10 seconds and 300 times in a
      minute, an internal one 200 and 1200 times, whatever the long limit of 1000 or 5000 would allow. */
  lemma ShippedTiersAllow(log: seq<int>, lo: int)
    ensures PARTNER.limit == 1000 && INTERNAL.limit == 5000
    ensures Produced(PARTNER, log) ==> Count(log, lo, lo + 10_000) <= 50 && Count(log, lo, lo + 60_000) <= 300
    ensures Produced(INTERNAL, log) ==> Count(log, lo, lo + 10_000) <= 200 && Count(log, lo, lo + 60_000) <= 1200
    ensures PARTNER.burstLimit == 50 && INTERNAL.burstLimit == 200
    ensures PARTNER.BurstSpan() == INTERNAL.BurstSpan() == 10_000 && PARTNER.windowMs == INTERNAL.windowMs == 60_000
  {
    if Produced(PARTNER, log) {
      ProducedSparse(PARTNER, log);
      SparseBound(log, 10_000, 50, lo);
      ManySpans(log, 10_000, 50, lo, 6);
    }
    if Produced(INTERNAL, log) {
      ProducedSparse(INTERNAL, log);
      SparseBound(log, 10_000, 200, lo);
      ManySpans(log, 10_000, 200, lo, 6);
    }
  }

  // ── Where the two windows are nested ──────────────────────────────────────────────────────

  /** The verdict if the burst cap looked at every acceptance instead of those left in the window. */
  function DecideSeparately(c: Config, log: seq<int>, now: int): Verdict {
    var window := Recent(log, now, c.windowMs);
    var burst := Recent(log, now, c.burstWindowMs);
    if |window| >= c.limit then Refused(RetryAfter(window[0], c.windowMs, now))
    else if c.HasBurst() && |burst| >= c.burstLimit then
      Refused(RetryAfter(burst[0], c.burstWindowMs, now))
    else Allowed
  }

  /** The burst window is not the longer one, or the limit never lets it fill up. */
  predicate BurstSeesEverything(c: Config) {
    || !c.HasBurst() || c.burstWindowMs <= c.windowMs
    || (c.windowMs > 0 && CeilDiv(c.burstWindowMs, c.windowMs) * c.limit <= c.burstLimit)
  }

  /** If the long window admits less than `limit` now, a burst window over `k` of them has seen less
      than `k` times the limit. */
  lemma {:induction false} LongerBurstNeverFull(c: Config, log: seq<int>, now: int)
    requires Produced(c, log) && UpTo(log, now) && c.windowMs > 0 && c.burstWindowMs > c.windowMs
    requires |Recent(log, now, c.windowMs)| < c.limit
    ensures |Recent(log, now, c.burstWindowMs)| < CeilDiv(c.burstWindowMs, c.windowMs) * c.limit
  {
    var k := CeilDiv(c.burstWindowMs, c.windowMs);
    var mid := now - c.windowMs + 1;
    var lo := mid - (k - 1) * c.windowMs;
    ProducedSparse(c, log);
    CeilDivAbove(c.burstWindowMs, c.windowMs);
    ManySpans(log, c.windowMs, c.limit, lo, k - 1);
    RecentIsCount(log, now, c.windowMs);
    RecentIsCount(log, now, c.burstWindowMs);
    assert (k - 1) * c.windowMs == k * c.windowMs - c.windowMs && (k - 1) * c.limit == k * c.limit - c.limit;
    CountSplit(log, lo, mid, now + 1);
    CountSplit(log, lo, now - c.burstWindowMs + 1, now + 1);
  }

  lemma CeilDivAbove(a: int, b: Positive)
    requires a > b
    ensures CeilDiv(a, b) >= 2
  {
    var q := CeilDiv(a, b);
    if q <= 1 {
      MulMonotone(q, 1, b);
      assert false;
    }
  }

  lemma MulMonotone(x: int, y: int, b: nat)
    requires x <= y
    ensures b * x <= b * y
  {
  }

  // A run in which as many requests are accepted as early as the limits allow.

  /** When the `n`-th request is accepted if `m` are accepted at each step. */
  function StepTime(m: Positive, step: nat, n: nat): (t: nat)
  {
    (n / m) * step
  }

  /** `n` acceptances, `m` at a time, a step apart. */
  function Stairs(m: Positive, step: nat, n: nat): seq<int> {
    if n == 0 then [] else Stairs(m, step, n - 1) + [StepTime(m, step, n - 1)]
  }

  lemma ProductAtMost(q: nat, k: nat, m: Positive)
    requires q * m < (k + 1) * m
    ensures q <= k
  {
    if q > k {
      MulMonotone(k + 1, q, m);
      assert false;
    }
  }

  lemma DivBounds(n: nat, m: Positive)
    ensures (n / m) * m <= n < (n / m + 1) * m
  {
  }

  /** Up to the end of step `q` no acceptance is later than that step; before its beginning each is
      at least one step earlier. */
  lemma StepTimes(m: Positive, step: nat, n: nat, q: nat)
    ensures n < (q + 1) * m ==> StepTime(m, step, n) <= q * step
    ensures n < q * m ==> StepTime(m, step, n) <= q * step - step
  {
    DivBounds(n, m);
    if n < (q + 1) * m {
      ProductAtMost(n / m, q, m);
      MulMonotone(n / m, q, step);
    }
    if n < q * m {
      ProductAtMost(n / m, q - 1, m);
      MulMonotone(n / m + 1, q, step);
    }
  }

  predicate Within(log: seq<int>, lo: int, hi: int) {
    forall i :: 0 <= i < |log| ==> lo <= log[i] <= hi
  }

  lemma WithinAppend(log: seq<int>, t: int, lo: int, hi: int)
    requires Within(log, lo, hi) && lo <= t <= hi
    ensures Within(log + [t], lo, hi)
  {
  }

  lemma {:induction false} StairsWithin(m: Positive, step: nat, n: nat, q: nat)
    requires n <= (q + 1) * m
    ensures |Stairs(m, step, n)| == n && Within(Stairs(m, step, n), 0, q * step)
  {
    if n > 0 {
      StairsWithin(m, step, n - 1, q);
      StepTimes(m, step, n - 1, q);
      WithinAppend(Stairs(m, step, n - 1), StepTime(m, step, n - 1), 0, q * step);
    }
  }

  /** At the time `now` of a step that begins with number `first`, only what was accepted on that
      step is recent. */
  lemma {:induction false} StairsRecent(m: Positive, step: nat, n: nat, q: nat, first: nat, now: nat)
    requires first == q * m && now == q * step
    ensures |Recent(Stairs(m, step, n), now, step)| <= if n > first then n - first else 0
  {
    if n > 0 {
      StairsRecent(m, step, n - 1, q, first, now);
      StepTimes(m, step, n - 1, q);
      RecentAppend(Stairs(m, step, n - 1), StepTime(m, step, n - 1), now, step);
    }
  }

  /** When the next is due, fewer than `m` are recent. */
  lemma {:induction false} StairsTop(m: Positive, step: nat, n: nat)
    ensures var log, now := Stairs(m, step, n), StepTime(m, step, n);
            |log| == n && Within(log, 0, now) && UpTo(log, now) && |Recent(log, now, step)| < m
  {
    var q := n / m;
    DivBounds(n, m);
    StairsWithin(m, step, n, q);
    StairsRecent(m, step, n, q, q * m, q * step);
  }

  lemma AllowedOnStep(c: Config, log: seq<int>, now: int)
    requires c.burstWindowMs > c.windowMs
    requires |Recent(log, now, c.windowMs)| < c.limit && |Recent(log, now, c.windowMs)| < c.burstLimit
    ensures Decide(c, log, now) == Allowed
  {
  }

  lemma ProducedAppend(c: Config, log: seq<int>, t: int)
    requires Produced(c, log) && UpTo(log, t) && Decide(c, log, t) == Allowed
    ensures Produced(c, log + [t])
  {
    assert (log + [t])[..|log|] == log;
  }

  lemma {:induction false} StairsProduced(c: Config, m: Positive, n: nat)
    requires m <= c.limit && m <= c.burstLimit && c.burstWindowMs > c.windowMs
    ensures Produced(c, Stairs(m, c.windowMs, n))
  {
    if n > 0 {
      var pre, t := Stairs(m, c.windowMs, n - 1), StepTime(m, c.windowMs, n - 1);
      StairsProduced(c, m, n - 1);
      StairsTop(m, c.windowMs, n - 1);
      AllowedOnStep(c, pre, t);
      ProducedAppend(c, pre, t);
    }
  }

  lemma {:induction false} AllRecent(log: seq<int>, now: int, span: int)
    requires forall i :: 0 <= i < |log| ==> now - log[i] < span
    ensures Recent(log, now, span) == log
  {
    if log != [] {
      AllRecent(log[..|log| - 1], now, span);
      assert log == log[..|log| - 1] + [log[|log| - 1]];
    }
  }

  lemma StairsInBurst(c: Config, m: Positive)
    requires !BurstSeesEverything(c)
    requires m == if c.limit < c.burstLimit then c.limit else c.burstLimit
    ensures StepTime(m, c.windowMs, c.burstLimit) < c.burstWindowMs
  {
    var q := c.burstLimit / m;
    DivBounds(c.burstLimit, m);
    if c.windowMs > 0 {
      var k := CeilDiv(c.burstWindowMs, c.windowMs);
      CeilDivAbove(c.burstWindowMs, c.windowMs);
      var most := if c.limit < c.burstLimit then k - 1 else 1;
      ProductAtMost(q, most, m);
      MulMonotone(q, most, c.windowMs);
      assert c.windowMs * (k - 1) == c.windowMs * k - c.windowMs;
    }
  }

  /** Otherwise a run fills the longer burst window while the long window is not full. */
  lemma BurstMissesSome(c: Config) returns (log: seq<int>, now: int)
    requires !BurstSeesEverything(c)
    ensures Produced(c, log) && UpTo(log, now)
    ensures Decide(c, log, now) == Allowed && DecideSeparately(c, log, now) != Allowed
  {
    var m: Positive := if c.limit < c.burstLimit then c.limit else c.burstLimit;
    log, now := Stairs(m, c.windowMs, c.burstLimit), StepTime(m, c.windowMs, c.burstLimit);
    StairsProduced(c, m, c.burstLimit);
    StairsTop(m, c.windowMs, c.burstLimit);
    StairsInBurst(c, m);
    AllRecent(log, now, c.burstWindowMs);
    AllowedOnStep(c, log, now);
  }

  /** Over every run, picking burst timestamps from those left in the long window decides as picking
      them from all acceptances would, if and only if the burst window is not the longer one, or the
      limit keeps the longer burst window from ever filling up. */
  lemma BurstSeesEverythingIff(c: Config)
    ensures (forall log, now :: Produced(c, log) && UpTo(log, now) ==>
               Decide(c, log, now) == DecideSeparately(c, log, now))
       <==> BurstSeesEverything(c)
  {
    if BurstSeesEverything(c) {
      forall log, now | Produced(c, log) && UpTo(log, now)
        ensures Decide(c, log, now) == DecideSeparately(c, log, now)
      {
        if c.HasBurst() && c.burstWindowMs > c.windowMs && !LongRefusal(c, log, now) {
          LongerBurstNeverFull(c, log, now);
          WindowWithinBurst(log, now, c.windowMs, c.burstWindowMs);
        }
      }
    } else {
      var log, now := BurstMissesSome(c);
      assert Produced(c, log) && UpTo(log, now) && Decide(c, log, now) != DecideSeparately(c, log, now);
    }
  }

  lemma {:induction false} WindowWithinBurst(log: seq<int>, now: int, span: int, longer: int)
    requires span <= longer
    ensures |Recent(log, now, span)| <= |Recent(log, now, longer)|
  {
    if log != [] { WindowWithinBurst(log[..|log| - 1], now, span, longer); }
  }
}
