/** Bounded retries with capped exponential backoff (`withRetry` in frontend/lib/resilience.ts). */
module Retry {
  import opened Options

  /** One attempt: what `fn` settled to, a timeout being an error like any other. */
  datatype Outcome<+T, +E> = Ok(value: T) | Err(error: E)

  datatype Result<+T, +E> = Returned(value: T) | Rethrown(error: E) | Exhausted(attempts: int, cause: Option<E>)

  datatype RetryConfig = RetryConfig(maxAttempts: int, baseDelayMs: nat, maxDelayMs: nat)

  function Pow2(n: nat): nat {
    if n == 0 then 1 else 2 * Pow2(n - 1)
  }

  /** Nearest integer, halves upwards. */
  function Round(x: real): int {
    (x + 0.5).Floor
  }

  function CappedDelay(attempt: int, base: nat, cap: nat): nat
    requires attempt >= 1
  {
    var exponential := base * Pow2(attempt - 1);
    if exponential < cap then exponential else cap
  }

  function BackoffMs(attempt: int, base: nat, cap: nat, random: real): int
    requires attempt >= 1
  {
    Round(CappedDelay(attempt, base, cap) as real * (0.9 + random * 0.2))
  }

  function Sum(xs: seq<int>): int {
    if xs == [] then 0 else Sum(xs[..|xs| - 1]) + xs[|xs| - 1]
  }

  /** Without jitter, the delay starts at the base and doubles until it reaches the cap. */
  lemma DelayDoubles(attempt: int, base: nat, cap: nat)
    requires attempt >= 1
    ensures CappedDelay(1, base, cap) == if base < cap then base else cap
    ensures var doubled := 2 * CappedDelay(attempt, base, cap);
            CappedDelay(attempt + 1, base, cap) == if doubled < cap then doubled else cap
  {
    assert base * Pow2(attempt) == 2 * (base * Pow2(attempt - 1));
  }

  /** Without jitter, a later attempt never waits less. */
  lemma {:induction false} CappedDelayMonotone(early: int, late: int, base: nat, cap: nat)
    requires 1 <= early <= late
    ensures CappedDelay(early, base, cap) <= CappedDelay(late, base, cap)
    decreases late
  {
    if early < late {
      CappedDelayMonotone(early, late - 1, base, cap);
      DelayDoubles(late - 1, base, cap);
    }
  }

  lemma RoundMonotone(x: real, y: real)
    requires x <= y
    ensures Round(x) <= Round(y)
  {
  }

  lemma ProductMonotone(x: real, low: real, high: real)
    requires 0.0 <= x && low <= high
    ensures x * low <= x * high
  {
  }

  /** Jitter moves a delay by at most a tenth either way, and the cap bounds it. */
  lemma BackoffWithin(attempt: int, base: nat, cap: nat, random: real)
    requires attempt >= 1 && 0.0 <= random < 1.0
    ensures var delay := CappedDelay(attempt, base, cap) as real;
            Round(delay * 0.9) <= BackoffMs(attempt, base, cap, random) <= Round(delay * 1.1)
    ensures 0 <= BackoffMs(attempt, base, cap, random) <= Round(cap as real * 1.1)
  {
    var delay := CappedDelay(attempt, base, cap) as real;
    var factor := 0.9 + random * 0.2;
    ProductMonotone(delay, 0.9, factor);
    ProductMonotone(delay, factor, 1.1);
    RoundMonotone(delay * 0.9, delay * factor);
    RoundMonotone(delay * factor, delay * 1.1);
    RoundMonotone(delay * 1.1, cap as real * 1.1);
    RoundMonotone(0.0, delay * 0.9);
  }

  /** Jitter is even: the delay is moved from a tenth less to a tenth more as the random number goes
      from zero to one, then rounded to the nearest millisecond. */
  lemma JitterIsEven(attempt: int, base: nat, cap: nat, random: real)
    requires attempt >= 1
    ensures var delay := CappedDelay(attempt, base, cap) as real;
            var moved := delay + delay / 10.0 * (2.0 * random - 1.0);
            moved - 0.5 < BackoffMs(attempt, base, cap, random) as real <= moved + 0.5
  {
    var delay := CappedDelay(attempt, base, cap) as real;
    assert delay + delay / 10.0 * (2.0 * random - 1.0) == delay * (0.9 + random * 0.2);
  }

  lemma SumAdds(xs: seq<int>, x: int)
    ensures Sum([]) == 0 && Sum(xs + [x]) == Sum(xs) + x
  {
    assert (xs + [x])[..|xs|] == xs;
  }

  /** All waits of a call together. */
  lemma {:induction false} WaitsAddUp(waits: seq<int>, base: nat, cap: nat, random: nat -> real)
    requires forall k :: 0.0 <= random(k) < 1.0
    requires forall i :: 0 <= i < |waits| ==> waits[i] == BackoffMs(i + 1, base, cap, random(i + 1))
    ensures 0 <= Sum(waits) <= |waits| * Round(cap as real * 1.1)
  {
    if waits != [] {
      var n := |waits| - 1;
      WaitsAddUp(waits[..n], base, cap, random);
      BackoffWithin(n + 1, base, cap, random(n + 1));
      OneMoreTimes(n, Round(cap as real * 1.1));
    }
  }

  lemma OneMoreTimes(n: nat, most: int)
    ensures (n + 1) * most == n * most + most
  {
  }

  predicate Transient<T, E>(outcome: Outcome<T, E>, isPermanent: E -> bool) {
    outcome.Err? && !isPermanent(outcome.error)
  }

  /** `fn(k)` is what the k-th attempt would settle to, `random(k)` its jitter. Besides the result,
      the method reports how often `fn` was called, what `onRetry` was given and every wait. */
  method WithRetry<T, E>(
    fn: nat -> Outcome<T, E>, isPermanent: E -> bool, random: nat -> real, config: RetryConfig)
    returns (result: Result<T, E>, calls: nat, retries: seq<(int, E)>, waits: seq<int>)
    requires forall k :: 0.0 <= random(k) < 1.0
    ensures calls <= if config.maxAttempts > 0 then config.maxAttempts else 0
    ensures forall k :: 1 <= k < calls ==> Transient(fn(k), isPermanent)
    ensures match result
            case Returned(v) => calls >= 1 && fn(calls) == Ok(v)
            case Rethrown(e) => calls >= 1 && fn(calls) == Err(e) && isPermanent(e)
            case Exhausted(attempts, cause) =>
              && attempts == config.maxAttempts
              && (calls == config.maxAttempts || (calls == 0 && config.maxAttempts < 0))
              && (calls > 0 ==> Transient(fn(calls), isPermanent) && cause == Some(fn(calls).error))
              && (calls == 0 ==> cause == None)
    ensures |retries| == |waits| == if calls == 0 then 0 else calls - 1
    ensures forall i :: 0 <= i < |retries| ==>
              && fn(i + 1).Err? && retries[i] == (i + 1, fn(i + 1).error)
              && waits[i] == BackoffMs(i + 1, config.baseDelayMs, config.maxDelayMs, random(i + 1))
    ensures 0 <= Sum(waits) <= |waits| * Round(config.maxDelayMs as real * 1.1)
  {
    var lastError: Option<E> := None;
    calls, retries, waits := 0, [], [];
    var attempt := 1;
    while attempt <= config.maxAttempts
      invariant attempt >= 1 && calls == attempt - 1
      invariant calls <= if config.maxAttempts > 0 then config.maxAttempts else 0
      invariant forall k :: 1 <= k <= calls ==> Transient(fn(k), isPermanent)
      invariant lastError == if calls == 0 then None else Some(fn(calls).error)
      invariant |retries| == |waits| ==
                  if calls < config.maxAttempts then calls else if calls == 0 then 0 else calls - 1
      invariant forall i :: 0 <= i < |retries| ==>
                  && fn(i + 1).Err? && retries[i] == (i + 1, fn(i + 1).error)
                  && waits[i] == BackoffMs(i + 1, config.baseDelayMs, config.maxDelayMs, random(i + 1))
      decreases config.maxAttempts - attempt
    {
      calls := calls + 1;
      WaitsAddUp(waits, config.baseDelayMs, config.maxDelayMs, random);
      match fn(attempt) {
        case Ok(v) => return Returned(v), calls, retries, waits;
        case Err(err) =>
          lastError := Some(err);
          if isPermanent(err) {
            return Rethrown(err), calls, retries, waits;
          }
          if attempt < config.maxAttempts {
            retries := retries + [(attempt, err)];
            var delay := BackoffMs(attempt, config.baseDelayMs, config.maxDelayMs, random(attempt));
            waits := waits + [delay];
          }
      }
      attempt := attempt + 1;
    }
    WaitsAddUp(waits, config.baseDelayMs, config.maxDelayMs, random);
    return Exhausted(config.maxAttempts, lastError), calls, retries, waits;
  }
}
