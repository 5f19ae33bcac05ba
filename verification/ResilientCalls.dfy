/** Retries behind the shared breaker (`withContractRetry`, `withContractWriteRetry` in
    frontend/lib/resilience.ts). The two differ only in their defaults, which `config` stands for. */
module ResilientCalls {
  import opened Options
  import opened Retry
  import CircuitBreaking

  datatype CallResult<+T, +E> = CircuitOpen | Settled(result: Result<T, E>)

  /** A whole call, no other call overlapping it. Exhausted retries and permanent errors count as
      one failure of the breaker, however many attempts were made; a refused call makes none. */
  method CallWithRetry<T, E>(
    breaker: CircuitBreaking.CircuitBreaker, fn: nat -> Outcome<T, E>, isPermanent: E -> bool,
    random: nat -> real, config: RetryConfig, start: int, finish: int)
    returns (outcome: CallResult<T, E>, calls: nat)
    requires breaker.Valid() && breaker.Now(start) && start <= finish
    requires forall k :: 0.0 <= random(k) < 1.0
    modifies breaker
    ensures breaker.Valid()
    ensures var shut := CircuitBreaking.ShutOut(breaker.config, old(breaker.history), start);
            && (outcome == CircuitOpen <==> shut)
            && breaker.history == old(breaker.history) +
                 (if shut then [CircuitBreaking.Refused(start)]
                  else if outcome.result.Returned? then
                    [CircuitBreaking.Admitted(start), CircuitBreaking.Succeeded(finish)]
                  else [CircuitBreaking.Admitted(start), CircuitBreaking.Failed(finish)])
    ensures outcome == CircuitOpen ==> calls == 0
    ensures calls <= MostAttempts(config)
    ensures forall k :: 1 <= k < calls ==> Transient(fn(k), isPermanent)
    ensures match outcome
            case Settled(Returned(v)) => calls >= 1 && fn(calls) == Ok(v)
            case Settled(Rethrown(e)) => calls >= 1 && fn(calls) == Err(e) && isPermanent(e)
            case Settled(Exhausted(n, cause)) =>
              && n == config.maxAttempts && (n >= 0 ==> calls == n)
              && (if calls > 0 then Transient(fn(calls), isPermanent) && cause == Some(fn(calls).error)
                  else cause == None)
            case CircuitOpen => true
  {
    var admitted := breaker.Begin(start);
    if admitted {
      CircuitBreaking.HistoryGrows(old(breaker.history), CircuitBreaking.Admitted(start));
      CircuitBreaking.InFlightNonNegative(breaker.config, old(breaker.history));
      var result, attempts, _, _ := WithRetry(fn, isPermanent, random, config);
      Complete(breaker, result.Returned?, finish);
      outcome, calls := Settled(result), attempts;
    } else {
      outcome, calls := CircuitOpen, 0;
    }
  }

  method Complete(breaker: CircuitBreaking.CircuitBreaker, succeeded: bool, finish: int)
    requires breaker.Valid() && breaker.Now(finish) && CircuitBreaking.InFlight(breaker.history) > 0
    modifies breaker
    ensures breaker.Valid()
    ensures breaker.history == old(breaker.history) +
              [if succeeded then CircuitBreaking.Succeeded(finish) else CircuitBreaking.Failed(finish)]
  {
    if succeeded {
      breaker.OnSuccess(finish);
    } else {
      breaker.OnFailure(finish);
    }
  }

  // ── The load on a dead dependency ─────────────────────────────────────────────────────────

  /** What became of a call during an outage: turned away, or made with so many attempts in vain. */
  datatype Call = TurnedAway(start: int) | Made(start: int, finish: int, attempts: nat)

  /** The steps of the breaker in calls made one after the other. */
  function HistoryOf(calls: seq<Call>): seq<CircuitBreaking.Event> {
    if calls == [] then []
    else HistoryOf(calls[..|calls| - 1])
         + match calls[|calls| - 1]
           case TurnedAway(start) => [CircuitBreaking.Refused(start)]
           case Made(start, finish, _) => [CircuitBreaking.Admitted(start), CircuitBreaking.Failed(finish)]
  }

  /** How often the protected function was invoked by calls that started up to `deadline`. */
  function Attempts(calls: seq<Call>, deadline: int): nat {
    if calls == [] then 0
    else
      var last := calls[|calls| - 1];
      Attempts(calls[..|calls| - 1], deadline) + (if last.Made? && last.start <= deadline then last.attempts else 0)
  }

  predicate AtMostEach(calls: seq<Call>, maxAttempts: nat) {
    forall i :: 0 <= i < |calls| && calls[i].Made? ==> calls[i].attempts <= maxAttempts
  }

  /** Calls made one after the other that are refused or fail make up an outage as the bound on
      admissions understands it. */
  lemma {:induction false} FailedCallsAreOutage(calls: seq<Call>)
    ensures CircuitBreaking.Outage(HistoryOf(calls))
    ensures HistoryOf(calls) != [] ==> !CircuitBreaking.Last(HistoryOf(calls)).Admitted?
  {
    if calls != [] {
      var h := HistoryOf(calls[..|calls| - 1]);
      FailedCallsAreOutage(calls[..|calls| - 1]);
      assert forall i :: 0 <= i < |h| ==> HistoryOf(calls)[i] == h[i];
    }
  }

  lemma AdmittedByAppend(h: seq<CircuitBreaking.Event>, e: CircuitBreaking.Event, deadline: int)
    ensures CircuitBreaking.AdmittedBy(h + [e], deadline)
         == CircuitBreaking.AdmittedBy(h, deadline) + (if e.Admitted? && e.at <= deadline then 1 else 0)
  {
    CircuitBreaking.HistoryGrows(h, e);
  }

  lemma AdmittedByCall(calls: seq<Call>, deadline: int)
    requires calls != []
    ensures var last := calls[|calls| - 1];
            CircuitBreaking.AdmittedBy(HistoryOf(calls), deadline) ==
              CircuitBreaking.AdmittedBy(HistoryOf(calls[..|calls| - 1]), deadline)
              + (if last.Made? && last.start <= deadline then 1 else 0)
  {
    var h := HistoryOf(calls[..|calls| - 1]);
    match calls[|calls| - 1] {
      case TurnedAway(start) => AdmittedByAppend(h, CircuitBreaking.Refused(start), deadline);
      case Made(start, finish, _) =>
        AdmittedByAppend(h, CircuitBreaking.Admitted(start), deadline);
        AdmittedByAppend(h + [CircuitBreaking.Admitted(start)], CircuitBreaking.Failed(finish), deadline);
        assert HistoryOf(calls) == h + [CircuitBreaking.Admitted(start)] + [CircuitBreaking.Failed(finish)];
    }
  }

  lemma OneMore(n: nat, k: nat)
    ensures (n + 1) * k == n * k + k
  {
  }

  lemma {:induction false} AttemptsOfAdmitted(calls: seq<Call>, deadline: int, maxAttempts: nat)
    requires AtMostEach(calls, maxAttempts)
    ensures Attempts(calls, deadline) <= CircuitBreaking.AdmittedBy(HistoryOf(calls), deadline) * maxAttempts
  {
    if calls != [] {
      var front := calls[..|calls| - 1];
      assert forall i :: 0 <= i < |front| ==> front[i] == calls[i];
      AttemptsOfAdmitted(front, deadline, maxAttempts);
      AdmittedByCall(calls, deadline);
      OneMore(CircuitBreaking.AdmittedBy(HistoryOf(front), deadline), maxAttempts);
    }
  }

  /** Up to `elapsed` after the breaker first opened, the calls of an outage have invoked the
      function at most this often. */
  ghost predicate LoadBounded(c: CircuitBreaking.Config, calls: seq<Call>, elapsed: nat, maxAttempts: nat) {
    var h := HistoryOf(calls);
    CircuitBreaking.Failures(h) >= c.Threshold() && c.resetTimeoutMs > 0 ==>
      Attempts(calls, CircuitBreaking.FirstOpening(c, h) + elapsed)
      <= (c.Threshold() + elapsed / c.resetTimeoutMs) * maxAttempts
  }

  lemma OutageLoad(c: CircuitBreaking.Config, calls: seq<Call>, elapsed: nat, maxAttempts: nat)
    requires CircuitBreaking.Legal(c, HistoryOf(calls)) && AtMostEach(calls, maxAttempts)
    ensures LoadBounded(c, calls, elapsed, maxAttempts)
  {
    var h := HistoryOf(calls);
    if CircuitBreaking.Failures(h) >= c.Threshold() && c.resetTimeoutMs > 0 {
      var deadline := CircuitBreaking.FirstOpening(c, h) + elapsed;
      var bound := c.Threshold() + elapsed / c.resetTimeoutMs;
      FailedCallsAreOutage(calls);
      CircuitBreaking.OutageAdmissions(c, h, elapsed);
      AttemptsOfAdmitted(calls, deadline, maxAttempts);
      TimesMonotone(CircuitBreaking.AdmittedBy(h, deadline), bound, maxAttempts);
    }
  }

  /** The shared breaker opens after five failures for half a minute, and reads are tried three times. */
  lemma ShippedReadLoad(calls: seq<Call>, elapsed: nat)
    requires CircuitBreaking.Legal(CircuitBreaking.Config(5, 30_000), HistoryOf(calls)) && AtMostEach(calls, 3)
    requires CircuitBreaking.Failures(HistoryOf(calls)) >= 5
    ensures var c := CircuitBreaking.Config(5, 30_000);
            Attempts(calls, CircuitBreaking.FirstOpening(c, HistoryOf(calls)) + elapsed) <= (5 + elapsed / 30_000) * 3
  {
    OutageLoad(CircuitBreaking.Config(5, 30_000), calls, elapsed, 3);
  }

  lemma TimesMonotone(n: nat, bound: int, k: nat)
    requires n <= bound
    ensures n * k <= bound * k
  {
  }

  /** A call that fails does so after its first permanent error, or after all its attempts. */
  predicate GivesUpAfter<T, E>(fn: nat -> Outcome<T, E>, isPermanent: E -> bool, maxAttempts: nat, attempts: nat) {
    && attempts <= maxAttempts
    && (forall k :: 1 <= k < attempts ==> Transient(fn(k), isPermanent))
    && (attempts < maxAttempts ==> attempts >= 1 && fn(attempts).Err? && isPermanent(fn(attempts).error))
  }

  function MostAttempts(config: RetryConfig): nat { if config.maxAttempts > 0 then config.maxAttempts else 0 }

  predicate Sequential(times: seq<(int, int)>) {
    && (forall i :: 0 <= i < |times| ==> times[i].0 <= times[i].1)
    && (forall i :: 1 <= i < |times| ==> times[i - 1].1 <= times[i].0)
  }

  predicate Reports<T, E>(
    call: Call, time: (int, int), fn: nat -> Outcome<T, E>, isPermanent: E -> bool, maxAttempts: nat)
  {
    match call
    case TurnedAway(start) => start == time.0
    case Made(start, finish, attempts) => (start, finish) == time && GivesUpAfter(fn, isPermanent, maxAttempts, attempts)
  }

  /** A client that calls again and again, from a fresh breaker, while everything fails: call `i`
      would settle its `k`-th attempt to `fns(i)(k)`. */
  method CallThroughOutage<T, E>(
    c: CircuitBreaking.Config, fns: nat -> nat -> Outcome<T, E>, isPermanent: E -> bool,
    random: nat -> real, config: RetryConfig, times: seq<(int, int)>)
    returns (breaker: CircuitBreaking.CircuitBreaker, calls: seq<Call>)
    requires Sequential(times)
    requires forall i, k :: fns(i)(k).Err?
    requires forall k :: 0.0 <= random(k) < 1.0
    ensures breaker.Valid() && breaker.config == c && breaker.history == HistoryOf(calls)
    ensures |calls| == |times|
    ensures forall i :: 0 <= i < |calls| ==> Reports(calls[i], times[i], fns(i), isPermanent, MostAttempts(config))
    ensures forall elapsed: nat :: LoadBounded(c, calls, elapsed, MostAttempts(config))
  {
    breaker := new CircuitBreaking.CircuitBreaker(c);
    calls := [];
    for i := 0 to |times|
      invariant breaker.Valid() && breaker.config == c && breaker.history == HistoryOf(calls) && |calls| == i
      invariant fresh(breaker)
      invariant breaker.history != [] ==> i > 0 && CircuitBreaking.Last(breaker.history).at <= times[i - 1].1
      invariant forall k :: 0 <= k < i ==> Reports(calls[k], times[k], fns(k), isPermanent, MostAttempts(config))
    {
      var start, finish := times[i].0, times[i].1;
      var outcome, attempts := CallWithRetry(breaker, fns(i), isPermanent, random, config, start, finish);
      var call := if outcome == CircuitOpen then TurnedAway(start) else Made(start, finish, attempts);
      assert (calls + [call])[..|calls|] == calls;
      calls := calls + [call];
    }
    forall elapsed: nat
      ensures LoadBounded(c, calls, elapsed, MostAttempts(config))
    {
      OutageLoad(c, calls, elapsed, MostAttempts(config));
    }
  }
}
