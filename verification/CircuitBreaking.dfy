/** The circuit breaker (`CircuitBreaker` in frontend/lib/resilience.ts) with overlapping calls.

    A call is two steps, its admission and its completion, and the steps of different calls may
    interleave in any way. `history` records the steps; what the breaker does is compared with
    functions that look at the whole history. */
module CircuitBreaking {
  datatype Event = Admitted(at: int) | Refused(at: int) | Succeeded(at: int) | Failed(at: int)

  datatype Config = Config(failureThreshold: int, resetTimeoutMs: int) {
    /** The threshold is tested after a failure has been counted, so none acts lower than one. */
    function Threshold(): nat { if failureThreshold < 1 then 1 else failureThreshold }
  }

  function Front(h: seq<Event>): seq<Event>
    requires h != []
  {
    h[..|h| - 1]
  }

  function Last(h: seq<Event>): Event
    requires h != []
  {
    h[|h| - 1]
  }

  /** Failed completions since the last successful one. */
  function TrailingFailures(h: seq<Event>): nat {
    if h == [] then 0
    else match Last(h)
         case Failed(_) => TrailingFailures(Front(h)) + 1
         case Succeeded(_) => 0
         case _ => TrailingFailures(Front(h))
  }

  /** When the latest failed completion was, zero if there was none. */
  function LastFailure(h: seq<Event>): int {
    if h == [] then 0 else if Last(h).Failed? then Last(h).at else LastFailure(Front(h))
  }

  predicate AdmittedSinceFailure(h: seq<Event>) {
    h != [] && !Last(h).Failed? && (Last(h).Admitted? || AdmittedSinceFailure(Front(h)))
  }

  function InFlight(h: seq<Event>): int {
    if h == [] then 0
    else InFlight(Front(h)) + match Last(h)
                              case Admitted(_) => 1
                              case Refused(_) => 0
                              case _ => -1
  }

  /** When a call must be turned away, judged from the history alone. */
  predicate ShutOut(c: Config, h: seq<Event>, now: int) {
    && TrailingFailures(h) >= c.Threshold()
    && !AdmittedSinceFailure(h)
    && now - LastFailure(h) < c.resetTimeoutMs
  }

  /** Histories of the breaker: in clock order, completions only of calls in flight, and every
      call admitted or refused as its past demands. */
  ghost predicate Legal(c: Config, h: seq<Event>) {
    h == [] ||
    var past, e := Front(h), Last(h);
    && Legal(c, past)
    && (past == [] || Last(past).at <= e.at)
    && match e
       case Admitted(at) => !ShutOut(c, past, at)
       case Refused(at) => ShutOut(c, past, at)
       case _ => InFlight(past) > 0
  }

  // ── The same, counted over the history ────────────────────────────────────────────────────

  /** The failed completions that no later success has cleared. */
  ghost function Uncleared(h: seq<Event>): set<nat> {
    set i | 0 <= i < |h| && h[i].Failed? && forall j :: i < j < |h| ==> !h[j].Succeeded?
  }

  lemma UnclearedGrows(h: seq<Event>, e: Event)
    ensures Uncleared(h + [e]) == if e.Succeeded? then {} else if e.Failed? then Uncleared(h) + {|h|} else Uncleared(h)
  {
    var n, h' := |h|, h + [e];
    assert h'[n] == e && forall i :: 0 <= i < n ==> h'[i] == h[i];
    if e.Succeeded? {
      assert forall i :: 0 <= i < n ==> i !in Uncleared(h');
    } else {
      forall i | 0 <= i < n
        ensures i in Uncleared(h') <==> i in Uncleared(h)
      {
        assert h'[i] == h[i];
      }
    }
  }

  lemma {:induction false} TrailingIsCount(h: seq<Event>)
    ensures TrailingFailures(h) == |Uncleared(h)|
  {
    if h == [] {
      assert Uncleared(h) == {};
    } else {
      TrailingIsCount(Front(h));
      UnclearedGrows(Front(h), Last(h));
      assert h == Front(h) + [Last(h)];
      assert |h| - 1 !in Uncleared(Front(h));
    }
  }

  /** A call is turned away exactly when the failures no success has cleared reach the configured
      threshold, only refusals followed the latest of them, and that is less than a reset timeout
      ago. Below one the threshold acts as one. */
  lemma ShutOutIff(c: Config, h: seq<Event>, now: int)
    ensures ShutOut(c, h, now) <==> (
              && |Uncleared(h)| >= c.failureThreshold
              && exists k :: 0 <= k < |h| && h[k].Failed? && now - h[k].at < c.resetTimeoutMs
                             && forall i :: k < i < |h| ==> h[i].Refused?)
  {
    TrailingIsCount(h);
    if TrailingFailures(h) > 0 {
      var k := LastFailureIndex(h);
    }
    if k :| 0 <= k < |h| && h[k].Failed? && now - h[k].at < c.resetTimeoutMs
            && forall i :: k < i < |h| ==> h[i].Refused?
    {
      assert k in Uncleared(h);
      var last := LastFailureIndex(h);
      assert last == k;
    }
  }

  datatype CircuitState = Closed | Open | HalfOpen

  class CircuitBreaker {
    const config: Config
    var state: CircuitState
    var failures: nat
    var openedAt: int
    ghost var history: seq<Event>

    ghost predicate Valid()
      reads this
    {
      && Legal(config, history)
      && failures == TrailingFailures(history)
      && (state == Closed <==> failures < config.Threshold())
      && (state != Closed ==> openedAt == LastFailure(history))
      && (state == HalfOpen ==> AdmittedSinceFailure(history))
      && (state == Open ==> !AdmittedSinceFailure(history))
    }

    ghost predicate Now(now: int)
      reads this
    {
      history == [] || Last(history).at <= now
    }

    constructor (config: Config)
      ensures Valid() && this.config == config && history == [] && state == Closed
    {
      this.config := config;
      state, failures, openedAt, history := Closed, 0, 0, [];
    }

    /** The first half of `call`: admits the call unless it must be turned away. */
    method Begin(now: int) returns (admitted: bool)
      requires Valid() && Now(now)
      modifies this
      ensures Valid()
      ensures admitted == !ShutOut(config, old(history), now)
      ensures var h := old(history);
              !admitted <==> (
                && |Uncleared(h)| >= config.failureThreshold
                && exists k :: 0 <= k < |h| && h[k].Failed? && now - h[k].at < config.resetTimeoutMs
                               && forall i :: k < i < |h| ==> h[i].Refused?)
      ensures history == old(history) + [if admitted then Admitted(now) else Refused(now)]
      ensures state == Closed <==> Uncleared(history) == {} || |Uncleared(history)| < config.failureThreshold
    {
      ShutOutIff(config, history, now);
      TrailingIsCount(history);
      TrailingIsCount(history + [Admitted(now)]);
      TrailingIsCount(history + [Refused(now)]);
      HistoryGrows(history, Admitted(now));
      HistoryGrows(history, Refused(now));
      if state == Open {
        if now - openedAt >= config.resetTimeoutMs {
          state := HalfOpen;
        } else {
          history := history + [Refused(now)];
          return false;
        }
      }
      history := history + [Admitted(now)];
      return true;
    }

    method OnSuccess(now: int)
      requires Valid() && Now(now) && InFlight(history) > 0
      modifies this
      ensures Valid() && state == Closed
      ensures history == old(history) + [Succeeded(now)]
      ensures state == Closed <==> Uncleared(history) == {} || |Uncleared(history)| < config.failureThreshold
    {
      TrailingIsCount(history + [Succeeded(now)]);
      HistoryGrows(history, Succeeded(now));
      failures := 0;
      state := Closed;
      history := history + [Succeeded(now)];
    }

    method OnFailure(now: int)
      requires Valid() && Now(now) && InFlight(history) > 0
      modifies this
      ensures Valid() && state != HalfOpen
      ensures history == old(history) + [Failed(now)]
      ensures state == Closed <==> Uncleared(history) == {} || |Uncleared(history)| < config.failureThreshold
    {
      TrailingIsCount(history + [Failed(now)]);
      HistoryGrows(history, Failed(now));
      failures := failures + 1;
      if failures >= config.failureThreshold {
        state := Open;
        openedAt := now;
      }
      history := history + [Failed(now)];
    }
  }

  lemma HistoryGrows(h: seq<Event>, e: Event)
    ensures Front(h + [e]) == h && Last(h + [e]) == e
  {
  }

  lemma {:induction false} InFlightNonNegative(c: Config, h: seq<Event>)
    requires Legal(c, h)
    ensures InFlight(h) >= 0
  {
    if h != [] { InFlightNonNegative(c, Front(h)); }
  }

  // ── A sequential outage ───────────────────────────────────────────────────────────────────

  /** Calls run one at a time and all fail; the last one may still be running. */
  predicate Outage(h: seq<Event>) {
    forall i :: 0 <= i < |h| ==>
      !h[i].Succeeded? && (h[i].Admitted? && i + 1 < |h| ==> h[i + 1].Failed?)
  }

  function Failures(h: seq<Event>): nat {
    if h == [] then 0 else Failures(Front(h)) + (if Last(h).Failed? then 1 else 0)
  }

  function AdmittedBy(h: seq<Event>, deadline: int): nat {
    if h == [] then 0
    else AdmittedBy(Front(h), deadline) + (if Last(h).Admitted? && Last(h).at <= deadline then 1 else 0)
  }

  /** When the breaker first opened: the time of the failure that reached the threshold. */
  function FirstOpening(c: Config, h: seq<Event>): int
    requires Failures(h) >= c.Threshold()
  {
    if Failures(Front(h)) >= c.Threshold() then FirstOpening(c, Front(h)) else Last(h).at
  }

  lemma {:induction false} OutageShape(c: Config, h: seq<Event>)
    requires Legal(c, h) && Outage(h)
    ensures TrailingFailures(h) == Failures(h)
    ensures InFlight(h) == if h != [] && Last(h).Admitted? then 1 else 0
    ensures h == [] || !Last(h).Admitted? ==> !AdmittedSinceFailure(h)
  {
    if h != [] {
      assert forall i :: 0 <= i < |Front(h)| ==> Front(h)[i] == h[i];
      assert |h| >= 2 && h[|h| - 2].Admitted? ==> h[|h| - 2 + 1].Failed?;
      OutageShape(c, Front(h));
    }
  }

  /** Once open, every further failure is at least one reset timeout after the one before. */
  lemma {:induction false} OutageSpacing(c: Config, h: seq<Event>)
    requires Legal(c, h) && Outage(h) && Failures(h) >= c.Threshold()
    ensures LastFailure(h) >= FirstOpening(c, h) + (Failures(h) - c.Threshold()) * c.resetTimeoutMs
  {
    var past := Front(h);
    assert forall i :: 0 <= i < |past| ==> past[i] == h[i];
    OutageShape(c, past);
    if Failures(past) >= c.Threshold() {
      OutageSpacing(c, past);
      if Last(h).Failed? {
        var before := Front(past);
        assert forall i :: 0 <= i < |before| ==> before[i] == h[i];
        assert before == [] || !Last(before).Admitted?;
        OutageShape(c, before);
        var k := Failures(past) - c.Threshold();
        assert (k + 1) * c.resetTimeoutMs == k * c.resetTimeoutMs + c.resetTimeoutMs;
      }
    }
  }

  lemma {:induction false} AdmissionsAreCompletions(c: Config, h: seq<Event>, deadline: int)
    requires Legal(c, h) && Outage(h)
    ensures AdmittedBy(h, deadline) <= Failures(h) + InFlight(h)
  {
    if h != [] {
      var past := Front(h);
      assert forall i :: 0 <= i < |past| ==> past[i] == h[i];
      AdmissionsAreCompletions(c, past, deadline);
    }
  }

  /** A call admitted after the opening came a full reset timeout after the last failure. */
  lemma AdmissionSpacing(c: Config, h: seq<Event>)
    requires Legal(c, h) && Outage(h) && h != [] && Last(h).Admitted? && Failures(h) >= c.Threshold()
    ensures Last(h).at >= FirstOpening(c, h) + (Failures(h) - c.Threshold() + 1) * c.resetTimeoutMs
  {
    var past := Front(h);
    assert forall i :: 0 <= i < |past| ==> past[i] == h[i];
    assert past == [] || !Last(past).Admitted?;
    OutageShape(c, past);
    OutageSpacing(c, past);
    var k := Failures(h) - c.Threshold();
    assert (k + 1) * c.resetTimeoutMs == k * c.resetTimeoutMs + c.resetTimeoutMs;
  }

  /** In a sequential outage, up to `elapsed` after the first opening, the breaker lets through at
      most the calls that opened it and one more per reset timeout. */
  lemma {:induction false} OutageAdmissions(c: Config, h: seq<Event>, elapsed: nat)
    requires Legal(c, h) && Outage(h) && Failures(h) >= c.Threshold() && c.resetTimeoutMs > 0
    ensures AdmittedBy(h, FirstOpening(c, h) + elapsed) <= c.Threshold() + elapsed / c.resetTimeoutMs
  {
    var past := Front(h);
    var deadline := FirstOpening(c, h) + elapsed;
    assert forall i :: 0 <= i < |past| ==> past[i] == h[i];
    OutageShape(c, h);
    if Last(h).Admitted? && Last(h).at <= deadline {
      AdmissionSpacing(c, h);
      AdmissionsAreCompletions(c, h, deadline);
      AtMostQuotient(Failures(h) - c.Threshold() + 1, elapsed, c.resetTimeoutMs);
    } else if Failures(past) >= c.Threshold() {
      OutageAdmissions(c, past, elapsed);
    } else {
      AdmissionsAreCompletions(c, h, deadline);
      AtMostQuotient(0, elapsed, c.resetTimeoutMs);
    }
  }

  lemma MultiplesApart(k: int, q: int, d: int)
    requires k > q && d > 0
    ensures k * d >= q * d + d
  {
    assert k * d == (k - q - 1) * d + (q * d + d);
  }

  lemma AtMostQuotient(k: int, n: int, d: int)
    requires d > 0 && k * d <= n
    ensures k <= n / d
  {
    if k > n / d {
      MultiplesApart(k, n / d, d);
      assert false;
    }
  }

  // ── What refusals say ─────────────────────────────────────────────────────────────────────

  lemma {:induction false} PrefixLegal(c: Config, h: seq<Event>, n: nat)
    requires Legal(c, h) && n <= |h|
    ensures Legal(c, h[..n])
  {
    if n < |h| {
      PrefixLegal(c, Front(h), n);
      assert Front(h)[..n] == h[..n];
    } else {
      assert h[..n] == h;
    }
  }

  /** The latest failure a refusal looks back on is a recorded event no other failure follows. */
  lemma {:induction false} LastFailureIndex(h: seq<Event>) returns (k: nat)
    requires TrailingFailures(h) > 0
    ensures k < |h| && h[k].Failed? && LastFailure(h) == h[k].at
    ensures forall i :: k < i < |h| ==> !h[i].Failed? && !h[i].Succeeded?
    ensures AdmittedSinceFailure(h) <==> exists i :: k < i < |h| && h[i].Admitted?
  {
    if Last(h).Failed? {
      k := |h| - 1;
    } else {
      k := LastFailureIndex(Front(h));
      assert forall i :: 0 <= i < |h| - 1 ==> Front(h)[i] == h[i];
      assert h[|h| - 1] == Last(h);
      if AdmittedSinceFailure(Front(h)) {
        var i :| k < i < |Front(h)| && Front(h)[i].Admitted?;
        assert h[i].Admitted?;
      }
    }
  }

  /** Every refusal answers to one failed completion less than a reset timeout old, with nothing
      but refusals in between: a breaker no call has reached is never shut longer than that. */
  lemma RefusalsEnd(c: Config, h: seq<Event>, j: nat) returns (k: nat)
    requires Legal(c, h) && j < |h| && h[j].Refused?
    ensures k < j && h[k].Failed? && h[j].at < h[k].at + c.resetTimeoutMs
    ensures forall i :: k < i < j ==> h[i].Refused?
  {
    PrefixLegal(c, h, j + 1);
    var upTo := h[..j + 1];
    assert Front(upTo) == h[..j] && Last(upTo) == h[j];
    k := LastFailureIndex(h[..j]);
    forall i | k < i < j
      ensures h[i].Refused?
    {
      assert h[..j][i] == h[i];
    }
  }
}
