/** Per-key request quotas in fixed windows (`trackAndCheckUsage` in
    frontend/lib/api/apiKeyRegistry.ts), judged from the log of all accepted requests. */
module UsageWindows {
  import opened Options
  import opened KeyValue
  import opened Quotas
  import opened Tallies

  const WINDOW_MS := 60_000
  const USAGE_TTL_SECONDS := 7 * 24 * 60 * 60

  /** The lifetime of key records, and of a usage record that was revoked like one. */
  const RECORD_TTL_SECONDS := 90 * 24 * 60 * 60

  /** An accepted request, the start of the window it was counted in, the limit then in force, and
      when since the request before it the usage record was prolonged, if it was. */
  datatype Hit = Hit(at: int, window: int, endpoint: string, limit: Positive, prolonged: Option<int>)

  /** Where counting stands after `log`, for a key issued at `openedAt`. */
  function WindowStart(log: seq<Hit>, openedAt: Option<int>): Option<int> {
    if log == [] then openedAt else Some(log[|log| - 1].window)
  }

  /** The window a request at `now` belongs to: the last one if it still runs, else a new one. */
  function WindowAt(log: seq<Hit>, openedAt: Option<int>, now: int): int {
    var start := WindowStart(log, openedAt);
    if start.Some? && now - start.value < WINDOW_MS then start.value else now
  }

  function InWindow(log: seq<Hit>, window: int): nat {
    if log == [] then 0
    else InWindow(log[..|log| - 1], window) + (if log[|log| - 1].window == window then 1 else 0)
  }

  function Decide(log: seq<Hit>, openedAt: Option<int>, limit: Positive, now: int): Verdict {
    var window := WindowAt(log, openedAt, now);
    if InWindow(log, window) >= limit then Refused(RetryAfter(window, WINDOW_MS, now)) else Allowed
  }

  predicate Before(log: seq<Hit>, openedAt: Option<int>, now: int) {
    && (openedAt.Some? ==> openedAt.value <= now)
    && forall i :: 0 <= i < |log| ==> log[i].window <= log[i].at <= now
  }

  /** The logs a run can produce. */
  predicate Produced(openedAt: Option<int>, log: seq<Hit>) {
    log == [] ||
    var past, hit := log[..|log| - 1], log[|log| - 1];
    && Produced(openedAt, past)
    && Before(past, openedAt, hit.at)
    && hit.window == WindowAt(past, openedAt, hit.at)
    && Decide(past, openedAt, hit.limit, hit.at) == Allowed
  }

  // ── The stored record ─────────────────────────────────────────────────────────────────────

  /** `revokedAt` is the mark of a revocation that hit the usage record instead of a key. */
  datatype ApiKeyUsage = ApiKeyUsage(
    totalRequests: nat, windowRequests: nat, lastUsedAt: int, windowStartedAt: int, endpointCounts: map<string, nat>,
    revokedAt: Option<int>)

  const FRESH := ApiKeyUsage(0, 0, 0, 0, map[], None)

  /** The record, if there ever was one, was prolonged after its last request. */
  predicate ProlongedAfter(log: seq<Hit>, openedAt: Option<int>, prolonged: Option<int>) {
    prolonged.Some? ==>
      && (log != [] || openedAt.Some?)
      && (openedAt.Some? ==> openedAt.value <= prolonged.value)
      && (log != [] ==> log[|log| - 1].at <= prolonged.value)
  }

  /** When the record lapses if nothing more happens to it. */
  function LapsesAt(log: seq<Hit>, openedAt: Option<int>, prolonged: Option<int>): Option<int> {
    if prolonged.Some? then Some(prolonged.value + 1000 * RECORD_TTL_SECONDS)
    else if log != [] then Some(log[|log| - 1].at + 1000 * USAGE_TTL_SECONDS)
    else if openedAt.Some? then Some(openedAt.value + 1000 * USAGE_TTL_SECONDS)
    else None
  }

  predicate Alive(backend: Backend, log: seq<Hit>, openedAt: Option<int>, prolonged: Option<int>, now: int) {
    var lapse := LapsesAt(log, openedAt, prolonged);
    lapse.Some? && Readable(backend, Entry((), lapse.value), now)
  }

  /** The requests accepted since the record now in the store was created. */
  function SinceCreated(backend: Backend, log: seq<Hit>, openedAt: Option<int>): seq<Hit>
    decreases |log|, 0
  {
    if log == [] then []
    else
      var past, hit := log[..|log| - 1], log[|log| - 1];
      Carried(backend, past, openedAt, hit.prolonged, hit.at) + [hit]
  }

  /** Those of them the record still counts at `now`. */
  function Carried(backend: Backend, log: seq<Hit>, openedAt: Option<int>, prolonged: Option<int>, now: int): seq<Hit>
    decreases |log|, 1
  {
    if Alive(backend, log, openedAt, prolonged, now) then SinceCreated(backend, log, openedAt) else []
  }

  /** The mark in the record after `log` and the prolongation since. */
  function Mark(backend: Backend, log: seq<Hit>, openedAt: Option<int>, prolonged: Option<int>): Option<int>
    decreases |log|, 0
  {
    if prolonged.Some? || log == [] then prolonged
    else
      var past, hit := log[..|log| - 1], log[|log| - 1];
      CarriedMark(backend, past, openedAt, hit.prolonged, hit.at)
  }

  function CarriedMark(
    backend: Backend, log: seq<Hit>, openedAt: Option<int>, prolonged: Option<int>, now: int): Option<int>
    decreases |log|, 1
  {
    if Alive(backend, log, openedAt, prolonged, now) then Mark(backend, log, openedAt, prolonged) else None
  }

  function Tally(hits: seq<Hit>): map<string, nat> {
    if hits == [] then map[] else Increment(Tally(hits[..|hits| - 1]), hits[|hits| - 1].endpoint)
  }

  /** What the store holds for a key after `log` and the prolongation since. */
  function Stored(backend: Backend, log: seq<Hit>, openedAt: Option<int>, prolonged: Option<int>)
    : Option<Entry<ApiKeyUsage>>
  {
    var lapse := LapsesAt(log, openedAt, prolonged);
    var start := WindowStart(log, openedAt);
    if lapse == None || start == None then None
    else
      var since := SinceCreated(backend, log, openedAt);
      Some(Entry(
        ApiKeyUsage(
          |since|, InWindow(log, start.value), if log == [] then 0 else log[|log| - 1].at, start.value, Tally(since),
          Mark(backend, log, openedAt, prolonged)),
        lapse.value))
  }

  /** The stored entry is what `log` and the prolongation since have left. */
  predicate Tracked(
    backend: Backend, entry: Option<Entry<ApiKeyUsage>>, log: seq<Hit>, openedAt: Option<int>, prolonged: Option<int>)
  {
    entry == Stored(backend, log, openedAt, prolonged) && ProlongedAfter(log, openedAt, prolonged)
  }

  /** The code's read, fallback and window reset, in one step. */
  function Current(backend: Backend, entry: Option<Entry<ApiKeyUsage>>, now: int): ApiKeyUsage {
    var usage := if entry.Some? && Readable(backend, entry.value, now) then entry.value.value
                 else FRESH.(windowStartedAt := now);
    if now - usage.windowStartedAt >= WINDOW_MS then usage.(windowRequests := 0, windowStartedAt := now) else usage
  }

  lemma {:induction false} NoneInNewWindow(log: seq<Hit>, window: int)
    requires forall i :: 0 <= i < |log| ==> log[i].window < window
    ensures InWindow(log, window) == 0
  {
    if log != [] { NoneInNewWindow(log[..|log| - 1], window); }
  }

  lemma {:induction false} ProducedWindows(openedAt: Option<int>, log: seq<Hit>, i: nat, j: nat)
    requires Produced(openedAt, log) && i <= j < |log|
    ensures log[i].window <= log[i].at <= log[j].at && log[i].at < log[i].window + WINDOW_MS
    ensures log[i].window == log[j].window || log[i].window + WINDOW_MS <= log[j].window
    decreases |log|
  {
    var past := log[..|log| - 1];
    if j < |log| - 1 {
      ProducedWindows(openedAt, past, i, j);
    } else if i < j {
      ProducedWindows(openedAt, past, i, |past| - 1);
    }
  }

  /** Losing the record to its lifetime never changes the window or its count: by then the last
      window is long over. */
  lemma CurrentWindowAgrees(
    backend: Backend, entry: Option<Entry<ApiKeyUsage>>, log: seq<Hit>, openedAt: Option<int>, prolonged: Option<int>,
    now: int)
    requires Tracked(backend, entry, log, openedAt, prolonged) && Produced(openedAt, log) && Before(log, openedAt, now)
    ensures var usage := Current(backend, entry, now);
            && usage.windowStartedAt == WindowAt(log, openedAt, now)
            && usage.windowRequests == InWindow(log, WindowAt(log, openedAt, now))
  {
    var start := WindowStart(log, openedAt);
    if log != [] { ProducedWindows(openedAt, log, |log| - 1, |log| - 1); }
    if start.Some? && now - start.value >= WINDOW_MS { NewWindowEmpty(openedAt, log, now); }
  }

  lemma NewWindowEmpty(openedAt: Option<int>, log: seq<Hit>, now: int)
    requires Produced(openedAt, log) && (log != [] ==> log[|log| - 1].window < now)
    ensures InWindow(log, now) == 0
  {
    forall i | 0 <= i < |log|
      ensures log[i].window < now
    {
      ProducedWindows(openedAt, log, i, |log| - 1);
    }
    NoneInNewWindow(log, now);
  }

  /** The totals are those of the requests the record still counts, and so is the mark. */
  lemma CurrentTotalsAgree(
    backend: Backend, entry: Option<Entry<ApiKeyUsage>>, log: seq<Hit>, openedAt: Option<int>, prolonged: Option<int>,
    now: int)
    requires Tracked(backend, entry, log, openedAt, prolonged)
    ensures var usage := Current(backend, entry, now);
            && usage.totalRequests == |Carried(backend, log, openedAt, prolonged, now)|
            && usage.endpointCounts == Tally(Carried(backend, log, openedAt, prolonged, now))
            && usage.revokedAt == CarriedMark(backend, log, openedAt, prolonged, now)
  {
  }

  lemma ProducedAppend(openedAt: Option<int>, log: seq<Hit>, hit: Hit)
    requires Produced(openedAt, log) && Before(log, openedAt, hit.at)
    requires hit.window == WindowAt(log, openedAt, hit.at) && Decide(log, openedAt, hit.limit, hit.at) == Allowed
    ensures Produced(openedAt, log + [hit]) && Before(log + [hit], openedAt, hit.at)
  {
    assert (log + [hit])[..|log|] == log;
    if log != [] { ProducedWindows(openedAt, log, |log| - 1, |log| - 1); }
  }

  lemma TallyAppend(hits: seq<Hit>, hit: Hit)
    ensures Tally(hits + [hit]) == Increment(Tally(hits), hit.endpoint)
  {
    assert (hits + [hit])[..|hits|] == hits;
  }

  lemma StoredAppend(backend: Backend, openedAt: Option<int>, log: seq<Hit>, hit: Hit)
    ensures var carried := Carried(backend, log, openedAt, hit.prolonged, hit.at);
            Stored(backend, log + [hit], openedAt, None) ==
              Some(Entry(
                ApiKeyUsage(|carried| + 1, InWindow(log, hit.window) + 1, hit.at, hit.window,
                            Increment(Tally(carried), hit.endpoint),
                            CarriedMark(backend, log, openedAt, hit.prolonged, hit.at)),
                hit.at + 1000 * USAGE_TTL_SECONDS))
  {
    var log' := log + [hit];
    var carried := Carried(backend, log, openedAt, hit.prolonged, hit.at);
    assert log'[..|log|] == log && log'[|log|] == hit;
    assert LapsesAt(log', openedAt, None) == Some(hit.at + 1000 * USAGE_TTL_SECONDS);
    assert WindowStart(log', openedAt) == Some(hit.window);
    assert InWindow(log', hit.window) == InWindow(log, hit.window) + 1;
    assert SinceCreated(backend, log', openedAt) == carried + [hit];
    TallyAppend(carried, hit);
  }

  function Updated(usage: ApiKeyUsage, endpoint: string, now: int): ApiKeyUsage {
    usage.(
      totalRequests := usage.totalRequests + 1, windowRequests := usage.windowRequests + 1, lastUsedAt := now,
      endpointCounts := Increment(usage.endpointCounts, endpoint))
  }

  lemma UpdatedIsStored(
    backend: Backend, openedAt: Option<int>, log: seq<Hit>, prolonged: Option<int>, usage: ApiKeyUsage,
    endpoint: string, limit: Positive, now: int)
    requires usage.totalRequests == |Carried(backend, log, openedAt, prolonged, now)|
    requires usage.endpointCounts == Tally(Carried(backend, log, openedAt, prolonged, now))
    requires usage.windowRequests == InWindow(log, usage.windowStartedAt)
    requires usage.revokedAt == CarriedMark(backend, log, openedAt, prolonged, now)
    ensures Stored(backend, log + [Hit(now, usage.windowStartedAt, endpoint, limit, prolonged)], openedAt, None)
         == Some(Entry(Updated(usage, endpoint, now), now + 1000 * USAGE_TTL_SECONDS))
  {
    StoredAppend(backend, openedAt, log, Hit(now, usage.windowStartedAt, endpoint, limit, prolonged));
  }

  /** Accepting a request writes back exactly the record of the longer log. */
  lemma AcceptedIsStored(
    backend: Backend, entry: Option<Entry<ApiKeyUsage>>, log: seq<Hit>, openedAt: Option<int>, prolonged: Option<int>,
    usage: ApiKeyUsage, endpoint: string, limit: Positive, now: int)
    requires Tracked(backend, entry, log, openedAt, prolonged) && Produced(openedAt, log) && Before(log, openedAt, now)
    requires usage == Current(backend, entry, now)
    ensures Stored(backend, log + [Hit(now, usage.windowStartedAt, endpoint, limit, prolonged)], openedAt, None)
         == Some(Entry(Updated(usage, endpoint, now), now + 1000 * USAGE_TTL_SECONDS))
  {
    CurrentWindowAgrees(backend, entry, log, openedAt, prolonged, now);
    CurrentTotalsAgree(backend, entry, log, openedAt, prolonged, now);
    UpdatedIsStored(backend, openedAt, log, prolonged, usage, endpoint, limit, now);
  }

  /** Marking the record prolongs it, and changes none of its counts. */
  lemma MarkedIsStored(
    backend: Backend, entry: Option<Entry<ApiKeyUsage>>, log: seq<Hit>, openedAt: Option<int>, prolonged: Option<int>,
    now: int)
    requires Tracked(backend, entry, log, openedAt, prolonged) && Before(log, openedAt, now) && entry.Some?
    ensures Tracked(
              backend, Some(Entry(entry.value.value.(revokedAt := Some(now)), now + 1000 * RECORD_TTL_SECONDS)),
              log, openedAt, Some(now))
  {
  }

  /** What that does to the totals: requests that would have been forgotten stay counted. */
  lemma ProlongedKeepsTotals(
    backend: Backend, log: seq<Hit>, openedAt: Option<int>, at: int, now: int)
    requires log != [] && Alive(backend, log, openedAt, None, at)
    requires log[|log| - 1].at + 1000 * USAGE_TTL_SECONDS < now < at + 1000 * RECORD_TTL_SECONDS
    ensures Carried(backend, log, openedAt, None, now) == []
    ensures Carried(backend, log, openedAt, Some(at), now) == SinceCreated(backend, log, openedAt) != []
  {
  }

  // ── Guarantees ────────────────────────────────────────────────────────────────────────────

  function Count(log: seq<Hit>, lo: int, hi: int): nat {
    if log == [] then 0
    else Count(log[..|log| - 1], lo, hi) + (if lo <= log[|log| - 1].at < hi then 1 else 0)
  }

  predicate LimitedTo(log: seq<Hit>, most: nat) {
    forall i :: 0 <= i < |log| ==> log[i].limit <= most
  }

  /** No window accepts more than the limit. */
  lemma {:induction false} WindowBound(openedAt: Option<int>, log: seq<Hit>, most: nat, window: int)
    requires Produced(openedAt, log) && LimitedTo(log, most)
    ensures InWindow(log, window) <= most
  {
    if log != [] { WindowBound(openedAt, log[..|log| - 1], most, window); }
  }

  lemma {:induction false} CountInWindows(log: seq<Hit>, lo: int, hi: int, w: int, w': int)
    requires forall i :: 0 <= i < |log| && lo <= log[i].at < hi ==> log[i].window == w || log[i].window == w'
    ensures Count(log, lo, hi) <= InWindow(log, w) + InWindow(log, w')
  {
    if log != [] {
      var past := log[..|log| - 1];
      assert forall i :: 0 <= i < |past| ==> past[i] == log[i];
      CountInWindows(past, lo, hi, w, w');
    }
  }

  lemma {:induction false} FirstIn(log: seq<Hit>, lo: int, hi: int) returns (i: nat)
    requires Count(log, lo, hi) > 0
    ensures i < |log| && lo <= log[i].at < hi
    ensures forall k :: 0 <= k < i ==> !(lo <= log[k].at < hi)
  {
    var past := log[..|log| - 1];
    assert forall k :: 0 <= k < |past| ==> past[k] == log[k];
    if Count(past, lo, hi) > 0 {
      i := FirstIn(past, lo, hi);
    } else {
      NoneIn(past, lo, hi);
      i := |log| - 1;
    }
  }

  lemma {:induction false} NoneIn(log: seq<Hit>, lo: int, hi: int)
    requires Count(log, lo, hi) == 0
    ensures forall k :: 0 <= k < |log| ==> !(lo <= log[k].at < hi)
  {
    if log != [] {
      var past := log[..|log| - 1];
      NoneIn(past, lo, hi);
      assert forall k :: 0 <= k < |past| ==> past[k] == log[k];
    }
  }

  lemma LastWindowIn(openedAt: Option<int>, log: seq<Hit>, lo: int, first: nat) returns (other: int)
    requires Produced(openedAt, log) && first < |log| && lo <= log[first].at < lo + WINDOW_MS
    requires forall k :: 0 <= k < first ==> !(lo <= log[k].at < lo + WINDOW_MS)
    ensures forall i :: 0 <= i < |log| && lo <= log[i].at < lo + WINDOW_MS ==>
              log[i].window == log[first].window || log[i].window == other
  {
    if k :| 0 <= k < |log| && lo <= log[k].at < lo + WINDOW_MS && log[k].window != log[first].window {
      other := log[k].window;
      forall i | 0 <= i < |log| && lo <= log[i].at < lo + WINDOW_MS && log[i].window != log[first].window
        ensures log[i].window == other
      {
        ProducedWindows(openedAt, log, first, first);
        ProducedWindows(openedAt, log, first, i);
        ProducedWindows(openedAt, log, first, k);
        if i <= k { ProducedWindows(openedAt, log, i, k); } else { ProducedWindows(openedAt, log, k, i); }
      }
    } else {
      other := log[first].window;
    }
  }

  /** Any minute meets at most two windows, so it holds at most twice the limit. */
  lemma RollingBound(openedAt: Option<int>, log: seq<Hit>, most: nat, lo: int)
    requires Produced(openedAt, log) && LimitedTo(log, most)
    ensures Count(log, lo, lo + 60_000) <= 2 * most
  {
    if Count(log, lo, lo + WINDOW_MS) > 0 {
      var first := FirstIn(log, lo, lo + WINDOW_MS);
      var other := LastWindowIn(openedAt, log, lo, first);
      CountInWindows(log, lo, lo + WINDOW_MS, log[first].window, other);
      WindowBound(openedAt, log, most, log[first].window);
      WindowBound(openedAt, log, most, other);
    }
  }

  /** A refusal lasts exactly until its window, a minute long, ends; the returned wait reaches that
      end, and with a second less it would not, unless it is the least of one second. */
  lemma RefusalEnds(log: seq<Hit>, openedAt: Option<int>, limit: Positive, now: int, seconds: int)
    requires Produced(openedAt, log) && Before(log, openedAt, now)
    requires Decide(log, openedAt, limit, now) == Refused(seconds)
    ensures forall later :: now <= later ==>
              (Decide(log, openedAt, limit, later) == Allowed <==> later >= WindowAt(log, openedAt, now) + 60_000)
    ensures Decide(log, openedAt, limit, now + 1000 * seconds) == Allowed
    ensures seconds > 1 ==> Decide(log, openedAt, limit, now + 1000 * (seconds - 1)) != Allowed
  {
    var window := WindowAt(log, openedAt, now);
    if log != [] { ProducedWindows(openedAt, log, |log| - 1, |log| - 1); }
    if WindowStart(log, openedAt) != Some(window) {
      NewWindowEmpty(openedAt, log, now);
      assert false;
    }
    forall later | now <= later
      ensures Decide(log, openedAt, limit, later) == Allowed <==> later >= window + WINDOW_MS
    {
      if later >= window + WINDOW_MS { NewWindowEmpty(openedAt, log, later); }
    }
  }

  // The stored figures, counted over the log.

  lemma {:induction false} InWindowIsCount(log: seq<Hit>, window: int)
    ensures InWindow(log, window) == |set i | 0 <= i < |log| && log[i].window == window|
  {
    var places := set i | 0 <= i < |log| && log[i].window == window;
    if log == [] {
      assert places == {};
    } else {
      var past, hit := log[..|log| - 1], log[|log| - 1];
      var before := set i | 0 <= i < |past| && past[i].window == window;
      InWindowIsCount(past, window);
      OneMorePlace(before, |past|, hit.window == window);
      assert places == before + (if hit.window == window then {|past|} else {});
    }
  }

  lemma {:induction false} TallyIsCount(hits: seq<Hit>, endpoint: string)
    ensures CountOf(Tally(hits), endpoint) == |set i | 0 <= i < |hits| && hits[i].endpoint == endpoint|
  {
    var places := set i | 0 <= i < |hits| && hits[i].endpoint == endpoint;
    if hits == [] {
      assert places == {};
    } else {
      var past, hit := hits[..|hits| - 1], hits[|hits| - 1];
      var before := set i | 0 <= i < |past| && past[i].endpoint == endpoint;
      assert places == before + (if hit.endpoint == endpoint then {|past|} else {});
      TallyIsCount(past, endpoint);
      CountOfIncrement(Tally(past), hit.endpoint, endpoint);
      OneMorePlace(before, |past|, hit.endpoint == endpoint);
    }
  }

  /** A record lives 7 days from its opening or its last request, and 90 from being prolonged. */
  lemma LivesFor(backend: Backend, log: seq<Hit>, openedAt: Option<int>, prolonged: Option<int>, now: int)
    ensures Alive(backend, log, openedAt, prolonged, now) <==>
              var until := if prolonged.Some? then Some(prolonged.value + 7_776_000_000)
                           else if log != [] then Some(log[|log| - 1].at + 604_800_000)
                           else if openedAt.Some? then Some(openedAt.value + 604_800_000) else None;
              until.Some? && (now < until.value || (backend == Inclusive && now == until.value))
  {
  }

  /** When request `i` came, the record the requests before it had left was alive. */
  predicate AliveBefore(backend: Backend, log: seq<Hit>, openedAt: Option<int>, i: nat)
    requires i < |log|
  {
    Alive(backend, log[..i], openedAt, log[i].prolonged, log[i].at)
  }

  /** The record was created for request `k`, or before the first one, and has lived since. */
  predicate LivesSince(backend: Backend, log: seq<Hit>, openedAt: Option<int>, k: nat) {
    && k < |log| && (0 < k ==> !AliveBefore(backend, log, openedAt, k))
    && forall i :: k < i < |log| ==> AliveBefore(backend, log, openedAt, i)
  }

  lemma LivesOn(backend: Backend, log: seq<Hit>, openedAt: Option<int>, hit: Hit, k: nat)
    requires LivesSince(backend, log, openedAt, k) && Alive(backend, log, openedAt, hit.prolonged, hit.at)
    ensures LivesSince(backend, log + [hit], openedAt, k)
  {
    var log' := log + [hit];
    assert log'[..|log|] == log;
    forall i | k <= i < |log|
      ensures AliveBefore(backend, log', openedAt, i) <==> AliveBefore(backend, log, openedAt, i)
    {
      assert log'[..i] == log[..i];
    }
  }

  /** The requests a record counts are those since it was created. */
  lemma {:induction false} SinceCreatedIsRun(backend: Backend, log: seq<Hit>, openedAt: Option<int>) returns (k: nat)
    requires log != []
    ensures LivesSince(backend, log, openedAt, k) && SinceCreated(backend, log, openedAt) == log[k..]
  {
    var past, hit := log[..|log| - 1], log[|log| - 1];
    assert log == past + [hit];
    if past != [] && Alive(backend, past, openedAt, hit.prolonged, hit.at) {
      k := SinceCreatedIsRun(backend, past, openedAt);
      LivesOn(backend, past, openedAt, hit, k);
      assert log[k..] == past[k..] + [hit];
    } else {
      k := |past|;
      assert log[k..] == [hit] && Carried(backend, past, openedAt, hit.prolonged, hit.at) == [];
    }
  }

  /** The total equals the sum of the endpoint counters. */
  lemma {:induction false} TallyTotal(hits: seq<Hit>)
    ensures Total(Tally(hits)) == |hits|
  {
    if hits != [] {
      TallyTotal(hits[..|hits| - 1]);
      TotalIncrement(Tally(hits[..|hits| - 1]), hits[|hits| - 1].endpoint);
    }
  }
}
