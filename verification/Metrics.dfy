/** Request metrics per endpoint (frontend/lib/api/metrics.ts): counters, the ring of the latest
    latencies, and percentiles of them. */
module Metrics {
  import opened Tallies

  const MAX_SAMPLES: nat := 1000

  /** One completed request, as reported. */
  datatype Observation = Observation(endpoint: string, statusCode: int, latencyMs: int)

  /** The hundreds digit that names the status class; rounds down, as the code does. */
  function StatusClass(statusCode: int): int { statusCode / 100 }

  datatype EndpointMetrics = EndpointMetrics(totalRequests: nat, statusCounts: map<int, nat>, latencySamples: seq<int>)

  const EMPTY := EndpointMetrics(0, map[], [])

  // ── The reference: everything ever recorded ───────────────────────────────────────────────

  function Latencies(log: seq<Observation>, endpoint: string): seq<int> {
    if log == [] then []
    else
      var o := log[|log| - 1];
      Latencies(log[..|log| - 1], endpoint) + (if o.endpoint == endpoint then [o.latencyMs] else [])
  }

  function Classes(log: seq<Observation>, endpoint: string): map<int, nat> {
    if log == [] then map[]
    else
      var o := log[|log| - 1];
      var earlier := Classes(log[..|log| - 1], endpoint);
      if o.endpoint == endpoint then Increment(earlier, StatusClass(o.statusCode)) else earlier
  }

  function Latest(xs: seq<int>): seq<int> {
    if |xs| <= MAX_SAMPLES then xs else xs[|xs| - MAX_SAMPLES..]
  }

  function MetricsOf(log: seq<Observation>, endpoint: string): EndpointMetrics {
    var latencies := Latencies(log, endpoint);
    EndpointMetrics(|latencies|, Classes(log, endpoint), Latest(latencies))
  }

  predicate Tracked(endpoints: map<string, EndpointMetrics>, log: seq<Observation>, endpoint: string) {
    if endpoint in endpoints then Latencies(log, endpoint) != [] && endpoints[endpoint] == MetricsOf(log, endpoint)
    else Latencies(log, endpoint) == [] && Classes(log, endpoint) == map[]
  }

  lemma LogGrows(log: seq<Observation>, o: Observation, endpoint: string)
    ensures Latencies(log + [o], endpoint)
         == Latencies(log, endpoint) + (if o.endpoint == endpoint then [o.latencyMs] else [])
    ensures Classes(log + [o], endpoint)
         == if o.endpoint == endpoint then Increment(Classes(log, endpoint), StatusClass(o.statusCode))
            else Classes(log, endpoint)
  {
    assert (log + [o])[..|log|] == log;
  }

  /** Dropping the oldest of a full ring and appending keeps exactly the latest samples. */
  lemma RingKeepsLatest(xs: seq<int>, x: int)
    ensures var ring := Latest(xs);
            Latest(xs + [x]) == (if |ring| >= MAX_SAMPLES then ring[1..] else ring) + [x]
  {
  }

  /** Every request is counted in one status class. */
  lemma {:induction false} ClassesTotal(log: seq<Observation>, endpoint: string)
    ensures Total(Classes(log, endpoint)) == |Latencies(log, endpoint)|
  {
    if log != [] {
      var o, earlier := log[|log| - 1], log[..|log| - 1];
      ClassesTotal(earlier, endpoint);
      if o.endpoint == endpoint { TotalIncrement(Classes(earlier, endpoint), StatusClass(o.statusCode)); }
    }
  }

  // ── Percentiles ───────────────────────────────────────────────────────────────────────────

  predicate Sorted(xs: seq<int>) {
    forall i, j :: 0 <= i < j < |xs| ==> xs[i] <= xs[j]
  }

  function Insert(xs: seq<int>, x: int): seq<int> {
    if xs == [] || x <= xs[0] then [x] + xs else [xs[0]] + Insert(xs[1..], x)
  }

  function Sort(xs: seq<int>): seq<int> {
    if xs == [] then [] else Insert(Sort(xs[..|xs| - 1]), xs[|xs| - 1])
  }

  function AtMost(xs: seq<int>, v: int): nat {
    if xs == [] then 0 else (if xs[0] <= v then 1 else 0) + AtMost(xs[1..], v)
  }

  lemma {:induction false} InsertContents(xs: seq<int>, x: int)
    ensures multiset(Insert(xs, x)) == multiset(xs) + multiset{x}
  {
    if xs != [] && x > xs[0] {
      InsertContents(xs[1..], x);
      assert xs == [xs[0]] + xs[1..];
    }
  }

  lemma {:induction false} InsertAbove(xs: seq<int>, x: int, least: int)
    requires least <= x && forall i :: 0 <= i < |xs| ==> least <= xs[i]
    ensures forall i :: 0 <= i < |Insert(xs, x)| ==> least <= Insert(xs, x)[i]
  {
    if xs != [] && x > xs[0] { InsertAbove(xs[1..], x, least); }
  }

  lemma {:induction false} InsertSorted(xs: seq<int>, x: int)
    requires Sorted(xs)
    ensures Sorted(Insert(xs, x))
  {
    if xs != [] && x > xs[0] {
      InsertSorted(xs[1..], x);
      InsertAbove(xs[1..], x, xs[0]);
    }
  }

  lemma {:induction false} SortSorts(xs: seq<int>)
    ensures Sorted(Sort(xs)) && multiset(Sort(xs)) == multiset(xs) && |Sort(xs)| == |xs|
  {
    if xs != [] {
      var front := xs[..|xs| - 1];
      SortSorts(front);
      InsertSorted(Sort(front), xs[|xs| - 1]);
      InsertContents(Sort(front), xs[|xs| - 1]);
      assert xs == front + [xs[|xs| - 1]];
      assert |Sort(xs)| == |multiset(Sort(xs))| == |multiset(xs)| == |xs|;
    }
  }

  /** How many of `xs` are at most `v` does not depend on their order. */
  lemma {:induction false} AtMostOfInsert(xs: seq<int>, x: int, v: int)
    ensures AtMost(Insert(xs, x), v) == AtMost(xs, v) + (if x <= v then 1 else 0)
  {
    if xs != [] && x > xs[0] {
      AtMostOfInsert(xs[1..], x, v);
      assert Insert(xs, x)[1..] == Insert(xs[1..], x);
    } else {
      assert ([x] + xs)[1..] == xs;
    }
  }

  lemma {:induction false} AtMostOfAppend(xs: seq<int>, x: int, v: int)
    ensures AtMost(xs + [x], v) == AtMost(xs, v) + (if x <= v then 1 else 0)
  {
    if xs != [] {
      assert (xs + [x])[1..] == xs[1..] + [x];
      AtMostOfAppend(xs[1..], x, v);
    }
  }

  lemma {:induction false} AtMostOfSort(xs: seq<int>, v: int)
    ensures AtMost(Sort(xs), v) == AtMost(xs, v)
  {
    if xs != [] {
      var front, x := xs[..|xs| - 1], xs[|xs| - 1];
      AtMostOfSort(front, v);
      AtMostOfInsert(Sort(front), x, v);
      AtMostOfAppend(front, x, v);
      assert xs == front + [x];
    }
  }

  lemma {:induction false} AtMostInSorted(xs: seq<int>, v: int)
    requires Sorted(xs)
    ensures AtMost(xs, v) <= |xs|
    ensures forall i :: 0 <= i < |xs| ==> (xs[i] <= v <==> i < AtMost(xs, v))
  {
    if xs != [] {
      AtMostInSorted(xs[1..], v);
      assert forall i :: 1 <= i < |xs| ==> xs[i] == xs[1..][i - 1];
    }
  }

  lemma ProductMonotone(p: nat, q: nat, n: nat)
    requires p <= q
    ensures p * n <= q * n
  {
  }

  /** The rank a percentile asks for: `p` percent of `n`, rounded up, and at least the first. */
  function RankOf(n: nat, p: nat): (rank: nat)
    ensures rank >= 1
    ensures n > 0 && p <= 100 ==> rank <= n
  {
    var product := p * n;
    assert p <= 100 ==> product <= 100 * n by {
      if p <= 100 { ProductMonotone(p, 100, n); }
    }
    if product <= 0 then 1 else (product + 99) / 100
  }

  lemma RankRoundsUp(n: nat, p: nat)
    ensures p * n == 0 ==> RankOf(n, p) == 1
    ensures p * n > 0 ==> 100 * (RankOf(n, p) - 1) < p * n <= 100 * RankOf(n, p)
  {
  }

  function Percentile(sorted: seq<int>, p: nat): int
    requires p <= 100
  {
    if |sorted| == 0 then 0
    else
      var rank := RankOf(|sorted|, p);
      var product := p * |sorted|;
      var idx := (product + 99) / 100 - 1;
      assert idx < 0 || idx == rank - 1;
      sorted[if idx < 0 then 0 else idx]
  }

  lemma PercentileIndex(sorted: seq<int>, p: nat)
    requires p <= 100 && sorted != []
    ensures Percentile(sorted, p) == sorted[RankOf(|sorted|, p) - 1]
  {
  }

  lemma RankMonotone(n: nat, p: nat, q: nat)
    requires p <= q
    ensures RankOf(n, p) <= RankOf(n, q)
  {
    ProductMonotone(p, q, n);
  }

  /** `v` stands at the rank: that many samples are no greater, and fewer than that are smaller. */
  predicate AtRank(xs: seq<int>, rank: nat, v: int) {
    v in xs && AtMost(xs, v - 1) < rank <= AtMost(xs, v)
  }

  lemma AtRankInSorted(sorted: seq<int>, rank: nat, v: int)
    requires Sorted(sorted) && 1 <= rank <= |sorted|
    ensures AtRank(sorted, rank, v) <==> v == sorted[rank - 1]
  {
    AtMostInSorted(sorted, v);
    AtMostInSorted(sorted, v - 1);
    if v == sorted[rank - 1] {
      assert sorted[rank - 1] <= v && !(sorted[rank - 1] <= v - 1);
    }
  }

  /** What a percentile of the samples is: a sample at the rank, and the only value that is. */
  lemma PercentileIsAtRank(xs: seq<int>, p: nat, v: int)
    requires xs != [] && p <= 100
    ensures AtRank(xs, RankOf(|xs|, p), v) <==> v == Percentile(Sort(xs), p)
  {
    var sorted := Sort(xs);
    SortSorts(xs);
    AtMostOfSort(xs, v);
    AtMostOfSort(xs, v - 1);
    assert v in xs <==> v in multiset(xs);
    assert v in sorted <==> v in multiset(sorted);
    PercentileIndex(sorted, p);
    AtRankInSorted(sorted, RankOf(|xs|, p), v);
  }

  lemma PercentilesOrdered(xs: seq<int>, p: nat, q: nat)
    requires p <= q <= 100
    ensures Percentile(Sort(xs), p) <= Percentile(Sort(xs), q)
  {
    SortSorts(xs);
    if xs != [] {
      PercentileIndex(Sort(xs), p);
      PercentileIndex(Sort(xs), q);
      RankMonotone(|xs|, p, q);
    }
  }

  // ── The code ──────────────────────────────────────────────────────────────────────────────

  datatype EndpointSnapshot = EndpointSnapshot(
    totalRequests: nat, statusCounts: map<int, nat>, p50: int, p95: int, p99: int, errorRate: real, availability: real)

  function SnapshotOf(m: EndpointMetrics): EndpointSnapshot {
    var sorted := Sort(m.latencySamples);
    var errorRate := if m.totalRequests > 0 then CountOf(m.statusCounts, 5) as real / m.totalRequests as real else 0.0;
    EndpointSnapshot(
      m.totalRequests, m.statusCounts, Percentile(sorted, 50), Percentile(sorted, 95), Percentile(sorted, 99),
      errorRate, 1.0 - errorRate)
  }

  ghost predicate AllTracked(endpoints: map<string, EndpointMetrics>, log: seq<Observation>) {
    forall endpoint :: Tracked(endpoints, log, endpoint)
  }

  lemma MetricsGrow(log: seq<Observation>, o: Observation)
    ensures var m := MetricsOf(log, o.endpoint);
            var kept := if |m.latencySamples| >= MAX_SAMPLES then m.latencySamples[1..] else m.latencySamples;
            MetricsOf(log + [o], o.endpoint) ==
              EndpointMetrics(m.totalRequests + 1, Increment(m.statusCounts, StatusClass(o.statusCode)),
                              kept + [o.latencyMs])
  {
    LogGrows(log, o, o.endpoint);
    RingKeepsLatest(Latencies(log, o.endpoint), o.latencyMs);
  }

  lemma OthersTracked(endpoints: map<string, EndpointMetrics>, log: seq<Observation>, o: Observation, m: EndpointMetrics)
    requires AllTracked(endpoints, log) && m == MetricsOf(log + [o], o.endpoint)
    ensures AllTracked(endpoints[o.endpoint := m], log + [o])
  {
    var endpoints' := endpoints[o.endpoint := m];
    forall other
      ensures Tracked(endpoints', log + [o], other)
    {
      assert Tracked(endpoints, log, other);
      LogGrows(log, o, other);
    }
  }

  class Collector {
    var endpoints: map<string, EndpointMetrics>
    ghost var log: seq<Observation>

    ghost predicate Valid()
      reads this
    {
      AllTracked(endpoints, log)
    }

    constructor ()
      ensures Valid() && log == []
    {
      endpoints, log := map[], [];
    }

    method RecordRequest(endpoint: string, statusCode: int, latencyMs: int)
      requires Valid()
      modifies this
      ensures Valid() && log == old(log) + [Observation(endpoint, statusCode, latencyMs)]
    {
      ghost var o := Observation(endpoint, statusCode, latencyMs);
      assert Tracked(endpoints, log, endpoint);
      var m := if endpoint in endpoints then endpoints[endpoint] else EMPTY;
      m := m.(totalRequests := m.totalRequests + 1);
      m := m.(statusCounts := Increment(m.statusCounts, StatusClass(statusCode)));
      if |m.latencySamples| >= MAX_SAMPLES {
        m := m.(latencySamples := m.latencySamples[1..]);
      }
      m := m.(latencySamples := m.latencySamples + [latencyMs]);
      MetricsGrow(log, o);
      OthersTracked(endpoints, log, o, m);
      endpoints := endpoints[endpoint := m];
      log := log + [o];
    }

    method GetMetricsSnapshot() returns (snapshot: map<string, EndpointSnapshot>)
      requires Valid()
      ensures forall endpoint :: endpoint in snapshot <==> Latencies(log, endpoint) != []
      ensures forall endpoint :: endpoint in snapshot ==>
                snapshot[endpoint] == SnapshotOf(MetricsOf(log, endpoint))
    {
      snapshot := map[];
      var pending := endpoints.Keys;
      while pending != {}
        invariant pending <= endpoints.Keys && snapshot.Keys == endpoints.Keys - pending
        invariant forall endpoint :: endpoint in snapshot ==>
                    snapshot[endpoint] == SnapshotOf(MetricsOf(log, endpoint))
        decreases |pending|
      {
        var endpoint :| endpoint in pending;
        assert Tracked(endpoints, log, endpoint);
        snapshot := snapshot[endpoint := SnapshotOf(endpoints[endpoint])];
        pending := pending - {endpoint};
      }
      forall endpoint
        ensures endpoint in snapshot <==> Latencies(log, endpoint) != []
      {
        assert Tracked(endpoints, log, endpoint);
      }
    }
  }

  // ── What a reader of a snapshot may rely on ───────────────────────────────────────────────

  /** The requests of an endpoint, by their places in the log. */
  ghost function RequestsOf(log: seq<Observation>, endpoint: string): set<nat> {
    set i | 0 <= i < |log| && log[i].endpoint == endpoint
  }

  /** Those of them with a status of the hundred from `100 * hundred` on. */
  ghost function AnsweredIn(log: seq<Observation>, endpoint: string, hundred: int): set<nat> {
    set i | 0 <= i < |log| && log[i].endpoint == endpoint && 100 * hundred <= log[i].statusCode < 100 * hundred + 100
  }

  lemma PlacesGrow(log: seq<Observation>, o: Observation, endpoint: string, hundred: int)
    ensures RequestsOf(log + [o], endpoint)
         == RequestsOf(log, endpoint) + (if o.endpoint == endpoint then {|log|} else {})
    ensures AnsweredIn(log + [o], endpoint, hundred)
         == AnsweredIn(log, endpoint, hundred)
            + (if o.endpoint == endpoint && 100 * hundred <= o.statusCode < 100 * hundred + 100 then {|log|} else {})
  {
    var log' := log + [o];
    assert log'[|log|] == o && forall i :: 0 <= i < |log| ==> log'[i] == log[i];
  }

  lemma {:induction false} RequestsCounted(log: seq<Observation>, endpoint: string)
    ensures |Latencies(log, endpoint)| == |RequestsOf(log, endpoint)|
  {
    if log == [] {
      assert RequestsOf(log, endpoint) == {};
    } else {
      var past, o := log[..|log| - 1], log[|log| - 1];
      RequestsCounted(past, endpoint);
      PlacesGrow(past, o, endpoint, 0);
      LogGrows(past, o, endpoint);
      assert log == past + [o];
      OneMorePlace(RequestsOf(past, endpoint), |past|, o.endpoint == endpoint);
    }
  }

  lemma {:induction false} ClassCounted(log: seq<Observation>, endpoint: string, hundred: int)
    ensures CountOf(Classes(log, endpoint), hundred) == |AnsweredIn(log, endpoint, hundred)|
  {
    if log == [] {
      assert AnsweredIn(log, endpoint, hundred) == {};
    } else {
      var past, o := log[..|log| - 1], log[|log| - 1];
      var hit := o.endpoint == endpoint && 100 * hundred <= o.statusCode < 100 * hundred + 100;
      ClassCounted(past, endpoint, hundred);
      PlacesGrow(past, o, endpoint, hundred);
      LogGrows(past, o, endpoint);
      assert log == past + [o];
      OneMorePlace(AnsweredIn(past, endpoint, hundred), |past|, hit);
      CountOfIncrement(Classes(past, endpoint), StatusClass(o.statusCode), hundred);
      assert StatusClass(o.statusCode) == hundred <==> 100 * hundred <= o.statusCode < 100 * hundred + 100;
    }
  }

  /** After any history of an endpoint: all its requests are counted, each in the class of its status. */
  lemma SnapshotMeaning(log: seq<Observation>, endpoint: string)
    requires Latencies(log, endpoint) != []
    ensures var s := SnapshotOf(MetricsOf(log, endpoint));
            && s.totalRequests == |RequestsOf(log, endpoint)| > 0
            && (forall hundred :: CountOf(s.statusCounts, hundred) == |AnsweredIn(log, endpoint, hundred)|)
            && s.totalRequests == Total(s.statusCounts)
  {
    ClassesTotal(log, endpoint);
    RequestsCounted(log, endpoint);
    forall hundred
      ensures CountOf(Classes(log, endpoint), hundred) == |AnsweredIn(log, endpoint, hundred)|
    {
      ClassCounted(log, endpoint, hundred);
    }
  }

  /** The error rate is the part of them that was answered with 500 to 599, and availability the rest. */
  lemma ErrorRateMeaning(log: seq<Observation>, endpoint: string)
    requires Latencies(log, endpoint) != []
    ensures var s := SnapshotOf(MetricsOf(log, endpoint));
            var failed := set i | 0 <= i < |log| && log[i].endpoint == endpoint && 500 <= log[i].statusCode < 600;
            && s.totalRequests > 0
            && s.errorRate == |failed| as real / s.totalRequests as real
            && s.availability == 1.0 - s.errorRate
  {
    var failed := set i | 0 <= i < |log| && log[i].endpoint == endpoint && 500 <= log[i].statusCode < 600;
    ClassCounted(log, endpoint, 5);
    assert failed == AnsweredIn(log, endpoint, 5);
  }

  /** The value stands at the rank of the percentage. */
  predicate IsPercentile(xs: seq<int>, p: nat, v: int) {
    AtRank(xs, RankOf(|xs|, p), v)
  }

  /** The samples are the last thousand latencies. */
  lemma SamplesAreLatest(log: seq<Observation>, endpoint: string)
    ensures var all := Latencies(log, endpoint);
            MetricsOf(log, endpoint).latencySamples == if |all| <= 1000 then all else all[|all| - 1000..]
    ensures MetricsOf(log, endpoint).latencySamples == [] <==> Latencies(log, endpoint) == []
  {
  }

  /** And the percentiles stand at their ranks among the samples, in order. */
  lemma SnapshotPercentiles(m: EndpointMetrics)
    requires m.latencySamples != []
    ensures var s := SnapshotOf(m);
            && IsPercentile(m.latencySamples, 50, s.p50) && IsPercentile(m.latencySamples, 95, s.p95)
            && IsPercentile(m.latencySamples, 99, s.p99)
            && s.p50 <= s.p95 <= s.p99
  {
    var sorted := Sort(m.latencySamples);
    PercentileIsAtRank(m.latencySamples, 50, Percentile(sorted, 50));
    PercentileIsAtRank(m.latencySamples, 95, Percentile(sorted, 95));
    PercentileIsAtRank(m.latencySamples, 99, Percentile(sorted, 99));
    PercentilesOrdered(m.latencySamples, 50, 95);
    PercentilesOrdered(m.latencySamples, 95, 99);
  }
}
