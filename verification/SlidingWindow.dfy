/** The per-key sliding-window limiter with a burst cap (frontend/lib/api/auth.ts).

    `RateLimiter` is the code: it keeps a pruned list of timestamps in a store that forgets.
    `Decide` is the reference: a limiter that looks at every acceptance there ever was. */
module SlidingWindow {
  import opened Options
  import opened KeyValue
  import opened Quotas

  /** Zero stands for an absent optional field: the code tests both burst fields for truth. */
  datatype Config = Config(limit: Positive, windowMs: nat, burstLimit: nat, burstWindowMs: nat) {
    predicate HasBurst() { burstLimit != 0 && burstWindowMs != 0 }

    /** Burst timestamps are picked from those already in the long window. */
    function BurstSpan(): nat { if burstWindowMs < windowMs then burstWindowMs else windowMs }
  }

  const PARTNER := Config(1000, 60_000, 50, 10_000)
  const INTERNAL := Config(5000, 60_000, 200, 10_000)

  /** The timestamps less than `span` before `now`, in order. */
  function Recent(log: seq<int>, now: int, span: int): seq<int> {
    if log == [] then []
    else
      var last := log[|log| - 1];
      Recent(log[..|log| - 1], now, span) + (if now - last < span then [last] else [])
  }

  /** The verdict of a limiter that has kept `log`, every acceptance ever made. */
  function Decide(c: Config, log: seq<int>, now: int): Verdict {
    var window := Recent(log, now, c.windowMs);
    var burst := Recent(log, now, c.BurstSpan());
    if |window| >= c.limit then Refused(RetryAfter(window[0], c.windowMs, now))
    else if c.HasBurst() && |burst| >= c.burstLimit then
      Refused(RetryAfter(burst[0], c.burstWindowMs, now))
    else Allowed
  }

  predicate Sorted(log: seq<int>) {
    forall i, j :: 0 <= i < j < |log| ==> log[i] <= log[j]
  }

  predicate UpTo(log: seq<int>, now: int) {
    forall i :: 0 <= i < |log| ==> log[i] <= now
  }

  /** The logs a run can produce: each timestamp was allowed, in clock order. */
  ghost predicate Produced(c: Config, log: seq<int>) {
    log == [] ||
    var pre, t := log[..|log| - 1], log[|log| - 1];
    Produced(c, pre) && UpTo(pre, t) && Decide(c, pre, t) == Allowed
  }

  // ── The code ──────────────────────────────────────────────────────────────────────────────

  datatype RateLimitRecord = RateLimitRecord(timestamps: seq<int>, expiresAt: int)

  function KvKey(apiKey: string): string { "rl:" + apiKey }

  /** What the code works with after its read: the stored timestamps, or none if the record is
      gone from the store or past its own expiry. */
  function ReadBack(backend: Backend, kv: Store<RateLimitRecord>, apiKey: string, now: int): seq<int> {
    match Get(backend, kv, KvKey(apiKey), now)
    case None => []
    case Some(record) => if record.expiresAt <= now then [] else record.timestamps
  }

  /** From `clock` on, the store answers for `apiKey` like the full log. */
  ghost predicate Tracks(
    c: Config, backend: Backend, kv: Store<RateLimitRecord>, apiKey: string, log: seq<int>, clock: int)
  {
    forall now :: clock <= now ==>
      Recent(ReadBack(backend, kv, apiKey, now), now, c.windowMs) == Recent(log, now, c.windowMs)
  }

  /** Pruning at one time and reading at another keeps what lies after both cutoffs. */
  lemma {:induction false} RecentOfRecent(log: seq<int>, t: int, outer: int, now: int, span: int)
    ensures Recent(Recent(log, t, outer), now, span)
         == Recent(log, now, if t - outer > now - span then now - t + outer else span)
  {
    if log != [] {
      var pre := log[..|log| - 1];
      RecentOfRecent(pre, t, outer, now, span);
      if t - log[|log| - 1] < outer {
        RecentAppend(Recent(pre, t, outer), log[|log| - 1], now, span);
      } else {
        assert Recent(log, t, outer) == Recent(pre, t, outer);
      }
    }
  }

  lemma RecentAppend(log: seq<int>, t: int, now: int, span: int)
    ensures Recent(log + [t], now, span) == Recent(log, now, span) + (if now - t < span then [t] else [])
  {
    assert (log + [t])[..|log|] == log;
  }

  lemma {:induction false} AllStale(log: seq<int>, now: int, span: int)
    requires UpTo(log, now - span)
    ensures Recent(log, now, span) == []
  {
    if log != [] { AllStale(log[..|log| - 1], now, span); }
  }

  ghost function LogOf(accepted: map<string, seq<int>>, apiKey: string): seq<int> {
    if apiKey in accepted then accepted[apiKey] else []
  }

  ghost predicate KeyTracked(c: Config, backend: Backend, kv: Store<RateLimitRecord>, apiKey: string,
                             log: seq<int>, clock: int)
  {
    Produced(c, log) && UpTo(log, clock) && Tracks(c, backend, kv, apiKey, log, clock)
  }

  /** A record written at `t` outlives, in both its expiries, every timestamp it holds. */
  lemma AcceptanceTracked(
    c: Config, backend: Backend, kv: Store<RateLimitRecord>, apiKey: string, log: seq<int>, t: int)
    requires Produced(c, log) && UpTo(log, t) && Decide(c, log, t) == Allowed && KvKey(apiKey) in kv
    requires kv[KvKey(apiKey)].value == RateLimitRecord(Recent(log, t, c.windowMs) + [t], t + c.windowMs)
    requires kv[KvKey(apiKey)].expiresAt > t + c.windowMs
    ensures KeyTracked(c, backend, kv, apiKey, log + [t], t)
  {
    assert (log + [t])[..|log|] == log;
    forall now | t <= now
      ensures Recent(ReadBack(backend, kv, apiKey, now), now, c.windowMs) == Recent(log + [t], now, c.windowMs)
    {
      if now < t + c.windowMs {
        assert ReadBack(backend, kv, apiKey, now) == Recent(log, t, c.windowMs) + [t];
        StillRecent(log, t, now, c.windowMs);
      } else {
        AllStale(log + [t], now, c.windowMs);
        assert ReadBack(backend, kv, apiKey, now) == [];
      }
    }
  }

  lemma StillRecent(log: seq<int>, t: int, now: int, span: int)
    requires t <= now < t + span
    ensures Recent(Recent(log, t, span) + [t], now, span) == Recent(log + [t], now, span)
  {
    RecentAppend(log, t, now, span);
    RecentAppend(Recent(log, t, span), t, now, span);
    RecentOfRecent(log, t, span, now, span);
  }

  ghost predicate AllTracked(c: Config, backend: Backend, kv: Store<RateLimitRecord>,
                             accepted: map<string, seq<int>>, clock: int)
  {
    forall apiKey :: KeyTracked(c, backend, kv, apiKey, LogOf(accepted, apiKey), clock)
  }

  lemma KvKeyInjective(a: string, b: string)
    requires a != b
    ensures KvKey(a) != KvKey(b)
  {
    assert KvKey(a)[3..] == a && KvKey(b)[3..] == b;
  }

  lemma SameRecordTracked(
    c: Config, backend: Backend, kv: Store<RateLimitRecord>, kv': Store<RateLimitRecord>,
    apiKey: string, log: seq<int>, clock: int, now: int)
    requires clock <= now && KeyTracked(c, backend, kv, apiKey, log, clock)
    requires forall later :: now <= later ==>
               ReadBack(backend, kv', apiKey, later) == ReadBack(backend, kv, apiKey, later)
    ensures KeyTracked(c, backend, kv', apiKey, log, now)
  {
  }

  /** Reading, and dropping the record if it is past its own expiry, disturbs no answer. */
  lemma ReadTracked(c: Config, backend: Backend, kv: Store<RateLimitRecord>, kv': Store<RateLimitRecord>,
                    accepted: map<string, seq<int>>, clock: int, apiKey: string, now: int)
    requires AllTracked(c, backend, kv, accepted, clock) && clock <= now
    requires kv' == kv || (kv' == kv - {KvKey(apiKey)}
                           && KvKey(apiKey) in kv && kv[KvKey(apiKey)].value.expiresAt <= now)
    ensures AllTracked(c, backend, kv', accepted, now)
    ensures Recent(ReadBack(backend, kv, apiKey, now), now, c.windowMs)
         == Recent(LogOf(accepted, apiKey), now, c.windowMs)
  {
    forall other
      ensures KeyTracked(c, backend, kv', other, LogOf(accepted, other), now)
    {
      assert KeyTracked(c, backend, kv, other, LogOf(accepted, other), clock);
      SameReads(backend, kv, kv', apiKey, other, now);
      SameRecordTracked(c, backend, kv, kv', other, LogOf(accepted, other), clock, now);
    }
    assert KeyTracked(c, backend, kv, apiKey, LogOf(accepted, apiKey), clock);
  }

  lemma SameReads(backend: Backend, kv: Store<RateLimitRecord>, kv': Store<RateLimitRecord>,
                  apiKey: string, other: string, now: int)
    requires kv' == kv || (kv' == kv - {KvKey(apiKey)}
                           && KvKey(apiKey) in kv && kv[KvKey(apiKey)].value.expiresAt <= now)
    ensures forall later :: now <= later ==>
              ReadBack(backend, kv', other, later) == ReadBack(backend, kv, other, later)
  {
    if other != apiKey { KvKeyInjective(other, apiKey); }
  }

  /** Recording an acceptance tracks the longer log and leaves every other key's record alone. */
  lemma WriteTracked(c: Config, backend: Backend, kv: Store<RateLimitRecord>,
                     accepted: map<string, seq<int>>, apiKey: string, now: int,
                     log: seq<int>, record: RateLimitRecord, ttlSeconds: Positive)
    requires AllTracked(c, backend, kv, accepted, now)
    requires log == LogOf(accepted, apiKey) && Decide(c, log, now) == Allowed
    requires record == RateLimitRecord(Recent(log, now, c.windowMs) + [now], now + c.windowMs)
    requires c.windowMs < 1000 * ttlSeconds
    ensures AllTracked(c, backend, Put(kv, KvKey(apiKey), record, ttlSeconds, now),
                       accepted[apiKey := log + [now]], now)
  {
    var kv', accepted' := Put(kv, KvKey(apiKey), record, ttlSeconds, now), accepted[apiKey := log + [now]];
    forall other
      ensures KeyTracked(c, backend, kv', other, LogOf(accepted', other), now)
    {
      if other == apiKey {
        assert KeyTracked(c, backend, kv, apiKey, log, now);
        AcceptanceTracked(c, backend, kv', apiKey, log, now);
      } else {
        OtherTracked(c, backend, kv, accepted, apiKey, now, kv', other);
        assert LogOf(accepted', other) == LogOf(accepted, other);
      }
    }
  }

  lemma OtherTracked(c: Config, backend: Backend, kv: Store<RateLimitRecord>, accepted: map<string, seq<int>>,
                     apiKey: string, now: int, kv': Store<RateLimitRecord>, other: string)
    requires AllTracked(c, backend, kv, accepted, now) && other != apiKey
    requires KvKey(apiKey) in kv' && kv' == kv[KvKey(apiKey) := kv'[KvKey(apiKey)]]
    ensures KeyTracked(c, backend, kv', other, LogOf(accepted, other), now)
  {
    KvKeyInjective(other, apiKey);
    assert KeyTracked(c, backend, kv, other, LogOf(accepted, other), now);
    SameRecordTracked(c, backend, kv, kv', other, LogOf(accepted, other), now, now);
  }

  class RateLimiter {
    const config: Config
    const backend: Backend
    var kv: Store<RateLimitRecord>
    ghost var accepted: map<string, seq<int>>
    ghost var clock: int

    ghost predicate Valid()
      reads this
    {
      AllTracked(config, backend, kv, accepted, clock)
    }

    constructor (config: Config, backend: Backend, now: int)
      ensures Valid() && this.config == config && this.backend == backend && clock == now
      ensures accepted == map[]
    {
      this.config, this.backend := config, backend;
      kv, accepted, clock := map[], map[], now;
    }

    /** Every verdict is that of the limiter that forgets nothing. */
    method CheckRateLimit(apiKey: string, now: int) returns (verdict: Verdict)
      requires Valid() && clock <= now
      modifies this
      ensures Valid() && clock == now
      ensures verdict == Decide(config, LogOf(old(accepted), apiKey), now)
      ensures accepted == if verdict == Allowed
                          then old(accepted)[apiKey := LogOf(old(accepted), apiKey) + [now]]
                          else old(accepted)
    {
      ghost var log := LogOf(accepted, apiKey);
      var record := RateLimitRecord([], now + config.windowMs);
      var stored := Get(backend, kv, KvKey(apiKey), now);
      if stored.Some? {
        record := stored.value;
        if record.expiresAt <= now {
          record := RateLimitRecord([], now + config.windowMs);
          kv := kv - {KvKey(apiKey)};
        }
      }
      ReadTracked(config, backend, old(kv), kv, accepted, clock, apiKey, now);
      clock := now;

      var validTimestamps := Recent(record.timestamps, now, config.windowMs);
      assert validTimestamps == Recent(log, now, config.windowMs);
      if |validTimestamps| >= config.limit {
        return Refused(RetryAfter(validTimestamps[0], config.windowMs, now));
      }
      if config.burstLimit != 0 && config.burstWindowMs != 0 {
        RecentOfRecent(log, now, config.windowMs, now, config.burstWindowMs);
        var burstTimestamps := Recent(validTimestamps, now, config.burstWindowMs);
        assert burstTimestamps == Recent(log, now, config.BurstSpan());
        if |burstTimestamps| >= config.burstLimit {
          return Refused(RetryAfter(burstTimestamps[0], config.burstWindowMs, now));
        }
      }

      var ttlSeconds := CeilDiv(config.windowMs, 1000) + 1;
      record := RateLimitRecord(validTimestamps + [now], now + config.windowMs);
      WriteTracked(config, backend, kv, accepted, apiKey, now, log, record, ttlSeconds);
      kv := Put(kv, KvKey(apiKey), record, ttlSeconds, now);
      accepted := accepted[apiKey := log + [now]];
      return Allowed;
    }
  }
}
