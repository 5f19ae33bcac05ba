/** Idempotent mutations (frontend/lib/api/idempotency.ts): a store that expires and prunes its
    entries, compared with the full history of what was executed. */
module Idempotency {
  import opened Options

  datatype Response = Response(status: int, json: Option<string>, headers: map<string, string>)

  /** One keyed request: the handler ran, a stored response was sent again, or a conflict was reported. */
  datatype Step =
    | Executed(key: string, hash: string, start: int, finish: int, ttlMs: int, response: Response)
    | Replayed(key: string, hash: string, start: int, response: Response)
    | Conflicted(key: string, hash: string, start: int)
  {
    function End(): int { if Executed? then finish else start }

    /** Results of 500 and above are not kept. */
    predicate Keeps(k: string) { Executed? && key == k && response.status < 500 }

    function ExpiresAt(): int
      requires Executed?
    {
      finish + ttlMs
    }
  }

  function Replay(response: Response): Response {
    response.(headers := response.headers["idempotent-replayed" := "true"])
  }

  /** The latest result kept for the key, expired or not. */
  function LastKept(h: seq<Step>, key: string): (step: Option<Step>)
    ensures step.Some? ==> step.value.Keeps(key)
  {
    if h == [] then None
    else if h[|h| - 1].Keeps(key) then Some(h[|h| - 1])
    else LastKept(h[..|h| - 1], key)
  }

  /** What a log that drops nothing has in force for the key. */
  function InForce(h: seq<Step>, key: string, now: int): (step: Option<Step>)
    ensures step.Some? ==> step.value.Keeps(key) && now < step.value.ExpiresAt()
  {
    var last := LastKept(h, key);
    if last.Some? && now < last.value.ExpiresAt() then last else None
  }

  predicate Follows(past: seq<Step>, e: Step) {
    match InForce(past, e.key, e.start)
    case None => e.Executed?
    case Some(kept) =>
      if kept.hash != e.hash then e.Conflicted?
      else e.Replayed? && e.response == Replay(kept.response)
  }

  predicate Before(h: seq<Step>, now: int) {
    forall i :: 0 <= i < |h| ==> h[i].End() <= now
  }

  /** The histories of sequential requests. */
  predicate Legal(h: seq<Step>) {
    h == [] ||
    var past, e := h[..|h| - 1], h[|h| - 1];
    Legal(past) && Before(past, e.start) && e.start <= e.End() && Follows(past, e)
  }

  // ── The code ──────────────────────────────────────────────────────────────────────────────

  datatype IdempotencyRecord = IdempotencyRecord(
    bodyHash: string, status: int, body: Option<string>, headers: map<string, string>, expiresAt: int)

  function RecordOf(step: Step): IdempotencyRecord
    requires step.Executed?
  {
    IdempotencyRecord(
      step.hash, step.response.status, step.response.json, step.response.headers, step.ExpiresAt())
  }

  type Records = map<string, IdempotencyRecord>

  /** The store holds the latest kept result, unless that has expired and been dropped. */
  predicate Tracked(store: Records, h: seq<Step>, clock: int, key: string) {
    match LastKept(h, key)
    case None => key !in store
    case Some(kept) => if key in store then store[key] == RecordOf(kept) else kept.ExpiresAt() <= clock
  }

  ghost predicate Inv(store: Records, h: seq<Step>, clock: int) {
    Legal(h) && Before(h, clock) && forall key :: Tracked(store, h, clock, key)
  }

  lemma LookupAgrees(store: Records, h: seq<Step>, clock: int, key: string, now: int)
    requires Inv(store, h, clock) && clock <= now
    ensures match InForce(h, key, now)
            case None => key in store ==> store[key].expiresAt <= now
            case Some(kept) => key in store && store[key] == RecordOf(kept) && now < store[key].expiresAt
  {
    assert Tracked(store, h, clock, key);
  }

  lemma LastKeptAppend(h: seq<Step>, e: Step, key: string)
    ensures LastKept(h + [e], key) == if e.Keeps(key) then Some(e) else LastKept(h, key)
  {
    assert (h + [e])[..|h|] == h;
  }

  lemma LegalAppend(h: seq<Step>, e: Step)
    requires Legal(h) && Before(h, e.start) && e.start <= e.End() && Follows(h, e)
    ensures Legal(h + [e]) && Before(h + [e], e.End())
  {
    assert (h + [e])[..|h|] == h;
  }

  /** Dropping expired records is never noticed. */
  lemma Dropped(store: Records, store': Records, h: seq<Step>, clock: int, now: int)
    requires Inv(store, h, clock) && clock <= now
    requires store'.Keys <= store.Keys && forall key :: key in store' ==> store'[key] == store[key]
    requires forall key :: key in store && key !in store' ==> store[key].expiresAt <= now
    ensures Inv(store', h, now)
  {
    forall key
      ensures Tracked(store', h, now, key)
    {
      assert Tracked(store, h, clock, key);
    }
  }

  /** A step that keeps nothing leaves the store right as it is. */
  lemma Unkept(store: Records, h: seq<Step>, clock: int, e: Step)
    requires Inv(store, h, clock) && clock <= e.start <= e.End() && Follows(h, e) && !e.Keeps(e.key)
    ensures Inv(store, h + [e], e.End())
  {
    LegalAppend(h, e);
    forall key
      ensures Tracked(store, h + [e], e.End(), key)
    {
      assert Tracked(store, h, clock, key);
      LastKeptAppend(h, e, key);
    }
  }

  /** Keeping a result after pruning. */
  lemma Kept(store: Records, h: seq<Step>, clock: int, e: Step)
    requires Inv(store, h, clock) && clock <= e.End() && Before(h, e.start) && e.start <= e.End()
    requires Follows(h, e) && e.Keeps(e.key)
    ensures Inv(store[e.key := RecordOf(e)], h + [e], e.End())
  {
    LegalAppend(h, e);
    var store' := store[e.key := RecordOf(e)];
    forall key
      ensures Tracked(store', h + [e], e.End(), key)
    {
      assert Tracked(store, h, clock, key);
      LastKeptAppend(h, e, key);
    }
  }

  /** How a request is answered. */
  datatype Answer = PassedThrough(response: Response) | Ran(response: Response) | Repeated(response: Response) | Conflict

  class IdempotencyStore {
    const hashBody: string -> string
    var store: Records
    ghost var history: seq<Step>
    ghost var clock: int

    ghost predicate Valid()
      reads this
    {
      Inv(store, history, clock)
    }

    constructor (hashBody: string -> string, now: int)
      ensures Valid() && this.hashBody == hashBody && history == [] && clock == now
    {
      this.hashBody := hashBody;
      store, history, clock := map[], [], now;
    }

    /** Deletes expired records while going over the store. */
    method Prune(now: int)
      modifies this`store
      ensures forall key :: key in store <==> key in old(store) && now < old(store)[key].expiresAt
      ensures forall key :: key in store ==> store[key] == old(store)[key]
    {
      var keys := store.Keys;
      while keys != {}
        invariant keys <= store.Keys <= old(store.Keys)
        invariant forall key :: key in store ==> store[key] == old(store)[key]
        invariant forall key :: key in old(store) && key !in keys ==> (key in store <==> old(store)[key].expiresAt > now)
        decreases |keys|
      {
        var key :| key in keys;
        keys := keys - {key};
        if store[key].expiresAt <= now {
          store := store - {key};
        }
      }
    }

    /** `response` is what the handler gives if it is run, between `start` and `finish`. */
    method WithIdempotency(
      idempotencyKey: Option<string>, rawBody: string, response: Response, ttlMs: int, start: int, finish: int)
      returns (answer: Answer)
      requires Valid() && clock <= start <= finish
      modifies this
      ensures Valid()
      ensures clock == match answer
                       case PassedThrough(_) => old(clock)
                       case Ran(_) => finish
                       case _ => start
      ensures idempotencyKey == None || idempotencyKey.value == "" ==>
                answer == PassedThrough(response) && history == old(history)
      ensures idempotencyKey.Some? && idempotencyKey.value != "" ==>
                var key, hash := idempotencyKey.value, hashBody(rawBody);
                match InForce(old(history), key, start)
                case None =>
                  && answer == Ran(response)
                  && history == old(history) + [Executed(key, hash, start, finish, ttlMs, response)]
                case Some(kept) =>
                  if kept.hash != hash then
                    answer == Conflict && history == old(history) + [Conflicted(key, hash, start)]
                  else
                    && answer == Repeated(Replay(kept.response))
                    && history == old(history) + [Replayed(key, hash, start, Replay(kept.response))]
    {
      if idempotencyKey == None || idempotencyKey.value == "" {
        return PassedThrough(response);
      }
      var key, bodyHash := idempotencyKey.value, hashBody(rawBody);
      LookupAgrees(store, history, clock, key, start);
      if key in store {
        var existing := store[key];
        if existing.expiresAt <= start {
          store := store - {key};
        } else if existing.bodyHash != bodyHash {
          Unkept(store, history, clock, Conflicted(key, bodyHash, start));
          history, clock := history + [Conflicted(key, bodyHash, start)], start;
          return Conflict;
        } else {
          var res := Replay(Response(existing.status, existing.body, existing.headers));
          Unkept(store, history, clock, Replayed(key, bodyHash, start, res));
          history, clock := history + [Replayed(key, bodyHash, start, res)], start;
          return Repeated(res);
        }
      }
      Dropped(old(store), store, history, clock, start);
      Execute(key, bodyHash, response, ttlMs, start, finish);
      return Ran(response);
    }

    /** The handler has run; its result is kept unless it is a server error. */
    method Execute(key: string, bodyHash: string, response: Response, ttlMs: int, start: int, finish: int)
      requires Inv(store, history, start) && start <= finish && InForce(history, key, start) == None
      modifies this
      ensures Valid() && clock == finish
      ensures history == old(history) + [Executed(key, bodyHash, start, finish, ttlMs, response)]
    {
      ghost var step := Executed(key, bodyHash, start, finish, ttlMs, response);
      if response.status < 500 {
        Prune(finish);
        Dropped(old(store), store, history, start, finish);
        Kept(store, history, finish, step);
        store := store[key :=
          IdempotencyRecord(bodyHash, response.status, response.json, response.headers, finish + ttlMs)];
      } else {
        Unkept(store, history, start, step);
      }
      history, clock := history + [step], finish;
    }
  }

  // ── What a client may rely on ─────────────────────────────────────────────────────────────

  lemma {:induction false} PrefixLegal(h: seq<Step>, n: nat)
    requires Legal(h) && n <= |h|
    ensures Legal(h[..n])
    ensures n < |h| ==> Before(h[..n], h[n].start) && h[n].start <= h[n].End() && Follows(h[..n], h[n])
  {
    if n == |h| {
      assert h[..n] == h;
    } else if n < |h| - 1 {
      var past := h[..|h| - 1];
      PrefixLegal(past, n);
      assert past[..n] == h[..n];
    }
  }

  lemma {:induction false} LastKeptIndex(h: seq<Step>, key: string) returns (i: nat)
    requires LastKept(h, key).Some?
    ensures i < |h| && h[i] == LastKept(h, key).value
    ensures forall k :: i < k < |h| ==> !h[k].Keeps(key)
  {
    if h[|h| - 1].Keeps(key) {
      i := |h| - 1;
    } else {
      var past := h[..|h| - 1];
      i := LastKeptIndex(past, key);
      assert forall k :: 0 <= k < |past| ==> past[k] == h[k];
    }
  }

  lemma {:induction false} SomethingKept(h: seq<Step>, key: string, i: nat)
    requires i < |h| && h[i].Keeps(key)
    ensures LastKept(h, key).Some?
  {
    if i < |h| - 1 { SomethingKept(h[..|h| - 1], key, i); }
  }

  lemma {:induction false} KeptBarsRuns(h: seq<Step>, i: nat, j: nat)
    requires Legal(h) && i < j < |h|
    requires h[i].Keeps(h[i].key) && h[j].Executed? && h[j].key == h[i].key
    ensures h[j].start >= h[i].ExpiresAt()
    decreases j
  {
    var key := h[i].key;
    var past := h[..j];
    PrefixLegal(h, j);
    assert past[i] == h[i];
    SomethingKept(past, key, i);
    var m := LastKeptIndex(past, key);
    assert past[m] == h[m];
    if i < m {
      KeptBarsRuns(h, i, m);
      assert past[m].End() <= h[j].start;
      PrefixLegal(h, m);
    } else if m < i {
      assert false;
    }
  }

  lemma LatestKept(h: seq<Step>, j: nat) returns (i: nat)
    requires Legal(h) && j < |h| && !h[j].Executed?
    ensures i < j && h[i].Keeps(h[j].key) && h[j].start < h[i].ExpiresAt()
    ensures h[j].Replayed? ==> h[i].hash == h[j].hash && h[j].response == Replay(h[i].response)
    ensures h[j].Conflicted? ==> h[i].hash != h[j].hash
    ensures forall k :: 0 <= k < j && h[k].Keeps(h[j].key) && h[j].start < h[k].ExpiresAt() ==> k == i
  {
    PrefixLegal(h, j);
    var past := h[..j];
    i := LastKeptIndex(past, h[j].key);
    assert past[i] == h[i] && past[i].End() <= h[j].start;
    PrefixLegal(h, i);
    forall k | 0 <= k < j && h[k].Keeps(h[j].key) && h[j].start < h[k].ExpiresAt()
      ensures k == i
    {
      assert past[k] == h[k];
      if k < i {
        KeptBarsRuns(h, k, i);
        assert false;
      }
    }
  }

  /** Within the lifetime of a result below 500 the handler is never run again for its key, whatever
      body is sent and whatever lifetimes other results of the key have. */
  lemma NeverRunAgain(h: seq<Step>, i: nat, j: nat)
    requires Legal(h) && i < j < |h|
    requires h[i].Executed? && h[i].response.status < 500 && h[j].Executed? && h[j].key == h[i].key
    ensures h[j].start >= h[i].finish + h[i].ttlMs
  {
    KeptBarsRuns(h, i, j);
  }

  /** A repeated answer is the one result below 500 in its lifetime for the key, with the same body
      hash: its own status and body, and its headers with the mark of a repetition. A conflict is
      reported for such a result with another body hash. */
  lemma AnswersHaveSource(h: seq<Step>, j: nat) returns (i: nat)
    requires Legal(h) && j < |h| && !h[j].Executed?
    ensures i < j && h[i].Executed? && h[i].key == h[j].key && h[i].response.status < 500
    ensures h[j].start < h[i].finish + h[i].ttlMs
    ensures h[j].Replayed? ==>
              && h[i].hash == h[j].hash && h[j].response.status == h[i].response.status
              && h[j].response.json == h[i].response.json
              && h[j].response.headers == h[i].response.headers + map["idempotent-replayed" := "true"]
    ensures h[j].Conflicted? ==> h[i].hash != h[j].hash
    ensures forall k ::
              && 0 <= k < j && h[k].Executed? && h[k].key == h[j].key && h[k].response.status < 500
              && h[j].start < h[k].finish + h[k].ttlMs
              ==> k == i
  {
    i := LatestKept(h, j);
  }

  /** The handler runs exactly when no earlier result below 500 of the key is in its lifetime; results
      of 500 and above block nothing. */
  lemma RunsIffNothingInForce(h: seq<Step>, j: nat)
    requires Legal(h) && j < |h|
    ensures h[j].Executed? <==>
              forall i :: 0 <= i < j && h[i].Executed? && h[i].key == h[j].key && h[i].response.status < 500 ==>
                h[i].finish + h[i].ttlMs <= h[j].start
  {
    if h[j].Executed? {
      forall i | 0 <= i < j && h[i].Executed? && h[i].key == h[j].key && h[i].response.status < 500
        ensures h[i].finish + h[i].ttlMs <= h[j].start
      {
        NeverRunAgain(h, i, j);
      }
    } else {
      var i := LatestKept(h, j);
    }
  }

  /** What is in force for a request that comes next: the one result below 500 in its lifetime. */
  lemma InForceIff(h: seq<Step>, key: string, now: int, i: nat)
    requires Legal(h) && Before(h, now) && i < |h|
    ensures h[i].Executed? && h[i].key == key && h[i].response.status < 500 && now < h[i].finish + h[i].ttlMs
       ==> InForce(h, key, now) == Some(h[i])
    ensures InForce(h, key, now).Some? ==>
              exists k :: 0 <= k < |h| && h[k] == InForce(h, key, now).value && h[k].Executed? && h[k].key == key
                && h[k].response.status < 500 && now < h[k].finish + h[k].ttlMs
  {
    if InForce(h, key, now).Some? {
      var k := LastKeptIndex(h, key);
      assert h[k] == InForce(h, key, now).value;
    }
    if h[i].Keeps(key) && now < h[i].ExpiresAt() {
      SomethingKept(h, key, i);
      var m := LastKeptIndex(h, key);
      if i < m {
        PrefixLegal(h, m);
        KeptBarsRuns(h, i, m);
        assert false;
      }
    }
  }
}
