/** The API key registry and the middleware over it (frontend/lib/api/apiKeyRegistry.ts,
    frontend/lib/api/apiKeyAuth.ts): issuing, revoking, authenticating, counting usage. */
module ApiKeyRegistry {
  import opened Options
  import opened KeyValue
  import opened Quotas
  import opened Tallies
  import opened UsageWindows

  datatype Tier = Partner | Internal | Auditor

  function LimitOf(tier: Tier): Positive {
    match tier
    case Partner => 1_000
    case Internal => 5_000
    case Auditor => 500
  }

  function Rank(tier: Tier): nat {
    match tier
    case Internal => 3
    case Partner => 2
    case Auditor => 1
  }

  datatype ApiKeyRecord = ApiKeyRecord(
    keyId: string, keyHash: string, name: string, tier: Tier, createdAt: int, expiresAt: int,
    revoked: bool, revokedAt: int, owner: string)

  const LIST_TTL_SECONDS := 90 * 24 * 60 * 60
  const DAY_MS := 24 * 60 * 60 * 1000

  // ── One store for records, usage and the list ─────────────────────────────────────────────

  datatype Value = KeyRecord(record: ApiKeyRecord) | Usage(usage: ApiKeyUsage) | KeyIds(ids: seq<string>)

  function RecordKey(id: string): string { "apikey:" + id }

  function UsageKey(id: string): string { "apikey:usage:" + id }

  const LIST_KEY := "apikey:list"

  /** An id which, put behind the common prefix, gives the key of something else than a key record. */
  predicate ForeignId(id: string) { id == "list" || "usage:" <= id }

  lemma SuffixOf(prefix: string, rest: string)
    ensures (prefix + rest)[|prefix|..] == rest
  {
  }

  lemma RecordKeyInjective(id: string, other: string)
    requires RecordKey(id) == RecordKey(other)
    ensures id == other
  {
    SuffixOf("apikey:", id);
    SuffixOf("apikey:", other);
  }

  lemma UsageKeyInjective(id: string, other: string)
    requires UsageKey(id) == UsageKey(other)
    ensures id == other
  {
    SuffixOf("apikey:usage:", id);
    SuffixOf("apikey:usage:", other);
  }

  lemma UsageKeyIsRecordKey(id: string)
    ensures UsageKey(id) == RecordKey("usage:" + id) && UsageKey(id) != LIST_KEY && LIST_KEY == RecordKey("list")
  {
    assert UsageKey(id)[7] == 'u' && LIST_KEY[7] == 'l';
  }

  /** Record keys meet the other keys exactly at these ids. */
  lemma RecordMeetsOthersIff(id: string)
    ensures RecordKey(id) == LIST_KEY <==> id == "list"
    ensures (exists other :: RecordKey(id) == UsageKey(other)) <==> "usage:" <= id
  {
    if RecordKey(id) == LIST_KEY { RecordKeyInjective(id, "list"); }
    if other :| RecordKey(id) == UsageKey(other) {
      UsageKeyIsRecordKey(other);
      RecordKeyInjective(id, "usage:" + other);
    }
    if "usage:" <= id {
      UsageKeyIsRecordKey(id[6..]);
      assert id == "usage:" + id[6..];
    }
  }

  /** The record keys of issued ids, which start with `kid_`, meet no others. */
  lemma IssuedApart(id: string, other: string)
    requires "kid_" <= id
    ensures RecordKey(id) != LIST_KEY && RecordKey(id) != UsageKey(other) && !ForeignId(id)
  {
    assert RecordKey(id)[7] == "kid_"[0] == 'k';
    assert UsageKey(other)[7] == 'u' && LIST_KEY[7] == 'l';
  }

  // ── Records ───────────────────────────────────────────────────────────────────────────────

  /** The code's read of a record that the list names. */
  function ReadRecord(backend: Backend, kv: Store<Value>, id: string, now: int): Option<ApiKeyRecord> {
    var found: Option<Value> := Get(backend, kv, RecordKey(id), now);
    match found
    case Some(KeyRecord(record)) => Some(record)
    case _ => None
  }

  /** The records of the listed ids that can still be read, in list order. */
  function Listed(backend: Backend, kv: Store<Value>, ids: seq<string>, now: int): seq<ApiKeyRecord> {
    if ids == [] then []
    else
      var record := ReadRecord(backend, kv, ids[0], now);
      (if record.Some? then [record.value] else []) + Listed(backend, kv, ids[1..], now)
  }

  function FindByHash(records: seq<ApiKeyRecord>, hash: string): Option<ApiKeyRecord> {
    if records == [] then None
    else if records[0].keyHash == hash then Some(records[0])
    else FindByHash(records[1..], hash)
  }

  /** The code's read of the list, empty if it is gone. Its key never holds anything else. */
  function ListedIds(backend: Backend, kv: Store<Value>, now: int): seq<string> {
    var found: Option<Value> := Get(backend, kv, LIST_KEY, now);
    match found
    case Some(KeyIds(ids)) => ids
    case _ => []
  }

  predicate Expired(record: ApiKeyRecord, now: int) {
    record.expiresAt > 0 && now > record.expiresAt
  }

  /** Under an id there is a key record as issued, but for the marks of revocation, or what the id
      names otherwise, or nothing. */
  predicate Known(kv: Store<Value>, issued: map<string, ApiKeyRecord>, revokedIds: set<string>, id: string) {
    RecordKey(id) in kv && !ForeignId(id) ==>
      var value := kv[RecordKey(id)].value;
      && id in issued && value.KeyRecord?
      && value.record ==
           if id in revokedIds then issued[id].(revoked := true, revokedAt := value.record.revokedAt) else issued[id]
  }

  ghost predicate RecordsInv(kv: Store<Value>, issued: map<string, ApiKeyRecord>, revokedIds: set<string>) {
    && revokedIds <= issued.Keys
    && (forall id :: id in issued ==> "kid_" <= id && issued[id].keyId == id && !issued[id].revoked)
    && (forall id :: Known(kv, issued, revokedIds, id))
    && (LIST_KEY in kv ==> kv[LIST_KEY].value.KeyIds?)
    && (forall id :: HoldsUsage(kv, id))
  }

  predicate HoldsUsage(kv: Store<Value>, id: string) {
    UsageKey(id) in kv ==> kv[UsageKey(id)].value.Usage?
  }

  /** Writing a key record in order leaves everything else in order. */
  lemma RecordWritten(
    kv: Store<Value>, issued: map<string, ApiKeyRecord>, revokedIds: set<string>,
    issued': map<string, ApiKeyRecord>, revokedIds': set<string>, id: string, entry: Entry<Value>)
    requires RecordsInv(kv, issued, revokedIds) && "kid_" <= id
    requires id in issued' && issued' == issued[id := issued'[id]]
    requires issued'[id].keyId == id && !issued'[id].revoked
    requires revokedIds <= revokedIds' <= revokedIds + {id}
    requires entry.value.KeyRecord?
    requires entry.value.record ==
               if id in revokedIds' then issued'[id].(revoked := true, revokedAt := entry.value.record.revokedAt)
               else issued'[id]
    ensures RecordsInv(kv[RecordKey(id) := entry], issued', revokedIds')
  {
    var kv' := kv[RecordKey(id) := entry];
    IssuedApart(id, "");
    forall other
      ensures Known(kv', issued', revokedIds', other)
    {
      assert Known(kv, issued, revokedIds, other);
      if RecordKey(other) == RecordKey(id) { RecordKeyInjective(other, id); }
    }
    forall other
      ensures HoldsUsage(kv', other)
    {
      assert HoldsUsage(kv, other);
      IssuedApart(id, other);
    }
  }

  /** Writing a usage record or the list leaves everything else in order. */
  lemma ForeignWritten(
    kv: Store<Value>, issued: map<string, ApiKeyRecord>, revokedIds: set<string>, id: string, entry: Entry<Value>)
    requires RecordsInv(kv, issued, revokedIds) && ForeignId(id)
    requires if id == "list" then entry.value.KeyIds? else entry.value.Usage?
    ensures RecordsInv(kv[RecordKey(id) := entry], issued, revokedIds)
  {
    var kv' := kv[RecordKey(id) := entry];
    forall other
      ensures Known(kv', issued, revokedIds, other)
    {
      assert Known(kv, issued, revokedIds, other);
      if RecordKey(other) == RecordKey(id) { RecordKeyInjective(other, id); }
    }
    RecordMeetsOthersIff(id);
    forall other
      ensures HoldsUsage(kv', other)
    {
      assert HoldsUsage(kv, other);
      UsageKeyIsRecordKey(other);
    }
  }

  lemma {:induction false} ListedAreStored(
    backend: Backend, kv: Store<Value>, ids: seq<string>, now: int, record: ApiKeyRecord)
    requires record in Listed(backend, kv, ids, now)
    ensures exists id :: id in ids && ReadRecord(backend, kv, id, now) == Some(record)
  {
    if ReadRecord(backend, kv, ids[0], now) == Some(record) {
    } else {
      ListedAreStored(backend, kv, ids[1..], now, record);
    }
  }

  lemma {:induction false} FoundIsListed(records: seq<ApiKeyRecord>, hash: string)
    ensures FindByHash(records, hash).Some? ==>
              FindByHash(records, hash).value in records && FindByHash(records, hash).value.keyHash == hash
    ensures FindByHash(records, hash) == None ==> forall r :: r in records ==> r.keyHash != hash
  {
    if records != [] { FoundIsListed(records[1..], hash); }
  }

  /** The first record with the hash is taken. */
  lemma {:induction false} FirstWithHash(records: seq<ApiKeyRecord>, hash: string, i: nat)
    requires i < |records| && records[i].keyHash == hash
    requires forall k :: 0 <= k < i ==> records[k].keyHash != hash
    ensures FindByHash(records, hash) == Some(records[i])
  {
    if i > 0 { FirstWithHash(records[1..], hash, i - 1); }
  }

  /** Records are read in the order of the list. */
  lemma {:induction false} ListedInOrder(backend: Backend, kv: Store<Value>, ids: seq<string>, id: string, now: int)
    ensures Listed(backend, kv, ids + [id], now)
         == Listed(backend, kv, ids, now)
            + (var record := ReadRecord(backend, kv, id, now); if record.Some? then [record.value] else [])
  {
    if ids == [] {
      assert ids + [id] == [id] && [id][1..] == [];
    } else {
      assert (ids + [id])[1..] == ids[1..] + [id];
      ListedInOrder(backend, kv, ids[1..], id, now);
    }
  }

  lemma {:induction false} StoredAreListed(
    backend: Backend, kv: Store<Value>, ids: seq<string>, now: int, id: string)
    requires id in ids && ReadRecord(backend, kv, id, now).Some?
    ensures ReadRecord(backend, kv, id, now).value in Listed(backend, kv, ids, now)
  {
    if ids[0] != id { StoredAreListed(backend, kv, ids[1..], now, id); }
  }

  // ── Usage ─────────────────────────────────────────────────────────────────────────────────

  /** All requests ever accepted for an id, when its usage record was opened, and when that was
      prolonged since the last request. */
  datatype History = History(log: seq<Hit>, openedAt: Option<int>, prolonged: Option<int>) {
    /** After a request is accepted at `now`. */
    function With(endpoint: string, limit: Positive, now: int): History {
      History(log + [Hit(now, WindowAt(log, openedAt, now), endpoint, limit, prolonged)], openedAt, None)
    }
  }

  const UNUSED := History([], None, None)

  function HistoryOf(histories: map<string, History>, keyId: string): History {
    if keyId in histories then histories[keyId] else UNUSED
  }

  function UsageEntry(kv: Store<Value>, keyId: string): Option<Entry<ApiKeyUsage>> {
    if UsageKey(keyId) in kv && kv[UsageKey(keyId)].value.Usage?
    then Some(Entry(kv[UsageKey(keyId)].value.usage, kv[UsageKey(keyId)].expiresAt)) else None
  }

  predicate UsageTracked(backend: Backend, entry: Option<Entry<ApiKeyUsage>>, h: History, clock: int) {
    && Tracked(backend, entry, h.log, h.openedAt, h.prolonged)
    && Produced(h.openedAt, h.log) && Before(h.log, h.openedAt, clock)
  }

  ghost predicate UsageInv(backend: Backend, kv: Store<Value>, histories: map<string, History>, clock: int) {
    forall keyId :: UsageTracked(backend, UsageEntry(kv, keyId), HistoryOf(histories, keyId), clock)
  }

  lemma UsageTick(backend: Backend, kv: Store<Value>, histories: map<string, History>, clock: int, now: int)
    requires UsageInv(backend, kv, histories, clock) && clock <= now
    ensures UsageInv(backend, kv, histories, now)
  {
    forall keyId
      ensures UsageTracked(backend, UsageEntry(kv, keyId), HistoryOf(histories, keyId), now)
    {
      assert UsageTracked(backend, UsageEntry(kv, keyId), HistoryOf(histories, keyId), clock);
    }
  }

  /** Writing one usage record in order leaves the others in order. */
  lemma UsageWritten(
    backend: Backend, kv: Store<Value>, histories: map<string, History>, keyId: string,
    entry: Entry<ApiKeyUsage>, h: History, clock: int)
    requires UsageInv(backend, kv, histories, clock) && UsageTracked(backend, Some(entry), h, clock)
    ensures UsageInv(
              backend, kv[UsageKey(keyId) := Entry(Usage(entry.value), entry.expiresAt)], histories[keyId := h], clock)
  {
    var kv' := kv[UsageKey(keyId) := Entry(Usage(entry.value), entry.expiresAt)];
    forall other
      ensures UsageTracked(backend, UsageEntry(kv', other), HistoryOf(histories[keyId := h], other), clock)
    {
      assert UsageTracked(backend, UsageEntry(kv, other), HistoryOf(histories, other), clock);
      if UsageKey(other) == UsageKey(keyId) { UsageKeyInjective(other, keyId); }
    }
  }

  /** Writing a key record or the list leaves usage alone. */
  lemma UsageUntouched(
    backend: Backend, kv: Store<Value>, histories: map<string, History>, clock: int, id: string, entry: Entry<Value>)
    requires UsageInv(backend, kv, histories, clock) && ("kid_" <= id || id == "list")
    ensures UsageInv(backend, kv[RecordKey(id) := entry], histories, clock)
  {
    var kv' := kv[RecordKey(id) := entry];
    forall other
      ensures UsageTracked(backend, UsageEntry(kv', other), HistoryOf(histories, other), clock)
    {
      assert UsageTracked(backend, UsageEntry(kv, other), HistoryOf(histories, other), clock);
      UsageKeyIsRecordKey(other);
      if "kid_" <= id { IssuedApart(id, other); }
    }
  }

  /** The record of an id whose request was accepted. */
  lemma HitTracked(
    backend: Backend, entry: Option<Entry<ApiKeyUsage>>, h: History, current: ApiKeyUsage, endpoint: string,
    limit: Positive, now: int)
    requires UsageTracked(backend, entry, h, now)
    requires current == Current(backend, entry, now) && current.windowRequests < limit
    ensures UsageTracked(
              backend, Some(Entry(Updated(current, endpoint, now), now + 1000 * USAGE_TTL_SECONDS)),
              h.With(endpoint, limit, now), now)
  {
    CurrentWindowAgrees(backend, entry, h.log, h.openedAt, h.prolonged, now);
    var hit := Hit(now, current.windowStartedAt, endpoint, limit, h.prolonged);
    ProducedAppend(h.openedAt, h.log, hit);
    AcceptedIsStored(backend, entry, h.log, h.openedAt, h.prolonged, current, endpoint, limit, now);
  }

  lemma OpenedTracked(backend: Backend, now: int)
    ensures UsageTracked(
              backend, Some(Entry(FRESH.(windowStartedAt := now), now + 1000 * USAGE_TTL_SECONDS)),
              UNUSED.(openedAt := Some(now)), now)
  {
  }

  // ── Finding a key through the list ────────────────────────────────────────────────────────

  /** The list names the id and outlives the record. */
  predicate OnList(kv: Store<Value>, id: string) {
    && LIST_KEY in kv && kv[LIST_KEY].value.KeyIds? && id in kv[LIST_KEY].value.ids
    && RecordKey(id) in kv && kv[RecordKey(id)].expiresAt <= kv[LIST_KEY].expiresAt
  }

  /** The record of a key that was not revoked is as it was issued, and on the list unless it can no
      longer be read itself. */
  predicate Indexed(backend: Backend, kv: Store<Value>, record: ApiKeyRecord, clock: int) {
    var key := RecordKey(record.keyId);
    && key in kv && kv[key] == Entry(KeyRecord(record), record.createdAt + 1000 * RECORD_TTL_SECONDS)
    && (OnList(kv, record.keyId) || !Readable(backend, kv[key], clock))
  }

  ghost predicate IndexInv(
    backend: Backend, kv: Store<Value>, issued: map<string, ApiKeyRecord>, revokedIds: set<string>, clock: int)
  {
    && (LIST_KEY in kv ==> kv[LIST_KEY].expiresAt <= clock + 1000 * LIST_TTL_SECONDS)
    && forall id :: id in issued && id !in revokedIds ==> Indexed(backend, kv, issued[id], clock)
  }

  /** Writing a usage record, or letting time pass, leaves the index right. */
  lemma IndexKept(
    backend: Backend, kv: Store<Value>, kv': Store<Value>, issued: map<string, ApiKeyRecord>, revokedIds: set<string>,
    clock: int, now: int, keyId: string)
    requires IndexInv(backend, kv, issued, revokedIds, clock) && clock <= now
    requires forall id :: id in issued ==> "kid_" <= id && issued[id].keyId == id
    requires kv' == kv || (UsageKey(keyId) in kv' && kv' == kv[UsageKey(keyId) := kv'[UsageKey(keyId)]])
    ensures IndexInv(backend, kv', issued, revokedIds, now)
  {
    UsageKeyIsRecordKey(keyId);
    forall id | id in issued && id !in revokedIds
      ensures Indexed(backend, kv', issued[id], now)
    {
      assert Indexed(backend, kv, issued[id], clock);
      IssuedApart(id, keyId);
    }
  }

  /** Issuing puts the new key on the list; what can still be read was on it and stays. */
  lemma IndexIssued(
    backend: Backend, kv: Store<Value>, issued: map<string, ApiKeyRecord>, revokedIds: set<string>, clock: int,
    record: ApiKeyRecord, now: int)
    requires RecordsInv(kv, issued, revokedIds) && IndexInv(backend, kv, issued, revokedIds, clock) && clock <= now
    requires "kid_" <= record.keyId && record.keyId !in issued && record.createdAt == now
    ensures IndexInv(backend, Issued(backend, kv, record, now), issued[record.keyId := record], revokedIds, now)
  {
    var kv', issued' := Issued(backend, kv, record, now), issued[record.keyId := record];
    UsageKeyIsRecordKey(record.keyId);
    IssuedApart(record.keyId, record.keyId);
    IssuedEntries(backend, kv, record, now);
    forall id | id in issued' && id !in revokedIds
      ensures Indexed(backend, kv', issued'[id], now)
    {
      IssuedApart(id, record.keyId);
      if id != record.keyId {
        assert Indexed(backend, kv, issued[id], clock);
        if RecordKey(id) == RecordKey(record.keyId) { RecordKeyInjective(id, record.keyId); }
        assert kv'[RecordKey(id)] == kv[RecordKey(id)];
      }
    }
  }

  /** The three entries that issuing writes. */
  lemma IssuedEntries(backend: Backend, kv: Store<Value>, record: ApiKeyRecord, now: int)
    requires "kid_" <= record.keyId
    ensures Issued(backend, kv, record, now) ==
              kv[RecordKey(record.keyId) := Entry(KeyRecord(record), now + 7_776_000_000)]
                [LIST_KEY := Entry(KeyIds(ListedIds(backend, kv, now) + [record.keyId]), now + 7_776_000_000)]
                [UsageKey(record.keyId) := Entry(Usage(ApiKeyUsage(0, 0, 0, now, map[], None)), now + 604_800_000)]
  {
    IssuedApart(record.keyId, record.keyId);
    var written := Put(kv, RecordKey(record.keyId), KeyRecord(record), RECORD_TTL_SECONDS, now);
    assert ListedIds(backend, written, now) == ListedIds(backend, kv, now);
  }

  lemma IndexRevoked(
    backend: Backend, kv: Store<Value>, issued: map<string, ApiKeyRecord>, revokedIds: set<string>, clock: int,
    id: string, entry: Entry<Value>, now: int)
    requires RecordsInv(kv, issued, revokedIds) && IndexInv(backend, kv, issued, revokedIds, clock) && clock <= now
    requires id in issued
    ensures IndexInv(backend, kv[RecordKey(id) := entry], issued, revokedIds + {id}, now)
  {
    var kv' := kv[RecordKey(id) := entry];
    IssuedApart(id, "");
    forall other | other in issued && other !in revokedIds + {id}
      ensures Indexed(backend, kv', issued[other], now)
    {
      assert Indexed(backend, kv, issued[other], clock);
      if RecordKey(other) == RecordKey(id) { RecordKeyInjective(other, id); }
    }
  }

  /** Prolonging the list leaves what is on it there. */
  lemma IndexProlonged(
    backend: Backend, kv: Store<Value>, issued: map<string, ApiKeyRecord>, revokedIds: set<string>, clock: int, now: int)
    requires RecordsInv(kv, issued, revokedIds) && IndexInv(backend, kv, issued, revokedIds, clock) && clock <= now
    requires LIST_KEY in kv
    ensures IndexInv(
              backend, kv[LIST_KEY := Entry(kv[LIST_KEY].value, now + 1000 * RECORD_TTL_SECONDS)], issued, revokedIds, now)
  {
    var kv' := kv[LIST_KEY := Entry(kv[LIST_KEY].value, now + 1000 * RECORD_TTL_SECONDS)];
    forall id | id in issued && id !in revokedIds
      ensures Indexed(backend, kv', issued[id], now)
    {
      assert Indexed(backend, kv, issued[id], clock);
      IssuedApart(id, "");
    }
  }

  // ── What the operations do to the store ───────────────────────────────────────────────────

  ghost predicate Inv(
    backend: Backend, kv: Store<Value>, issued: map<string, ApiKeyRecord>, revokedIds: set<string>,
    histories: map<string, History>, clock: int)
  {
    && RecordsInv(kv, issued, revokedIds) && UsageInv(backend, kv, histories, clock)
    && IndexInv(backend, kv, issued, revokedIds, clock)
  }

  /** Issuing writes the record, the longer list and a new usage record. */
  function Issued(backend: Backend, kv: Store<Value>, record: ApiKeyRecord, now: int): Store<Value> {
    var id := record.keyId;
    var written := Put(kv, RecordKey(id), KeyRecord(record), RECORD_TTL_SECONDS, now);
    var listed := Put(written, LIST_KEY, KeyIds(ListedIds(backend, written, now) + [id]), LIST_TTL_SECONDS, now);
    Put(listed, UsageKey(id), Usage(FRESH.(windowStartedAt := now)), USAGE_TTL_SECONDS, now)
  }

  lemma Issue(
    backend: Backend, kv: Store<Value>, issued: map<string, ApiKeyRecord>, revokedIds: set<string>,
    histories: map<string, History>, clock: int, record: ApiKeyRecord, now: int)
    requires Inv(backend, kv, issued, revokedIds, histories, clock) && clock <= now
    requires "kid_" <= record.keyId && record.keyId !in issued && !record.revoked && record.createdAt == now
    ensures Inv(
              backend, Issued(backend, kv, record, now), issued[record.keyId := record], revokedIds,
              histories[record.keyId := UNUSED.(openedAt := Some(now))], now)
  {
    var id := record.keyId;
    var written := Put(kv, RecordKey(id), KeyRecord(record), RECORD_TTL_SECONDS, now);
    var listed := Put(written, LIST_KEY, KeyIds(ListedIds(backend, written, now) + [id]), LIST_TTL_SECONDS, now);
    var issued' := issued[id := record];
    UsageTick(backend, kv, histories, clock, now);
    RecordWritten(kv, issued, revokedIds, issued', revokedIds, id, written[RecordKey(id)]);
    UsageUntouched(backend, kv, histories, now, id, written[RecordKey(id)]);
    UsageKeyIsRecordKey(id);
    ForeignWritten(written, issued', revokedIds, "list", listed[LIST_KEY]);
    UsageUntouched(backend, written, histories, now, "list", listed[LIST_KEY]);
    OpenedTracked(backend, now);
    IndexIssued(backend, kv, issued, revokedIds, clock, record, now);
    UseInOrder(
      backend, listed, issued', revokedIds, histories, id,
      Entry(FRESH.(windowStartedAt := now), now + 1000 * USAGE_TTL_SECONDS), UNUSED.(openedAt := Some(now)), now);
  }

  lemma UseInOrder(
    backend: Backend, kv: Store<Value>, issued: map<string, ApiKeyRecord>, revokedIds: set<string>,
    histories: map<string, History>, keyId: string, entry: Entry<ApiKeyUsage>, h: History, clock: int)
    requires RecordsInv(kv, issued, revokedIds) && UsageInv(backend, kv, histories, clock)
    requires UsageTracked(backend, Some(entry), h, clock)
    ensures var kv' := kv[UsageKey(keyId) := Entry(Usage(entry.value), entry.expiresAt)];
            RecordsInv(kv', issued, revokedIds) && UsageInv(backend, kv', histories[keyId := h], clock)
  {
    UsageKeyIsRecordKey(keyId);
    ForeignWritten(kv, issued, revokedIds, "usage:" + keyId, Entry(Usage(entry.value), entry.expiresAt));
    UsageWritten(backend, kv, histories, keyId, entry, h, clock);
  }

  /** A usage record written in order keeps everything in order. */
  lemma UseWritten(
    backend: Backend, kv: Store<Value>, issued: map<string, ApiKeyRecord>, revokedIds: set<string>,
    histories: map<string, History>, keyId: string, entry: Entry<ApiKeyUsage>, h: History, clock: int)
    requires Inv(backend, kv, issued, revokedIds, histories, clock) && UsageTracked(backend, Some(entry), h, clock)
    ensures Inv(
              backend, kv[UsageKey(keyId) := Entry(Usage(entry.value), entry.expiresAt)], issued, revokedIds,
              histories[keyId := h], clock)
  {
    var kv' := kv[UsageKey(keyId) := Entry(Usage(entry.value), entry.expiresAt)];
    UseInOrder(backend, kv, issued, revokedIds, histories, keyId, entry, h, clock);
    IndexKept(backend, kv, kv', issued, revokedIds, clock, clock, keyId);
  }

  lemma Tick(
    backend: Backend, kv: Store<Value>, issued: map<string, ApiKeyRecord>, revokedIds: set<string>,
    histories: map<string, History>, clock: int, now: int)
    requires Inv(backend, kv, issued, revokedIds, histories, clock) && clock <= now
    ensures Inv(backend, kv, issued, revokedIds, histories, now)
  {
    UsageTick(backend, kv, histories, clock, now);
    IndexKept(backend, kv, kv, issued, revokedIds, clock, now, "");
  }

  lemma Accept(
    backend: Backend, kv: Store<Value>, issued: map<string, ApiKeyRecord>, revokedIds: set<string>,
    histories: map<string, History>, keyId: string, current: ApiKeyUsage, endpoint: string, limit: Positive, now: int)
    requires Inv(backend, kv, issued, revokedIds, histories, now)
    requires current == Current(backend, UsageEntry(kv, keyId), now) && current.windowRequests < limit
    ensures Inv(
              backend, Put(kv, UsageKey(keyId), Usage(Updated(current, endpoint, now)), USAGE_TTL_SECONDS, now), issued,
              revokedIds, histories[keyId := HistoryOf(histories, keyId).With(endpoint, limit, now)], now)
  {
    var h := HistoryOf(histories, keyId);
    var h', entry := h.With(endpoint, limit, now), Entry(Updated(current, endpoint, now), now + 1000 * USAGE_TTL_SECONDS);
    assert UsageTracked(backend, Some(entry), h', now) by {
      assert UsageTracked(backend, UsageEntry(kv, keyId), h, now);
      HitTracked(backend, UsageEntry(kv, keyId), h, current, endpoint, limit, now);
    }
    UseWritten(backend, kv, issued, revokedIds, histories, keyId, entry, h', now);
  }

  /** The window and the count the code finds are those of the history, whatever lapsed. */
  lemma CurrentDecides(
    backend: Backend, kv: Store<Value>, issued: map<string, ApiKeyRecord>, revokedIds: set<string>,
    histories: map<string, History>, clock: int, keyId: string, limit: Positive, now: int)
    requires Inv(backend, kv, issued, revokedIds, histories, clock) && clock <= now
    ensures Inv(backend, kv, issued, revokedIds, histories, now)
    ensures UsageKey(keyId) in kv ==> kv[UsageKey(keyId)].value.Usage?
    ensures var h, u := HistoryOf(histories, keyId), Current(backend, UsageEntry(kv, keyId), now);
            Decide(h.log, h.openedAt, limit, now) ==
              if u.windowRequests >= limit then Refused(RetryAfter(u.windowStartedAt, WINDOW_MS, now)) else Allowed
  {
    var h := HistoryOf(histories, keyId);
    Tick(backend, kv, issued, revokedIds, histories, clock, now);
    assert UsageTracked(backend, UsageEntry(kv, keyId), h, now);
    assert HoldsUsage(kv, keyId);
    CurrentWindowAgrees(backend, UsageEntry(kv, keyId), h.log, h.openedAt, h.prolonged, now);
  }

  /** Revoking marks whatever is found under the id and writes it back with the lifetime of a key
      record. The mark on a list is lost in writing. */
  function Revoked(backend: Backend, kv: Store<Value>, id: string, now: int): Store<Value> {
    var found: Option<Value> := Get(backend, kv, RecordKey(id), now);
    match found
    case None => kv
    case Some(KeyRecord(r)) =>
      if r.revoked then kv
      else Put(kv, RecordKey(id), KeyRecord(r.(revoked := true, revokedAt := now)), RECORD_TTL_SECONDS, now)
    case Some(Usage(u)) =>
      if u.revokedAt.Some? then kv
      else Put(kv, RecordKey(id), Usage(u.(revokedAt := Some(now))), RECORD_TTL_SECONDS, now)
    case Some(KeyIds(ids)) => Put(kv, RecordKey(id), KeyIds(ids), RECORD_TTL_SECONDS, now)
  }

  /** What this means for the histories: a usage record that was marked is prolonged. */
  function RevokedHistories(
    backend: Backend, kv: Store<Value>, histories: map<string, History>, id: string, now: int): map<string, History>
  {
    var found: Option<Value> := Get(backend, kv, RecordKey(id), now);
    if "usage:" <= id && found.Some? && found.value.Usage? && found.value.usage.revokedAt == None then
      histories[id[6..] := HistoryOf(histories, id[6..]).(prolonged := Some(now))]
    else histories
  }

  /** What is found under an id: a key record only if the id was issued. */
  lemma FoundKind(kv: Store<Value>, issued: map<string, ApiKeyRecord>, revokedIds: set<string>, id: string)
    requires RecordsInv(kv, issued, revokedIds) && RecordKey(id) in kv
    ensures match kv[RecordKey(id)].value
            case KeyRecord(r) =>
              && id in issued && !ForeignId(id) && (r.revoked <==> id in revokedIds)
              && r == issued[id].(revoked := r.revoked, revokedAt := r.revokedAt) && (!r.revoked ==> r == issued[id])
            case Usage(_) => "usage:" <= id && RecordKey(id) == UsageKey(id[6..])
            case KeyIds(_) => id == "list"
  {
    if "usage:" <= id {
      assert id == "usage:" + id[6..];
      UsageKeyIsRecordKey(id[6..]);
      assert HoldsUsage(kv, id[6..]);
    } else if id == "list" {
      assert RecordKey(id) == LIST_KEY;
    } else {
      assert Known(kv, issued, revokedIds, id);
    }
  }

  lemma RevokeKey(
    backend: Backend, kv: Store<Value>, issued: map<string, ApiKeyRecord>, revokedIds: set<string>,
    histories: map<string, History>, clock: int, id: string, now: int)
    requires Inv(backend, kv, issued, revokedIds, histories, clock) && clock <= now
    requires id in issued && RecordKey(id) in kv && kv[RecordKey(id)].value.KeyRecord?
    ensures Inv(backend, Revoked(backend, kv, id, now), issued,
                if Get(backend, kv, RecordKey(id), now).Some? then revokedIds + {id} else revokedIds, histories, now)
  {
    FoundKind(kv, issued, revokedIds, id);
    Tick(backend, kv, issued, revokedIds, histories, clock, now);
    var r := kv[RecordKey(id)].value.record;
    if Get(backend, kv, RecordKey(id), now).Some? {
      if r.revoked {
        assert revokedIds + {id} == revokedIds;
      } else {
        var entry := Entry(KeyRecord(r.(revoked := true, revokedAt := now)), now + 1000 * RECORD_TTL_SECONDS);
        RecordWritten(kv, issued, revokedIds, issued, revokedIds + {id}, id, entry);
        UsageUntouched(backend, kv, histories, now, id, entry);
        IndexRevoked(backend, kv, issued, revokedIds, now, id, entry, now);
      }
    }
  }

  lemma ProlongList(
    backend: Backend, kv: Store<Value>, issued: map<string, ApiKeyRecord>, revokedIds: set<string>,
    histories: map<string, History>, now: int)
    requires Inv(backend, kv, issued, revokedIds, histories, now) && LIST_KEY in kv
    ensures Inv(backend, kv[LIST_KEY := Entry(kv[LIST_KEY].value, now + 1000 * RECORD_TTL_SECONDS)], issued, revokedIds,
                histories, now)
  {
    var entry := Entry(kv[LIST_KEY].value, now + 1000 * RECORD_TTL_SECONDS);
    UsageKeyIsRecordKey("");
    ForeignWritten(kv, issued, revokedIds, "list", entry);
    UsageUntouched(backend, kv, histories, now, "list", entry);
    IndexProlonged(backend, kv, issued, revokedIds, now, now);
  }

  lemma ProlongUsage(
    backend: Backend, kv: Store<Value>, issued: map<string, ApiKeyRecord>, revokedIds: set<string>,
    histories: map<string, History>, keyId: string, now: int)
    requires Inv(backend, kv, issued, revokedIds, histories, now) && UsageEntry(kv, keyId).Some?
    ensures var marked := UsageEntry(kv, keyId).value.value.(revokedAt := Some(now));
            Inv(backend, kv[UsageKey(keyId) := Entry(Usage(marked), now + 1000 * RECORD_TTL_SECONDS)], issued, revokedIds,
                histories[keyId := HistoryOf(histories, keyId).(prolonged := Some(now))], now)
  {
    var h := HistoryOf(histories, keyId);
    var marked := UsageEntry(kv, keyId).value.value.(revokedAt := Some(now));
    assert UsageTracked(backend, UsageEntry(kv, keyId), h, now);
    MarkedIsStored(backend, UsageEntry(kv, keyId), h.log, h.openedAt, h.prolonged, now);
    UseWritten(backend, kv, issued, revokedIds, histories, keyId,
               Entry(marked, now + 1000 * RECORD_TTL_SECONDS), h.(prolonged := Some(now)), now);
  }

  lemma RevokeForeign(
    backend: Backend, kv: Store<Value>, issued: map<string, ApiKeyRecord>, revokedIds: set<string>,
    histories: map<string, History>, clock: int, id: string, now: int)
    requires Inv(backend, kv, issued, revokedIds, histories, clock) && clock <= now
    requires RecordKey(id) in kv ==> !kv[RecordKey(id)].value.KeyRecord?
    ensures Inv(backend, Revoked(backend, kv, id, now), issued, revokedIds,
                RevokedHistories(backend, kv, histories, id, now), now)
  {
    Tick(backend, kv, issued, revokedIds, histories, clock, now);
    if Get(backend, kv, RecordKey(id), now).Some? {
      FoundKind(kv, issued, revokedIds, id);
      match kv[RecordKey(id)].value {
        case KeyIds(_) =>
          assert RecordKey(id) == LIST_KEY;
          ProlongList(backend, kv, issued, revokedIds, histories, now);
        case Usage(_) =>
          ProlongUsage(backend, kv, issued, revokedIds, histories, id[6..], now);
      }
    }
  }

  // ── Which ids may be revoked ──────────────────────────────────────────────────────────────

  /** In this state revoking reports a key, and rewrites the store, though no such key was issued. */
  ghost predicate RevokedWrongly(
    backend: Backend, kv: Store<Value>, issued: map<string, ApiKeyRecord>, revokedIds: set<string>, id: string, now: int)
  {
    && RecordsInv(kv, issued, revokedIds)
    && Get(backend, kv, RecordKey(id), now).Some? && id !in issued && Revoked(backend, kv, id, now) != kv
  }

  /** The failing inputs, a moment after a key was issued: the id of the list, whose lifetime starts
      anew, and that of the key's usage record, which is kept for 90 days instead of 7. */
  lemma ListAndUsageRevoked(backend: Backend, record: ApiKeyRecord, now: int)
    requires "kid_" <= record.keyId && !record.revoked && record.createdAt == now
    ensures var kv, issued := Issued(backend, map[], record, now), map[record.keyId := record];
            var usageId := "usage:" + record.keyId;
            && RevokedWrongly(backend, kv, issued, {}, "list", now + 1)
            && Revoked(backend, kv, "list", now + 1)
                 == kv[LIST_KEY := Entry(KeyIds([record.keyId]), now + 1 + 7_776_000_000)]
            && RevokedWrongly(backend, kv, issued, {}, usageId, now + 1)
            && Revoked(backend, kv, usageId, now + 1)
                 == kv[UsageKey(record.keyId) := Entry(
                         Usage(FRESH.(windowStartedAt := now, revokedAt := Some(now + 1))),
                         now + 1 + 7_776_000_000)]
  {
    var kv, id := Issued(backend, map[], record, now), record.keyId;
    EmptyInv(backend, now);
    Issue(backend, map[], map[], {}, map[], now, record, now);
    assert map[][id := record] == map[id := record];
    IssuedApart(id, id);
    UsageKeyIsRecordKey(id);
    assert [] + [id] == [id];
    assert kv[LIST_KEY] == Entry(KeyIds([id]), now + 1000 * LIST_TTL_SECONDS);
    assert kv[UsageKey(id)] == Entry(Usage(FRESH.(windowStartedAt := now)), now + 1000 * USAGE_TTL_SECONDS);
    IssuedApart(id, "");
    assert "list" != id && "usage:" + id != id;
  }

  lemma EmptyInv(backend: Backend, clock: int)
    ensures Inv(backend, map[], map[], {}, map[], clock)
  {
    forall keyId
      ensures UsageTracked(backend, UsageEntry(map[], keyId), HistoryOf(map[], keyId), clock)
    {
    }
  }

  /** Only issued keys are ever reported and changed, if and only if the id is neither that of the
      list nor that of a usage record. */
  lemma RevokesKeysOnlyIff(backend: Backend, id: string)
    ensures (forall kv, issued, revokedIds, now :: !RevokedWrongly(backend, kv, issued, revokedIds, id, now))
       <==> !ForeignId(id)
  {
    if !ForeignId(id) {
      forall kv, issued, revokedIds, now
        ensures !RevokedWrongly(backend, kv, issued, revokedIds, id, now)
      {
        if RecordsInv(kv, issued, revokedIds) && RecordKey(id) in kv { FoundKind(kv, issued, revokedIds, id); }
      }
    } else {
      var kv := ForeignRevoked(backend, id);
    }
  }

  /** For a usage record any accepted request will do. */
  lemma ForeignRevoked(backend: Backend, id: string) returns (kv: Store<Value>)
    requires ForeignId(id)
    ensures RevokedWrongly(backend, kv, map[], {}, id, 1)
  {
    var value := if id == "list" then KeyIds([]) else Usage(Updated(FRESH, "", 0));
    kv := Put(map[], RecordKey(id), value, USAGE_TTL_SECONDS, 0);
    EmptyInv(backend, 0);
    ForeignWritten(map[], map[], {}, id, kv[RecordKey(id)]);
    assert kv == map[][RecordKey(id) := kv[RecordKey(id)]];
    assert Revoked(backend, kv, id, 1)[RecordKey(id)].expiresAt != kv[RecordKey(id)].expiresAt;
  }

  // ── The service ───────────────────────────────────────────────────────────────────────────

  /** How a request is answered: 401, 401, 403, 429 or let through. */
  datatype AuthResult = MissingKey | InvalidKey | TierTooLow | LimitExceeded(retryAfter: int) | Granted(keyId: string, tier: Tier)

  class Registry {
    const backend: Backend
    const hashKey: string -> string
    var kv: Store<Value>
    ghost var issued: map<string, ApiKeyRecord>
    ghost var revokedIds: set<string>
    ghost var histories: map<string, History>
    ghost var clock: int

    ghost predicate Valid()
      reads this
    {
      Inv(backend, kv, issued, revokedIds, histories, clock)
    }

    constructor (backend: Backend, hashKey: string -> string, now: int)
      ensures Valid() && this.backend == backend && this.hashKey == hashKey && clock == now
      ensures issued == map[] && revokedIds == {} && histories == map[]
    {
      this.backend, this.hashKey := backend, hashKey;
      kv, issued, revokedIds, histories, clock := map[], map[], {}, map[], now;
      EmptyInv(backend, now);
    }

    /** `keyId` and `plaintext` are the random parts; the id is one never used before. */
    method IssueApiKey(name: string, tier: Tier, owner: string, expiresInDays: Option<int>,
                       keyId: string, plaintext: string, now: int)
      returns (record: ApiKeyRecord)
      requires Valid() && clock <= now
      requires "kid_" <= keyId && keyId !in issued && HistoryOf(histories, keyId) == UNUSED
      modifies this
      ensures Valid() && clock == now
      ensures record == ApiKeyRecord(
                keyId, hashKey(plaintext), name, tier, now,
                if expiresInDays.Some? && expiresInDays.value > 0 then now + expiresInDays.value * 86_400_000 else 0,
                false, 0, owner)
      ensures issued == old(issued)[keyId := record] && revokedIds == old(revokedIds)
      ensures histories == old(histories)[keyId := UNUSED.(openedAt := Some(now))]
      ensures kv == old(kv)
                [RecordKey(keyId) := Entry(KeyRecord(record), now + 7_776_000_000)]
                [LIST_KEY := Entry(KeyIds(ListedIds(backend, old(kv), now) + [keyId]), now + 7_776_000_000)]
                [UsageKey(keyId) := Entry(Usage(ApiKeyUsage(0, 0, 0, now, map[], None)), now + 604_800_000)]
    {
      var expiresAt := if expiresInDays.Some? && expiresInDays.value > 0
                       then now + expiresInDays.value * DAY_MS else 0;
      record := ApiKeyRecord(keyId, hashKey(plaintext), name, tier, now, expiresAt, false, 0, owner);
      Issue(backend, kv, issued, revokedIds, histories, clock, record, now);
      IssuedEntries(backend, kv, record, now);
      kv := Put(kv, RecordKey(keyId), KeyRecord(record), RECORD_TTL_SECONDS, now);
      kv := Put(kv, LIST_KEY, KeyIds(ListedIds(backend, kv, now) + [keyId]), LIST_TTL_SECONDS, now);
      kv := Put(kv, UsageKey(keyId), Usage(FRESH.(windowStartedAt := now)), USAGE_TTL_SECONDS, now);
      issued, clock := issued[keyId := record], now;
      histories := histories[keyId := UNUSED.(openedAt := Some(now))];
    }

    /** For any string: true if anything can be read under it. A key is then revoked for good, a usage
        record marked and prolonged, the list prolonged. */
    method RevokeApiKey(keyId: string, now: int) returns (found: bool)
      requires Valid() && clock <= now
      modifies this
      ensures Valid() && clock == now && issued == old(issued)
      ensures found == Get(backend, old(kv), RecordKey(keyId), now).Some?
      ensures kv == Revoked(backend, old(kv), keyId, now)
      ensures !found ==> kv == old(kv)
      ensures found && !ForeignId(keyId) ==> keyId in issued
      ensures found && !ForeignId(keyId) ==>
                kv == if keyId in old(revokedIds) then old(kv)
                      else
                        var revoked := issued[keyId].(revoked := true, revokedAt := now);
                        old(kv)[RecordKey(keyId) := Entry(KeyRecord(revoked), now + 7_776_000_000)]
      ensures revokedIds == if found && !ForeignId(keyId) then old(revokedIds) + {keyId} else old(revokedIds)
      ensures histories == RevokedHistories(backend, old(kv), old(histories), keyId, now)
      ensures !ForeignId(keyId) ==> histories == old(histories)
    {
      var stored := Get(backend, kv, RecordKey(keyId), now);
      if stored == None {
        Tick(backend, kv, issued, revokedIds, histories, clock, now);
        clock := now;
        return false;
      }
      FoundKind(kv, issued, revokedIds, keyId);
      found, clock := true, now;
      if stored.value.KeyRecord? {
        RevokeKey(backend, kv, issued, revokedIds, histories, old(clock), keyId, now);
        var record := stored.value.record;
        if !record.revoked {
          record := record.(revoked := true, revokedAt := now);
          kv := Put(kv, RecordKey(keyId), KeyRecord(record), RECORD_TTL_SECONDS, now);
        }
        revokedIds := revokedIds + {keyId};
      } else {
        RevokeForeign(backend, kv, issued, revokedIds, histories, old(clock), keyId, now);
        histories := RevokedHistories(backend, kv, histories, keyId, now);
        if stored.value.KeyIds? {
          kv := Put(kv, RecordKey(keyId), stored.value, RECORD_TTL_SECONDS, now);
        } else if stored.value.usage.revokedAt == None {
          var usage := stored.value.usage.(revokedAt := Some(now));
          kv := Put(kv, RecordKey(keyId), Usage(usage), RECORD_TTL_SECONDS, now);
        }
      }
    }

    /** The key a plaintext authenticates: the first listed record with its hash, if that was not
        revoked and has not expired. */
    ghost function Authenticated(plaintext: string, now: int): Option<ApiKeyRecord>
      reads this
    {
      var found := FindByHash(Listed(backend, kv, ListedIds(backend, kv, now), now), hashKey(plaintext));
      if "sl_" <= plaintext && found.Some? && found.value.keyId !in revokedIds && !Expired(found.value, now)
      then found else None
    }

    /** Whoever is authenticated holds a key exactly as it was issued, neither revoked nor expired. And
        unless another key has the same hash, a key is authenticated exactly as long as it is neither,
        for 90 days. */
    method AuthenticateKey(plaintext: string, now: int) returns (result: Option<ApiKeyRecord>)
      requires Valid() && clock <= now
      ensures result == Authenticated(plaintext, now)
      ensures result.Some? ==>
                var r := result.value;
                && "sl_" <= plaintext && r.keyHash == hashKey(plaintext) && r.keyId in issued && r == issued[r.keyId]
                && r.keyId !in revokedIds && (r.expiresAt > 0 ==> now <= r.expiresAt)
      ensures forall id :: id in issued && HashIsUnique(issued, id) && issued[id].keyHash == hashKey(plaintext) ==>
                (result == Some(issued[id]) <==>
                  && "sl_" <= plaintext && id !in revokedIds
                  && (issued[id].expiresAt > 0 ==> now <= issued[id].expiresAt)
                  && (now < issued[id].createdAt + 7_776_000_000
                      || (backend == Inclusive && now == issued[id].createdAt + 7_776_000_000)))
    {
      forall id | id in issued && HashIsUnique(issued, id) && issued[id].keyHash == hashKey(plaintext)
        ensures Authenticated(plaintext, now) == Some(issued[id]) <==>
                  && "sl_" <= plaintext && id !in revokedIds
                  && (issued[id].expiresAt > 0 ==> now <= issued[id].expiresAt)
                  && (now < issued[id].createdAt + 7_776_000_000
                      || (backend == Inclusive && now == issued[id].createdAt + 7_776_000_000))
      {
        FoundWhileReadable(backend, kv, issued, revokedIds, clock, id, now);
      }
      if !("sl_" <= plaintext) {
        return None;
      }
      var hash := hashKey(plaintext);
      var ids := ListedIds(backend, kv, now);
      var listed := Listed(backend, kv, ids, now);
      var record := FindByHash(listed, hash);
      FoundIsListed(listed, hash);
      if record == None {
        return None;
      }
      ghost var id := ListedMeaning(backend, kv, issued, revokedIds, ids, now, record.value);
      if record.value.revoked {
        return None;
      }
      if record.value.expiresAt > 0 && now > record.value.expiresAt {
        return None;
      }
      return record;
    }

    /** Counts a request against its key, unless the window is used up. */
    method TrackAndCheckUsage(keyId: string, tier: Tier, endpoint: string, now: int) returns (verdict: Verdict)
      requires Valid() && clock <= now
      modifies this`kv, this`histories, this`clock
      ensures Valid() && clock == now
      ensures var h := HistoryOf(old(histories), keyId);
              var limit: Positive := match tier case Partner => 1_000 case Internal => 5_000 case Auditor => 500;
              && verdict == Decide(h.log, h.openedAt, limit, now)
              && histories ==
                   if verdict == Allowed then
                     var hit := Hit(now, WindowAt(h.log, h.openedAt, now), endpoint, limit, h.prolonged);
                     old(histories)[keyId := History(h.log + [hit], h.openedAt, None)]
                   else old(histories)
      ensures if verdict == Allowed then UsageKey(keyId) in kv && kv == old(kv)[UsageKey(keyId) := kv[UsageKey(keyId)]]
              else kv == old(kv)
    {
      CurrentDecides(backend, kv, issued, revokedIds, histories, clock, keyId, LimitOf(tier), now);
      clock := now;
      var stored := Get(backend, kv, UsageKey(keyId), now);
      var u := if stored.Some? then stored.value.usage else FRESH.(windowStartedAt := now);
      if now - u.windowStartedAt >= WINDOW_MS {
        u := u.(windowRequests := 0, windowStartedAt := now);
      }
      assert u == Current(backend, UsageEntry(kv, keyId), now);
      if u.windowRequests >= LimitOf(tier) {
        return Refused(RetryAfter(u.windowStartedAt, WINDOW_MS, now));
      }
      Accept(backend, kv, issued, revokedIds, histories, keyId, u, endpoint, LimitOf(tier), now);
      histories := histories[keyId := HistoryOf(histories, keyId).With(endpoint, LimitOf(tier), now)];
      kv := Put(kv, UsageKey(keyId), Usage(Updated(u, endpoint, now)), USAGE_TTL_SECONDS, now);
      return Allowed;
    }

    /** The answer depends on the key, its tier and its quota, in this order. Only a request that is
        let through is counted, and against the key it was let through with. */
    method AuthenticateRegistryKey(rawKey: Option<string>, tier: Tier, endpoint: string, now: int)
      returns (result: AuthResult)
      requires Valid() && clock <= now
      modifies this`kv, this`histories, this`clock
      ensures Valid()
      ensures !result.Granted? ==> histories == old(histories)
      ensures if rawKey == None || rawKey.value == "" then result == MissingKey
              else match old(Authenticated(rawKey.value, now))
                   case None => result == InvalidKey
                   case Some(record) =>
                     && record.keyId in issued && record == issued[record.keyId] && record.keyId !in revokedIds
                     && (result == TierTooLow <==>
                           || (tier == Internal && record.tier != Internal)
                           || (tier == Partner && record.tier == Auditor))
                     && (result != TierTooLow ==>
                           var h := HistoryOf(old(histories), record.keyId);
                           var limit: Positive :=
                             match record.tier case Partner => 1_000 case Internal => 5_000 case Auditor => 500;
                           match Decide(h.log, h.openedAt, limit, now)
                           case Refused(retryAfter) => result == LimitExceeded(retryAfter)
                           case Allowed =>
                             var hit := Hit(now, WindowAt(h.log, h.openedAt, now), endpoint, limit, h.prolonged);
                             && result == Granted(record.keyId, record.tier)
                             && histories == old(histories)[record.keyId := History(h.log + [hit], h.openedAt, None)]
                             && UsageKey(record.keyId) in kv
                             && kv == old(kv)[UsageKey(record.keyId) := kv[UsageKey(record.keyId)]])
      ensures !result.Granted? ==> kv == old(kv)
    {
      if rawKey == None || rawKey.value == "" {
        return MissingKey;
      }
      var record := AuthenticateKey(rawKey.value, now);
      if record == None {
        return InvalidKey;
      }
      if Rank(record.value.tier) < Rank(tier) {
        return TierTooLow;
      }
      var verdict := TrackAndCheckUsage(record.value.keyId, record.value.tier, endpoint, now);
      match verdict {
        case Refused(retryAfter) => return LimitExceeded(retryAfter);
        case Allowed => return Granted(record.value.keyId, record.value.tier);
      }
    }

    /** What the usage record says, as long as it lives: the requests let through since it was created,
        in all and for each endpoint, those in the last window, and when that began and the last came. */
    method GetApiKeyUsage(keyId: string, now: int) returns (result: Option<ApiKeyUsage>)
      requires Valid() && clock <= now
      ensures var h := HistoryOf(histories, keyId);
              && (result.Some? <==> Alive(backend, h.log, h.openedAt, h.prolonged, now))
              && (result.Some? ==>
                    var since, u := SinceCreated(backend, h.log, h.openedAt), result.value;
                    && u.totalRequests == |since| == Total(u.endpointCounts)
                    && u.endpointCounts == Tally(since)
                    && (h.log != [] || h.openedAt.Some?)
                    && u.windowStartedAt == (if h.log == [] then h.openedAt.value else h.log[|h.log| - 1].window)
                    && u.windowRequests == InWindow(h.log, u.windowStartedAt)
                    && u.lastUsedAt == if h.log == [] then 0 else h.log[|h.log| - 1].at)
    {
      ghost var h := HistoryOf(histories, keyId);
      assert UsageTracked(backend, UsageEntry(kv, keyId), h, clock);
      assert HoldsUsage(kv, keyId);
      TallyTotal(SinceCreated(backend, h.log, h.openedAt));
      var stored := Get(backend, kv, UsageKey(keyId), now);
      result := if stored.Some? then Some(stored.value.usage) else None;
    }
  }

  /** No other key has the hash of this one. */
  ghost predicate HashIsUnique(issued: map<string, ApiKeyRecord>, id: string)
    requires id in issued
  {
    forall other :: other in issued && other != id ==> issued[other].keyHash != issued[id].keyHash
  }

  /** A key that was not revoked is found exactly while its record can be read. */
  lemma FoundWhileReadable(
    backend: Backend, kv: Store<Value>, issued: map<string, ApiKeyRecord>, revokedIds: set<string>, clock: int,
    id: string, now: int)
    requires RecordsInv(kv, issued, revokedIds) && IndexInv(backend, kv, issued, revokedIds, clock) && clock <= now
    requires id in issued && HashIsUnique(issued, id)
    ensures var found := FindByHash(Listed(backend, kv, ListedIds(backend, kv, now), now), issued[id].keyHash);
            id !in revokedIds ==>
              (found == Some(issued[id]) <==>
                now < issued[id].createdAt + 7_776_000_000
                || (backend == Inclusive && now == issued[id].createdAt + 7_776_000_000))
  {
    var ids := ListedIds(backend, kv, now);
    var listed := Listed(backend, kv, ids, now);
    var found := FindByHash(listed, issued[id].keyHash);
    FoundIsListed(listed, issued[id].keyHash);
    if id !in revokedIds {
      assert Indexed(backend, kv, issued[id], clock);
      if Readable(backend, kv[RecordKey(id)], now) {
        assert OnList(kv, id) && id in ids;
        StoredAreListed(backend, kv, ids, now, id);
      }
      if found.Some? {
        var other := ListedMeaning(backend, kv, issued, revokedIds, ids, now, found.value);
        assert other == id;
      }
    }
  }

  lemma ListedMeaning(
    backend: Backend, kv: Store<Value>, issued: map<string, ApiKeyRecord>, revokedIds: set<string>,
    ids: seq<string>, now: int, record: ApiKeyRecord)
    returns (id: string)
    requires RecordsInv(kv, issued, revokedIds) && record in Listed(backend, kv, ids, now)
    ensures id in ids && id in issued && record.keyId == id && (record.revoked <==> id in revokedIds)
    ensures record.keyHash == issued[id].keyHash && ReadRecord(backend, kv, id, now) == Some(record)
    ensures !record.revoked ==> record == issued[id]
    ensures Expired(record, now) <==> Expired(issued[id], now)
  {
    ListedAreStored(backend, kv, ids, now, record);
    id :| id in ids && ReadRecord(backend, kv, id, now) == Some(record);
    FoundKind(kv, issued, revokedIds, id);
  }

  /** A key that is listed and readable, neither revoked nor expired, authenticates, unless another
      listed record has the same hash. */
  lemma IssuedKeyIsFound(
    backend: Backend, kv: Store<Value>, issued: map<string, ApiKeyRecord>, revokedIds: set<string>,
    ids: seq<string>, id: string, now: int)
    requires RecordsInv(kv, issued, revokedIds)
    requires id in ids && id in issued && id !in revokedIds && ReadRecord(backend, kv, id, now).Some?
    requires forall r :: r in Listed(backend, kv, ids, now) && r.keyHash == issued[id].keyHash ==> r.keyId == id
    ensures FindByHash(Listed(backend, kv, ids, now), issued[id].keyHash) == Some(issued[id])
  {
    var listed := Listed(backend, kv, ids, now);
    FoundKind(kv, issued, revokedIds, id);
    StoredAreListed(backend, kv, ids, now, id);
    FoundIsListed(listed, issued[id].keyHash);
    var found := FindByHash(listed, issued[id].keyHash).value;
    var other := ListedMeaning(backend, kv, issued, revokedIds, ids, now, found);
  }
}
