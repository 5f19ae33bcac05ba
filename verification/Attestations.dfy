/** The attestation registry and its two indexes (frontend/lib/attestations.ts). */
module Attestations {
  import opened Options
  import opened KeyValue

  datatype AttestationRecord = AttestationRecord(
    attestationId: string, productId: string, issuerAddress: string, summary: string, signedReference: string,
    createdAt: int, expiresAt: int, revoked: bool, revokedAt: int, revocationReason: Option<string>)

  const TTL_SECONDS := 365 * 24 * 60 * 60
  const DAY_MS := 24 * 60 * 60 * 1000

  /** The two lists a record is entered in. */
  datatype Index = ByProduct | ByIssuer

  function KeyOf(index: Index, record: AttestationRecord): string {
    if index == ByProduct then record.productId else record.issuerAddress
  }

  // ── One store for records and lists ───────────────────────────────────────────────────────

  datatype Value = Record(record: AttestationRecord) | Ids(ids: seq<string>)

  function RecordKey(id: string): string { "attestation:" + id }

  function ListKey(index: Index, key: string): string {
    (if index == ByProduct then "attestation:list:" else "attestation:issuer:") + key
  }

  /** An id which, put behind the common prefix, gives the key of a list. */
  predicate ListId(id: string) { "list:" <= id || "issuer:" <= id }

  lemma SuffixOf(prefix: string, rest: string)
    ensures (prefix + rest)[|prefix|..] == rest
  {
  }

  lemma ListKeyIsRecordKey(index: Index, key: string)
    ensures ListKey(index, key) == RecordKey((if index == ByProduct then "list:" else "issuer:") + key)
    ensures ListId((if index == ByProduct then "list:" else "issuer:") + key)
  {
  }

  lemma RecordKeyInjective(id: string, other: string)
    requires RecordKey(id) == RecordKey(other)
    ensures id == other
  {
    SuffixOf("attestation:", id);
    SuffixOf("attestation:", other);
  }

  /** Record keys and list keys meet exactly at the ids that start like a list key. */
  lemma RecordMeetsListIff(id: string)
    ensures (exists product :: RecordKey(id) == ListKey(ByProduct, product)) <==> "list:" <= id
    ensures (exists issuer :: RecordKey(id) == ListKey(ByIssuer, issuer)) <==> "issuer:" <= id
  {
    forall index, key | RecordKey(id) == ListKey(index, key)
      ensures id == (if index == ByProduct then "list:" else "issuer:") + key
    {
      ListKeyIsRecordKey(index, key);
      RecordKeyInjective(id, (if index == ByProduct then "list:" else "issuer:") + key);
    }
    if "list:" <= id {
      ListKeyIsRecordKey(ByProduct, id[5..]);
      assert id == "list:" + id[5..];
    }
    if "issuer:" <= id {
      ListKeyIsRecordKey(ByIssuer, id[7..]);
      assert id == "issuer:" + id[7..];
    }
  }

  /** Different lists have different keys, and so have lists and the records of added ids, which
      start with `att_`. */
  lemma ListKeysApart(index: Index, key: string, index': Index, key': string)
    requires ListKey(index, key) == ListKey(index', key')
    ensures index == index' && key == key'
  {
    assert ListKey(index, key)[12] == if index == ByProduct then 'l' else 'i';
    assert ListKey(index', key')[12] == if index' == ByProduct then 'l' else 'i';
    SuffixOf(if index == ByProduct then "attestation:list:" else "attestation:issuer:", key);
    SuffixOf(if index == ByProduct then "attestation:list:" else "attestation:issuer:", key');
  }

  lemma AddedApart(id: string, index: Index, key: string)
    requires "att_" <= id
    ensures RecordKey(id) != ListKey(index, key) && !ListId(id)
  {
    assert RecordKey(id)[12] == "att_"[0] == 'a';
    assert ListKey(index, key)[12] == if index == ByProduct then 'l' else 'i';
  }

  // ── Views, newest first ───────────────────────────────────────────────────────────────────

  datatype Status = Active | Revoked | Expired

  function ComputeStatus(record: AttestationRecord, now: int): Status {
    if record.revoked then Revoked
    else if record.expiresAt > 0 && now > record.expiresAt then Expired
    else Active
  }

  /** Stable insertion: after everything at least as new. */
  function Insert(xs: seq<AttestationRecord>, x: AttestationRecord): seq<AttestationRecord> {
    if xs == [] || xs[0].createdAt < x.createdAt then [x] + xs else [xs[0]] + Insert(xs[1..], x)
  }

  function NewestFirst(xs: seq<AttestationRecord>): seq<AttestationRecord> {
    if xs == [] then [] else Insert(NewestFirst(xs[..|xs| - 1]), xs[|xs| - 1])
  }

  predicate Descending(xs: seq<AttestationRecord>) {
    forall i, j :: 0 <= i < j < |xs| ==> xs[i].createdAt >= xs[j].createdAt
  }

  lemma {:induction false} InsertContents(xs: seq<AttestationRecord>, x: AttestationRecord)
    ensures multiset(Insert(xs, x)) == multiset(xs) + multiset{x}
  {
    if !(xs == [] || xs[0].createdAt < x.createdAt) {
      InsertContents(xs[1..], x);
      assert xs == [xs[0]] + xs[1..];
    }
  }

  lemma {:induction false} InsertBelow(xs: seq<AttestationRecord>, x: AttestationRecord, most: int)
    requires x.createdAt <= most && forall i :: 0 <= i < |xs| ==> xs[i].createdAt <= most
    ensures forall i :: 0 <= i < |Insert(xs, x)| ==> Insert(xs, x)[i].createdAt <= most
  {
    if !(xs == [] || xs[0].createdAt < x.createdAt) { InsertBelow(xs[1..], x, most); }
  }

  lemma {:induction false} InsertDescending(xs: seq<AttestationRecord>, x: AttestationRecord)
    requires Descending(xs)
    ensures Descending(Insert(xs, x))
  {
    if !(xs == [] || xs[0].createdAt < x.createdAt) {
      InsertDescending(xs[1..], x);
      InsertBelow(xs[1..], x, xs[0].createdAt);
    }
  }

  lemma ContentsOfFront(xs: seq<AttestationRecord>)
    requires xs != []
    ensures multiset(xs) == multiset(xs[..|xs| - 1]) + multiset{xs[|xs| - 1]}
  {
    assert xs == xs[..|xs| - 1] + [xs[|xs| - 1]];
  }

  lemma {:induction false} NewestFirstContents(xs: seq<AttestationRecord>)
    ensures multiset(NewestFirst(xs)) == multiset(xs)
  {
    if xs != [] {
      NewestFirstContents(xs[..|xs| - 1]);
      InsertContents(NewestFirst(xs[..|xs| - 1]), xs[|xs| - 1]);
      ContentsOfFront(xs);
    }
  }

  lemma {:induction false} NewestFirstDescends(xs: seq<AttestationRecord>)
    ensures Descending(NewestFirst(xs))
  {
    if xs != [] {
      NewestFirstDescends(xs[..|xs| - 1]);
      InsertDescending(NewestFirst(xs[..|xs| - 1]), xs[|xs| - 1]);
    }
  }

  /** Listing reorders, newest first, and neither drops nor repeats. */
  lemma NewestFirstSorts(xs: seq<AttestationRecord>)
    ensures Descending(NewestFirst(xs)) && multiset(NewestFirst(xs)) == multiset(xs)
  {
    NewestFirstContents(xs);
    NewestFirstDescends(xs);
  }

  /** Those created at one time, in order. */
  function CreatedAt(xs: seq<AttestationRecord>, time: int): seq<AttestationRecord> {
    if xs == [] then []
    else (if xs[0].createdAt == time then [xs[0]] else []) + CreatedAt(xs[1..], time)
  }

  lemma {:induction false} NoneCreatedAt(xs: seq<AttestationRecord>, time: int)
    requires forall i :: 0 <= i < |xs| ==> xs[i].createdAt < time
    ensures CreatedAt(xs, time) == []
  {
    if xs != [] { NoneCreatedAt(xs[1..], time); }
  }

  lemma {:induction false} InsertAfterEqual(xs: seq<AttestationRecord>, x: AttestationRecord, time: int)
    requires Descending(xs)
    ensures CreatedAt(Insert(xs, x), time) == CreatedAt(xs, time) + (if x.createdAt == time then [x] else [])
  {
    if xs == [] || xs[0].createdAt < x.createdAt {
      assert ([x] + xs)[1..] == xs;
      if x.createdAt == time { NoneCreatedAt(xs, time); }
    } else {
      assert Insert(xs, x)[1..] == Insert(xs[1..], x);
      InsertAfterEqual(xs[1..], x, time);
    }
  }

  lemma {:induction false} CreatedAtAppend(xs: seq<AttestationRecord>, x: AttestationRecord, time: int)
    ensures CreatedAt(xs + [x], time) == CreatedAt(xs, time) + (if x.createdAt == time then [x] else [])
  {
    if xs != [] {
      assert (xs + [x])[1..] == xs[1..] + [x];
      CreatedAtAppend(xs[1..], x, time);
    }
  }

  /** Records created at the same time keep their order, as in the stable sort of the code. */
  lemma {:induction false} NewestFirstIsStable(xs: seq<AttestationRecord>, time: int)
    ensures CreatedAt(NewestFirst(xs), time) == CreatedAt(xs, time)
  {
    if xs != [] {
      var front, last := xs[..|xs| - 1], xs[|xs| - 1];
      assert xs == front + [last];
      NewestFirstIsStable(front, time);
      NewestFirstDescends(front);
      InsertAfterEqual(NewestFirst(front), last, time);
      CreatedAtAppend(front, last, time);
    }
  }

  // ── The reference: everything ever added and revoked ──────────────────────────────────────

  datatype Revocation = Revocation(at: int, reason: Option<string>)

  /** A record as added, with the mark of its revocation. */
  function Marked(record: AttestationRecord, revocations: map<string, Revocation>): AttestationRecord {
    if record.attestationId in revocations then
      var r := revocations[record.attestationId];
      record.(revoked := true, revokedAt := r.at, revocationReason := r.reason)
    else record
  }

  /** The records entered under `key`, in the order they were added, as they are now. */
  function Entered(
    index: Index, added: seq<AttestationRecord>, revocations: map<string, Revocation>, key: string)
    : seq<AttestationRecord>
  {
    if added == [] then []
    else
      var last := added[|added| - 1];
      Entered(index, added[..|added| - 1], revocations, key)
      + (if KeyOf(index, last) == key then [Marked(last, revocations)] else [])
  }

  function IdsUnder(index: Index, added: seq<AttestationRecord>, key: string): seq<string> {
    if added == [] then []
    else
      var last := added[|added| - 1];
      IdsUnder(index, added[..|added| - 1], key) + (if KeyOf(index, last) == key then [last.attestationId] else [])
  }

  predicate FreshId(added: seq<AttestationRecord>, id: string) {
    forall i :: 0 <= i < |added| ==> added[i].attestationId != id
  }

  // ── What the store holds ──────────────────────────────────────────────────────────────────

  /** A stored record is as it was added, but for its own revocation: always, whatever lapsed. */
  predicate RecordKept(
    kv: Store<Value>, added: seq<AttestationRecord>, revocations: map<string, Revocation>, i: nat)
    requires i < |added|
  {
    var key := RecordKey(added[i].attestationId);
    key in kv ==> kv[key].value == Record(Marked(added[i], revocations))
  }

  predicate HoldsIds(kv: Store<Value>, index: Index, key: string) {
    ListKey(index, key) in kv ==> kv[ListKey(index, key)].value.Ids?
  }

  /** Under an id there is an added record, or a list if the id names one, or nothing. */
  predicate Known(kv: Store<Value>, added: seq<AttestationRecord>, id: string) {
    RecordKey(id) in kv ==> ListId(id) || !FreshId(added, id)
  }

  ghost predicate RecordsInv(
    kv: Store<Value>, added: seq<AttestationRecord>, revocations: map<string, Revocation>)
  {
    && (forall i :: 0 <= i < |added| ==> RecordKept(kv, added, revocations, i))
    && (forall i :: 0 <= i < |added| ==> !added[i].revoked && "att_" <= added[i].attestationId)
    && (forall id :: Known(kv, added, id))
    && (forall index, key :: HoldsIds(kv, index, key))
    && (forall id :: id in revocations ==> !FreshId(added, id))
    && (forall i, j :: 0 <= i < j < |added| ==> added[i].attestationId != added[j].attestationId)
  }

  predicate ListTracked(index: Index, kv: Store<Value>, added: seq<AttestationRecord>, key: string) {
    var ids := IdsUnder(index, added, key);
    if ListKey(index, key) in kv then kv[ListKey(index, key)].value == Ids(ids) else ids == []
  }

  ghost predicate ListsInv(index: Index, kv: Store<Value>, added: seq<AttestationRecord>) {
    forall key :: ListTracked(index, kv, added, key)
  }

  ghost predicate AllStored(kv: Store<Value>, added: seq<AttestationRecord>) {
    forall i :: 0 <= i < |added| ==> RecordKey(added[i].attestationId) in kv
  }

  /** No lifetime of the store has run out at `now`. */
  ghost predicate AllReadable(backend: Backend, kv: Store<Value>, now: int) {
    forall key :: key in kv ==> Readable(backend, kv[key], now)
  }

  /** The code's read of a record that a list names. */
  function ReadRecord(backend: Backend, kv: Store<Value>, id: string, now: int): Option<AttestationRecord> {
    var found: Option<Value> := Get(backend, kv, RecordKey(id), now);
    match found
    case Some(Record(record)) => Some(record)
    case _ => None
  }

  function Collect(backend: Backend, kv: Store<Value>, ids: seq<string>, now: int): seq<AttestationRecord> {
    if ids == [] then []
    else
      var record := ReadRecord(backend, kv, ids[|ids| - 1], now);
      Collect(backend, kv, ids[..|ids| - 1], now) + (if record.Some? then [record.value] else [])
  }

  lemma CollectAppend(backend: Backend, kv: Store<Value>, ids: seq<string>, id: string, now: int)
    ensures Collect(backend, kv, ids + [id], now)
         == Collect(backend, kv, ids, now)
            + (var record := ReadRecord(backend, kv, id, now); if record.Some? then [record.value] else [])
  {
    assert (ids + [id])[..|ids|] == ids;
  }

  lemma IdsUnderAppend(index: Index, added: seq<AttestationRecord>, record: AttestationRecord, key: string)
    ensures IdsUnder(index, added + [record], key)
         == IdsUnder(index, added, key) + (if KeyOf(index, record) == key then [record.attestationId] else [])
  {
    assert (added + [record])[..|added|] == added;
  }

  lemma EnteredAppend(
    index: Index, added: seq<AttestationRecord>, revocations: map<string, Revocation>, record: AttestationRecord,
    key: string)
    ensures Entered(index, added + [record], revocations, key)
         == Entered(index, added, revocations, key)
            + (if KeyOf(index, record) == key then [Marked(record, revocations)] else [])
  {
    assert (added + [record])[..|added|] == added;
  }

  lemma ReadAdded(
    backend: Backend, kv: Store<Value>, added: seq<AttestationRecord>, revocations: map<string, Revocation>,
    now: int, i: nat)
    requires i < |added| && RecordsInv(kv, added, revocations) && AllStored(kv, added)
    requires AllReadable(backend, kv, now)
    ensures ReadRecord(backend, kv, added[i].attestationId, now) == Some(Marked(added[i], revocations))
  {
    assert RecordKept(kv, added, revocations, i);
  }

  /** Reading the listed ids back gives the entered records, in order. */
  lemma {:induction false} CollectEntered(
    backend: Backend, kv: Store<Value>, index: Index, added: seq<AttestationRecord>,
    revocations: map<string, Revocation>, key: string, now: int, n: nat)
    requires n <= |added| && RecordsInv(kv, added, revocations) && AllStored(kv, added)
    requires AllReadable(backend, kv, now)
    ensures Collect(backend, kv, IdsUnder(index, added[..n], key), now)
         == Entered(index, added[..n], revocations, key)
  {
    if n > 0 {
      var front, last := added[..n - 1], added[n - 1];
      assert added[..n] == front + [last];
      CollectEntered(backend, kv, index, added, revocations, key, now, n - 1);
      IdsUnderAppend(index, front, last, key);
      EnteredAppend(index, front, revocations, last, key);
      ReadAdded(backend, kv, added, revocations, now, n - 1);
      if KeyOf(index, last) == key {
        CollectAppend(backend, kv, IdsUnder(index, front, key), last.attestationId, now);
      } else {
        assert IdsUnder(index, added[..n], key) == IdsUnder(index, front, key);
      }
    }
  }

  lemma {:induction false} FreshNotListed(index: Index, added: seq<AttestationRecord>, key: string, id: string)
    requires FreshId(added, id)
    ensures id !in IdsUnder(index, added, key)
  {
    if added != [] { FreshNotListed(index, added[..|added| - 1], key, id); }
  }

  // Writing a record.

  lemma RecordAdded(
    kv: Store<Value>, added: seq<AttestationRecord>, revocations: map<string, Revocation>,
    record: AttestationRecord, entry: Entry<Value>)
    requires RecordsInv(kv, added, revocations)
    requires FreshId(added, record.attestationId) && "att_" <= record.attestationId && !record.revoked
    requires entry.value == Record(record)
    ensures RecordsInv(kv[RecordKey(record.attestationId) := entry], added + [record], revocations)
  {
    var added' := added + [record];
    var kv' := kv[RecordKey(record.attestationId) := entry];
    forall id
      ensures !FreshId(added, id) ==> !FreshId(added', id)
      ensures Known(kv', added', id)
    {
      StillKnown(kv, kv', added, record, id);
    }
    forall i | 0 <= i < |added'|
      ensures RecordKept(kv', added', revocations, i)
    {
      if i < |added| {
        assert RecordKept(kv, added, revocations, i);
        if RecordKey(added[i].attestationId) == RecordKey(record.attestationId) {
          RecordKeyInjective(added[i].attestationId, record.attestationId);
        }
      }
    }
    forall index, key
      ensures HoldsIds(kv', index, key)
    {
      assert HoldsIds(kv, index, key);
      AddedApart(record.attestationId, index, key);
    }
  }

  lemma StillKnown(
    kv: Store<Value>, kv': Store<Value>, added: seq<AttestationRecord>, record: AttestationRecord, id: string)
    requires Known(kv, added, id)
    requires RecordKey(id) in kv' ==> RecordKey(id) in kv || RecordKey(id) == RecordKey(record.attestationId)
    ensures !FreshId(added, id) ==> !FreshId(added + [record], id)
    ensures Known(kv', added + [record], id)
  {
    var added' := added + [record];
    if !FreshId(added, id) {
      var i :| 0 <= i < |added| && added[i].attestationId == id;
      assert added'[i].attestationId == id;
    }
    if RecordKey(id) == RecordKey(record.attestationId) {
      RecordKeyInjective(id, record.attestationId);
      assert added'[|added|].attestationId == id;
    }
  }

  lemma RecordRevoked(
    kv: Store<Value>, added: seq<AttestationRecord>, revocations: map<string, Revocation>,
    id: string, r: Revocation, entry: Entry<Value>)
    requires RecordsInv(kv, added, revocations)
    requires RecordKey(id) in kv && kv[RecordKey(id)].value.Record? && id !in revocations && !FreshId(added, id)
    requires var record := kv[RecordKey(id)].value.record;
             entry.value == Record(record.(revoked := true, revokedAt := r.at, revocationReason := r.reason))
    ensures RecordsInv(kv[RecordKey(id) := entry], added, revocations[id := r])
  {
    var kv', revocations' := kv[RecordKey(id) := entry], revocations[id := r];
    var k :| 0 <= k < |added| && added[k].attestationId == id;
    forall i | 0 <= i < |added|
      ensures RecordKept(kv', added, revocations', i)
    {
      assert RecordKept(kv, added, revocations, i);
      if RecordKey(added[i].attestationId) == RecordKey(id) { RecordKeyInjective(added[i].attestationId, id); }
    }
    forall other
      ensures Known(kv', added, other)
    {
      assert Known(kv, added, other);
      if RecordKey(other) == RecordKey(id) { RecordKeyInjective(other, id); }
    }
    forall index, key
      ensures HoldsIds(kv', index, key)
    {
      assert HoldsIds(kv, index, key);
      AddedApart(id, index, key);
    }
  }

  /** A record, in whatever state, leaves the lists alone. */
  lemma ListsKeptByRecord(index: Index, kv: Store<Value>, added: seq<AttestationRecord>, id: string, entry: Entry<Value>)
    requires ListsInv(index, kv, added) && "att_" <= id
    ensures ListsInv(index, kv[RecordKey(id) := entry], added)
  {
    var kv' := kv[RecordKey(id) := entry];
    forall key
      ensures ListTracked(index, kv', added, key)
    {
      assert ListTracked(index, kv, added, key);
      AddedApart(id, index, key);
    }
  }

  lemma StoredMeaning(
    kv: Store<Value>, added: seq<AttestationRecord>, revocations: map<string, Revocation>, id: string)
    returns (i: nat)
    requires RecordsInv(kv, added, revocations) && RecordKey(id) in kv && kv[RecordKey(id)].value.Record?
    ensures i < |added| && added[i].attestationId == id && "att_" <= id
    ensures kv[RecordKey(id)].value == Record(Marked(added[i], revocations))
    ensures kv[RecordKey(id)].value.record.attestationId == id
    ensures kv[RecordKey(id)].value.record.revoked <==> id in revocations
  {
    RecordMeetsListIff(id);
    assert Known(kv, added, id);
    assert !ListId(id) by {
      if ListId(id) { ListHeldUnder(kv, id); }
    }
    i :| 0 <= i < |added| && added[i].attestationId == id;
    assert RecordKept(kv, added, revocations, i);
  }

  lemma ListHeldUnder(kv: Store<Value>, id: string)
    requires forall index, key :: HoldsIds(kv, index, key)
    requires ListId(id) && RecordKey(id) in kv
    ensures kv[RecordKey(id)].value.Ids?
  {
    RecordMeetsListIff(id);
    if product :| RecordKey(id) == ListKey(ByProduct, product) {
      assert HoldsIds(kv, ByProduct, product);
    } else {
      var issuer :| RecordKey(id) == ListKey(ByIssuer, issuer);
      assert HoldsIds(kv, ByIssuer, issuer);
    }
  }

  // Writing a list.

  /** The code's read of a list, empty if it is gone. A list key never holds a record. */
  function ReadList(backend: Backend, kv: Store<Value>, listKey: string, now: int): seq<string> {
    var found: Option<Value> := Get(backend, kv, listKey, now);
    match found
    case Some(Ids(ids)) => ids
    case _ => []
  }

  /** Appending an id that is not there yet, for another full lifetime. */
  function AppendToList(backend: Backend, kv: Store<Value>, listKey: string, id: string, now: int)
    : (extended: Store<Value>)
    ensures var list := ReadList(backend, kv, listKey, now);
            ReadList(backend, extended, listKey, now) == if id in list then list else list + [id]
    ensures forall other :: other != listKey ==>
              (other in extended <==> other in kv) && (other in kv ==> extended[other] == kv[other])
  {
    var list := ReadList(backend, kv, listKey, now);
    if id in list then kv else Put(kv, listKey, Ids(list + [id]), TTL_SECONDS, now)
  }

  lemma AppendedEntry(backend: Backend, kv: Store<Value>, listKey: string, id: string, now: int)
    ensures AppendToList(backend, kv, listKey, id, now) ==
              if id in ReadList(backend, kv, listKey, now) then kv
              else kv[listKey := Entry(Ids(ReadList(backend, kv, listKey, now) + [id]), now + 31_536_000_000)]
  {
  }

  /** A list, whatever it says, leaves the records alone. */
  lemma RecordsKeptByList(
    backend: Backend, kv: Store<Value>, added: seq<AttestationRecord>, revocations: map<string, Revocation>,
    index: Index, key: string, id: string, now: int)
    requires RecordsInv(kv, added, revocations)
    ensures RecordsInv(AppendToList(backend, kv, ListKey(index, key), id, now), added, revocations)
  {
    var kv' := AppendToList(backend, kv, ListKey(index, key), id, now);
    forall i | 0 <= i < |added|
      ensures RecordKept(kv', added, revocations, i)
    {
      assert RecordKept(kv, added, revocations, i);
      AddedApart(added[i].attestationId, index, key);
    }
    forall other
      ensures Known(kv', added, other)
    {
      assert Known(kv, added, other);
      RecordMeetsListIff(other);
    }
    forall index', key'
      ensures HoldsIds(kv', index', key')
    {
      assert HoldsIds(kv, index', key');
    }
  }

  /** Appending to the one list enters the record there and keeps every other list of either index. */
  lemma ListAppended(
    backend: Backend, index: Index, kv: Store<Value>, added: seq<AttestationRecord>, record: AttestationRecord, now: int)
    requires ListsInv(index, kv, added) && AllReadable(backend, kv, now) && FreshId(added, record.attestationId)
    ensures ListsInv(
              index, AppendToList(backend, kv, ListKey(index, KeyOf(index, record)), record.attestationId, now),
              added + [record])
  {
    var key := KeyOf(index, record);
    var kv' := AppendToList(backend, kv, ListKey(index, key), record.attestationId, now);
    assert ListTracked(index, kv, added, key);
    FreshNotListed(index, added, key, record.attestationId);
    forall other
      ensures ListTracked(index, kv', added + [record], other)
    {
      assert ListTracked(index, kv, added, other);
      IdsUnderAppend(index, added, record, other);
      if other != key && ListKey(index, other) == ListKey(index, key) { ListKeysApart(index, other, index, key); }
    }
  }

  lemma OtherIndexKept(
    backend: Backend, index: Index, kv: Store<Value>, added: seq<AttestationRecord>,
    other: Index, key: string, id: string, now: int)
    requires ListsInv(index, kv, added) && index != other
    ensures ListsInv(index, AppendToList(backend, kv, ListKey(other, key), id, now), added)
  {
    forall key'
      ensures ListTracked(index, AppendToList(backend, kv, ListKey(other, key), id, now), added, key')
    {
      assert ListTracked(index, kv, added, key');
      if ListKey(index, key') == ListKey(other, key) { ListKeysApart(index, key', other, key); }
    }
  }

  ghost predicate Inv(
    kv: Store<Value>, added: seq<AttestationRecord>, revocations: map<string, Revocation>, intact: bool)
  {
    && RecordsInv(kv, added, revocations)
    && (intact ==> AllStored(kv, added) && ListsInv(ByProduct, kv, added) && ListsInv(ByIssuer, kv, added))
  }

  // ── What the operations do to the store ───────────────────────────────────────────────────

  /** Adding writes the record and then enters it in its two lists. */
  function Added(backend: Backend, kv: Store<Value>, record: AttestationRecord, now: int): Store<Value> {
    var id := record.attestationId;
    var written := Put(kv, RecordKey(id), Record(record), TTL_SECONDS, now);
    var listed := AppendToList(backend, written, ListKey(ByProduct, record.productId), id, now);
    AppendToList(backend, listed, ListKey(ByIssuer, record.issuerAddress), id, now)
  }

  lemma Add(
    backend: Backend, kv: Store<Value>, added: seq<AttestationRecord>, revocations: map<string, Revocation>,
    intact: bool, record: AttestationRecord, now: int)
    requires Inv(kv, added, revocations, intact)
    requires FreshId(added, record.attestationId) && "att_" <= record.attestationId && !record.revoked
    requires intact ==> AllReadable(backend, kv, now)
    ensures Inv(Added(backend, kv, record, now), added + [record], revocations, intact)
  {
    var id := record.attestationId;
    var written := Put(kv, RecordKey(id), Record(record), TTL_SECONDS, now);
    var listed := AppendToList(backend, written, ListKey(ByProduct, record.productId), id, now);
    RecordAdded(kv, added, revocations, record, Entry(Record(record), now + 1000 * TTL_SECONDS));
    RecordsKeptByList(backend, written, added + [record], revocations, ByProduct, record.productId, id, now);
    RecordsKeptByList(backend, listed, added + [record], revocations, ByIssuer, record.issuerAddress, id, now);
    if intact {
      AddToLists(backend, kv, added, record, now);
    }
  }

  /** The entries that adding writes: the record, and the id at the end of its two lists, each for a
      year from now. */
  lemma AddedEntries(backend: Backend, kv: Store<Value>, record: AttestationRecord, now: int)
    requires "att_" <= record.attestationId
    ensures EntersRecord(kv, Added(backend, kv, record, now), record, now)
    ensures Enters(backend, kv, Added(backend, kv, record, now), "attestation:list:" + record.productId,
                   record.attestationId, now)
    ensures Enters(backend, kv, Added(backend, kv, record, now), "attestation:issuer:" + record.issuerAddress,
                   record.attestationId, now)
    ensures forall key ::
              key !in {"attestation:" + record.attestationId, "attestation:list:" + record.productId,
                       "attestation:issuer:" + record.issuerAddress} ==>
                SameEntry(kv, Added(backend, kv, record, now), key)
  {
    var id := record.attestationId;
    var product, issuer := ListKey(ByProduct, record.productId), ListKey(ByIssuer, record.issuerAddress);
    AddedApart(id, ByProduct, record.productId);
    AddedApart(id, ByIssuer, record.issuerAddress);
    if product == issuer { ListKeysApart(ByProduct, record.productId, ByIssuer, record.issuerAddress); }
    var written := Put(kv, RecordKey(id), Record(record), TTL_SECONDS, now);
    var listed := AppendToList(backend, written, product, id, now);
    SameRead(backend, kv, written, product, now);
    SameRead(backend, kv, listed, issuer, now);
    AppendedEntry(backend, written, product, id, now);
    AppendedEntry(backend, listed, issuer, id, now);
  }

  predicate SameEntry(kv: Store<Value>, kv': Store<Value>, key: string) {
    (key in kv' <==> key in kv) && (key in kv ==> kv'[key] == kv[key])
  }

  lemma SameRead(backend: Backend, kv: Store<Value>, kv': Store<Value>, key: string, now: int)
    requires SameEntry(kv, kv', key)
    ensures ReadList(backend, kv', key, now) == ReadList(backend, kv, key, now)
  {
  }

  predicate EntersRecord(kv: Store<Value>, kv': Store<Value>, record: AttestationRecord, now: int) {
    var key := "attestation:" + record.attestationId;
    key in kv' && kv'[key] == Entry(Record(record), now + 31_536_000_000)
  }

  /** The id is at the end of the list, or was on it already. */
  predicate Enters(backend: Backend, kv: Store<Value>, kv': Store<Value>, key: string, id: string, now: int) {
    var ids := ReadList(backend, kv, key, now);
    if id in ids then SameEntry(kv, kv', key)
    else key in kv' && kv'[key] == Entry(Ids(ids + [id]), now + 31_536_000_000)
  }

  lemma AddToLists(
    backend: Backend, kv: Store<Value>, added: seq<AttestationRecord>, record: AttestationRecord, now: int)
    requires AllStored(kv, added) && ListsInv(ByProduct, kv, added) && ListsInv(ByIssuer, kv, added)
    requires FreshId(added, record.attestationId) && "att_" <= record.attestationId && AllReadable(backend, kv, now)
    ensures var kv' := Added(backend, kv, record, now);
            AllStored(kv', added + [record]) && ListsInv(ByProduct, kv', added + [record])
            && ListsInv(ByIssuer, kv', added + [record])
  {
    var id := record.attestationId;
    var written := Put(kv, RecordKey(id), Record(record), TTL_SECONDS, now);
    var listed := AppendToList(backend, written, ListKey(ByProduct, record.productId), id, now);
    ListsKeptByRecord(ByProduct, kv, added, id, written[RecordKey(id)]);
    ListsKeptByRecord(ByIssuer, kv, added, id, written[RecordKey(id)]);
    ListAppended(backend, ByProduct, written, added, record, now);
    OtherIndexKept(backend, ByIssuer, written, added, ByProduct, record.productId, id, now);
    ListAppended(backend, ByIssuer, listed, added, record, now);
    OtherIndexKept(backend, ByProduct, listed, added + [record], ByIssuer, record.issuerAddress, id, now);
  }

  lemma Revoke(
    kv: Store<Value>, added: seq<AttestationRecord>, revocations: map<string, Revocation>, intact: bool,
    id: string, r: Revocation, now: int)
    requires Inv(kv, added, revocations, intact) && id !in revocations && !FreshId(added, id) && "att_" <= id
    requires RecordKey(id) in kv && kv[RecordKey(id)].value.Record?
    ensures var revoked := kv[RecordKey(id)].value.record.(
              revoked := true, revokedAt := r.at, revocationReason := r.reason);
            Inv(Put(kv, RecordKey(id), Record(revoked), TTL_SECONDS, now), added, revocations[id := r], intact)
  {
    var revoked := kv[RecordKey(id)].value.record.(revoked := true, revokedAt := r.at, revocationReason := r.reason);
    var entry := Entry(Record(revoked), now + 1000 * TTL_SECONDS);
    RecordRevoked(kv, added, revocations, id, r, entry);
    if intact {
      ListsKeptByRecord(ByProduct, kv, added, id, entry);
      ListsKeptByRecord(ByIssuer, kv, added, id, entry);
    }
  }

  lemma RevokedIsRecord(
    kv: Store<Value>, added: seq<AttestationRecord>, revocations: map<string, Revocation>, id: string)
    requires RecordsInv(kv, added, revocations) && id in revocations && RecordKey(id) in kv
    ensures kv[RecordKey(id)].value.Record?
  {
    assert !FreshId(added, id);
    var i :| 0 <= i < |added| && added[i].attestationId == id;
    assert RecordKept(kv, added, revocations, i);
  }

  datatype RevokeResult = NotFound | NotIssuer | Done

  datatype Validation = Unknown | IsRevoked | IsExpired | ReferenceMismatch | Holds

  predicate Asks(expectedReference: Option<string>) {
    expectedReference.Some? && expectedReference.value != ""
  }

  /** What the code makes of the value it finds. A list has none of the fields of a record: it is
      not revoked, does not expire and bears no reference. */
  function Judge(found: Option<Value>, expectedReference: Option<string>, now: int): Validation {
    match found
    case None => Unknown
    case Some(Ids(_)) => if Asks(expectedReference) then ReferenceMismatch else Holds
    case Some(Record(record)) =>
      match ComputeStatus(record, now)
      case Revoked => IsRevoked
      case Expired => IsExpired
      case Active =>
        if Asks(expectedReference) && record.signedReference != expectedReference.value then ReferenceMismatch else Holds
  }

  /** The attestation `id` was added, is still stored, was not revoked, has not expired and bears the
      reference that is asked for. */
  ghost predicate Genuine(
    backend: Backend, kv: Store<Value>, added: seq<AttestationRecord>, revocations: map<string, Revocation>,
    id: string, expectedReference: Option<string>, now: int)
  {
    exists i :: 0 <= i < |added| && added[i].attestationId == id
      && Get(backend, kv, RecordKey(id), now).Some? && id !in revocations
      && !(added[i].expiresAt > 0 && now > added[i].expiresAt)
      && (Asks(expectedReference) ==> added[i].signedReference == expectedReference.value)
  }

  lemma AddedHeldUnder(
    kv: Store<Value>, added: seq<AttestationRecord>, revocations: map<string, Revocation>, id: string)
    requires RecordsInv(kv, added, revocations) && RecordKey(id) in kv && !ListId(id)
    ensures exists i :: 0 <= i < |added| && added[i].attestationId == id
              && kv[RecordKey(id)].value == Record(Marked(added[i], revocations)) && !added[i].revoked
  {
    assert Known(kv, added, id);
    var k :| 0 <= k < |added| && added[k].attestationId == id;
    assert RecordKept(kv, added, revocations, k);
  }

  /** For any string: the call holds for a genuine attestation, and for the id of a stored list if no
      reference is asked for. */
  lemma JudgedIff(
    backend: Backend, kv: Store<Value>, added: seq<AttestationRecord>, revocations: map<string, Revocation>,
    id: string, expectedReference: Option<string>, now: int)
    requires RecordsInv(kv, added, revocations)
    ensures var found := Get(backend, kv, RecordKey(id), now);
            Judge(found, expectedReference, now) == Holds <==>
              if ListId(id) then found.Some? && !Asks(expectedReference)
              else Genuine(backend, kv, added, revocations, id, expectedReference, now)
  {
    if Get(backend, kv, RecordKey(id), now).Some? {
      if ListId(id) {
        ListHeldUnder(kv, id);
      } else {
        AddedHeldUnder(kv, added, revocations, id);
      }
    }
  }

  /** The other answers. */
  lemma JudgedMarks(
    backend: Backend, kv: Store<Value>, added: seq<AttestationRecord>, revocations: map<string, Revocation>,
    id: string, expectedReference: Option<string>, now: int)
    requires RecordsInv(kv, added, revocations)
    ensures var found := Get(backend, kv, RecordKey(id), now);
            var answer := Judge(found, expectedReference, now);
            && (answer == Unknown <==> found == None)
            && (answer == IsRevoked <==> found.Some? && id in revocations)
            && (answer == IsExpired <==>
                  && found.Some? && id !in revocations
                  && exists i :: 0 <= i < |added| && added[i].attestationId == id
                       && added[i].expiresAt > 0 && now > added[i].expiresAt)
  {
    var found := Get(backend, kv, RecordKey(id), now);
    if found.Some? && found.value.Ids? {
      forall i | 0 <= i < |added|
        ensures added[i].attestationId != id
      {
        assert RecordKept(kv, added, revocations, i);
      }
    }
    if found.Some? && found.value.Record? {
      var i := StoredMeaning(kv, added, revocations, id);
    } else if found.Some? && id in revocations {
      RevokedIsRecord(kv, added, revocations, id);
      assert false;
    }
  }

  /** In this state the call holds although there is no such attestation. */
  ghost predicate HoldsWrongly(
    backend: Backend, kv: Store<Value>, added: seq<AttestationRecord>, revocations: map<string, Revocation>,
    id: string, expectedReference: Option<string>, now: int)
  {
    && RecordsInv(kv, added, revocations)
    && Judge(Get(backend, kv, RecordKey(id), now), expectedReference, now) == Holds
    && !Genuine(backend, kv, added, revocations, id, expectedReference, now)
  }

  lemma FirstAdded(backend: Backend, record: AttestationRecord, now: int)
    requires "att_" <= record.attestationId && !record.revoked
    ensures Inv(Added(backend, map[], record, now), [record], map[], true)
  {
    Add(backend, map[], [], map[], true, record, now);
    assert [] + [record] == [record];
  }

  lemma FirstListed(backend: Backend, record: AttestationRecord, index: Index, now: int)
    requires "att_" <= record.attestationId && !record.revoked
    ensures var kv := Added(backend, map[], record, now);
            Get(backend, kv, ListKey(index, KeyOf(index, record)), now) == Some(Ids([record.attestationId]))
  {
    AddedEntries(backend, map[], record, now);
    assert [] + [record.attestationId] == [record.attestationId];
  }

  /** The failing inputs: as soon as a product or an issuer has an attestation, the id of its list is
      reported as a valid one. */
  lemma ListValidates(backend: Backend, record: AttestationRecord, index: Index, now: int)
    requires "att_" <= record.attestationId && !record.revoked
    ensures var id := (if index == ByProduct then "list:" else "issuer:") + KeyOf(index, record);
            HoldsWrongly(backend, Added(backend, map[], record, now), [record], map[], id, None, now)
  {
    ListKeyIsRecordKey(index, KeyOf(index, record));
    AddedApart(record.attestationId, index, KeyOf(index, record));
    FirstAdded(backend, record, now);
    FirstListed(backend, record, index, now);
  }

  lemma ListIdFools(backend: Backend, id: string, expectedReference: Option<string>)
    returns (kv: Store<Value>, added: seq<AttestationRecord>)
    requires ListId(id) && !Asks(expectedReference)
    ensures HoldsWrongly(backend, kv, added, map[], id, expectedReference, 0)
  {
    var index, key := if "list:" <= id then ByProduct else ByIssuer, if "list:" <= id then id[5..] else id[7..];
    assert id == (if index == ByProduct then "list:" else "issuer:") + key;
    var record := AttestationRecord("att_", key, key, "", "", 0, 0, false, 0, None);
    ListValidates(backend, record, index, 0);
    kv, added := Added(backend, map[], record, 0), [record];
  }

  /** Whether a call is to be trusted can be seen from its arguments: in every state it holds for
      genuine attestations only, if and only if the id names no list or a reference is asked for. */
  lemma HoldsOnlyGenuineIff(backend: Backend, id: string, expectedReference: Option<string>)
    ensures (forall kv, added, revocations, now ::
               !HoldsWrongly(backend, kv, added, revocations, id, expectedReference, now))
       <==> !ListId(id) || Asks(expectedReference)
  {
    if !ListId(id) || Asks(expectedReference) {
      forall kv, added, revocations, now
        ensures !HoldsWrongly(backend, kv, added, revocations, id, expectedReference, now)
      {
        if RecordsInv(kv, added, revocations) {
          JudgedIff(backend, kv, added, revocations, id, expectedReference, now);
        }
      }
    } else {
      var kv, added := ListIdFools(backend, id, expectedReference);
    }
  }

  // ── The service ───────────────────────────────────────────────────────────────────────────

  class Registry {
    const backend: Backend
    var kv: Store<Value>
    ghost var added: seq<AttestationRecord>
    ghost var revocations: map<string, Revocation>
    /** No operation has met a lapsed entry yet. */
    ghost var intact: bool

    ghost predicate Valid()
      reads this
    {
      Inv(kv, added, revocations, intact)
    }

    constructor (backend: Backend)
      ensures Valid() && this.backend == backend && added == [] && revocations == map[] && intact
    {
      this.backend := backend;
      kv, added, revocations, intact := map[], [], map[], true;
    }

    /** `attestationId` is the random id, one never used before. */
    method AddAttestation(
      attestationId: string, productId: string, issuerAddress: string, summary: string, signedReference: string,
      expiresInDays: Option<int>, now: int)
      returns (record: AttestationRecord)
      requires Valid() && FreshId(added, attestationId) && "att_" <= attestationId
      modifies this
      ensures Valid() && intact == (old(intact) && old(AllReadable(backend, kv, now)))
      ensures added == old(added) + [record] && revocations == old(revocations)
      ensures record == AttestationRecord(
                attestationId, productId, issuerAddress, summary, signedReference, now,
                if expiresInDays.Some? && expiresInDays.value > 0 then now + expiresInDays.value * 86_400_000 else 0,
                false, 0, None)
      ensures kv == Added(backend, old(kv), record, now)
    {
      var expiresAt := if expiresInDays.Some? && expiresInDays.value > 0
                       then now + expiresInDays.value * DAY_MS else 0;
      record := AttestationRecord(
        attestationId, productId, issuerAddress, summary, signedReference, now, expiresAt, false, 0, None);
      intact := intact && AllReadable(backend, kv, now);
      Add(backend, kv, added, revocations, intact, record, now);
      kv := Put(kv, RecordKey(attestationId), Record(record), TTL_SECONDS, now);
      kv := AppendToList(backend, kv, ListKey(ByProduct, productId), attestationId, now);
      kv := AppendToList(backend, kv, ListKey(ByIssuer, issuerAddress), attestationId, now);
      added := added + [record];
    }

    /** Until a lifetime runs out, a listing holds exactly the records entered under the key, each
        once and as it is now, newest first. */
    method ListAttestations(index: Index, key: string, now: int) returns (views: seq<(AttestationRecord, Status)>)
      requires Valid()
      ensures intact && AllReadable(backend, kv, now) ==>
                var sorted := NewestFirst(Entered(index, added, revocations, key));
                && |views| == |sorted|
                && forall i :: 0 <= i < |sorted| ==>
                     && views[i].0 == sorted[i]
                     && (views[i].1 == Revoked <==> sorted[i].revoked)
                     && (views[i].1 == Expired <==>
                           !sorted[i].revoked && sorted[i].expiresAt > 0 && now > sorted[i].expiresAt)
    {
      var ids := ReadList(backend, kv, ListKey(index, key), now);
      var sorted := NewestFirst(Collect(backend, kv, ids, now));
      views := seq(|sorted|, i requires 0 <= i < |sorted| => (sorted[i], ComputeStatus(sorted[i], now)));
      if intact && AllReadable(backend, kv, now) {
        assert ListTracked(index, kv, added, key);
        assert added[..|added|] == added;
        CollectEntered(backend, kv, index, added, revocations, key, now, |added|);
      }
    }

    /** For any string: only the issuer's revocation of a record changes anything, and only the first
        one. A list has no issuer, so nobody is the one who may revoke it. */
    method RevokeAttestation(attestationId: string, caller: string, reason: Option<string>, now: int)
      returns (result: RevokeResult)
      requires Valid()
      modifies this`kv, this`revocations
      ensures Valid()
      ensures var found := Get(backend, old(kv), RecordKey(attestationId), now);
              match result
              case NotFound => found == None
              case NotIssuer =>
                found.Some? && (found.value.Ids? || found.value.record.issuerAddress != caller)
              case Done =>
                found.Some? && found.value.Record? && found.value.record.issuerAddress == caller
                && attestationId in revocations && !FreshId(added, attestationId)
      ensures revocations == if result == Done && attestationId !in old(revocations)
                             then old(revocations)[attestationId := Revocation(now, reason)] else old(revocations)
      ensures if result == Done && attestationId !in old(revocations) then
                RecordKey(attestationId) in old(kv) && old(kv)[RecordKey(attestationId)].value.Record? &&
                var revoked := old(kv)[RecordKey(attestationId)].value.record.(
                  revoked := true, revokedAt := now, revocationReason := reason);
                kv == old(kv)[RecordKey(attestationId) := Entry(Record(revoked), now + 31_536_000_000)]
              else kv == old(kv)
    {
      var found := Get(backend, kv, RecordKey(attestationId), now);
      if found == None {
        return NotFound;
      }
      if found.value.Ids? || found.value.record.issuerAddress != caller {
        return NotIssuer;
      }
      ghost var i := StoredMeaning(kv, added, revocations, attestationId);
      var record := found.value.record;
      if record.revoked {
        return Done;
      }
      record := record.(revoked := true, revokedAt := now, revocationReason := reason);
      Revoke(kv, added, revocations, intact, attestationId, Revocation(now, reason), now);
      kv := Put(kv, RecordKey(attestationId), Record(record), TTL_SECONDS, now);
      revocations := revocations[attestationId := Revocation(now, reason)];
      return Done;
    }

    /** A revoked attestation never validates again, lapsed or not. */
    method ValidateAttestation(attestationId: string, expectedReference: Option<string>, now: int)
      returns (result: Validation)
      requires Valid()
      ensures result == Unknown <==> Get(backend, kv, RecordKey(attestationId), now) == None
      ensures result == IsRevoked <==> result != Unknown && attestationId in revocations
      ensures result == IsExpired <==>
                && result != Unknown && attestationId !in revocations
                && exists i :: 0 <= i < |added| && added[i].attestationId == attestationId
                     && added[i].expiresAt > 0 && now > added[i].expiresAt
      ensures result == Holds <==>
                if "list:" <= attestationId || "issuer:" <= attestationId then
                  result != Unknown && (expectedReference == None || expectedReference.value == "")
                else
                  && result != Unknown && attestationId !in revocations
                  && exists i :: 0 <= i < |added| && added[i].attestationId == attestationId
                       && !(added[i].expiresAt > 0 && now > added[i].expiresAt)
                       && (expectedReference.Some? && expectedReference.value != "" ==>
                             added[i].signedReference == expectedReference.value)
    {
      var found := Get(backend, kv, RecordKey(attestationId), now);
      JudgedIff(backend, kv, added, revocations, attestationId, expectedReference, now);
      JudgedMarks(backend, kv, added, revocations, attestationId, expectedReference, now);
      if found == None {
        return Unknown;
      }
      var status := if found.value.Record? then ComputeStatus(found.value.record, now) else Active;
      if status == Revoked {
        return IsRevoked;
      }
      if status == Expired {
        return IsExpired;
      }
      if Asks(expectedReference)
         && !(found.value.Record? && found.value.record.signedReference == expectedReference.value) {
        return ReferenceMismatch;
      }
      return Holds;
    }
  }

  // ── What a listing means ──────────────────────────────────────────────────────────────────

  ghost predicate IsEntered(
    index: Index, added: seq<AttestationRecord>, revocations: map<string, Revocation>, key: string,
    record: AttestationRecord)
  {
    exists i :: 0 <= i < |added| && KeyOf(index, added[i]) == key && record == Marked(added[i], revocations)
  }

  lemma IsEnteredSplit(
    index: Index, added: seq<AttestationRecord>, revocations: map<string, Revocation>, key: string,
    record: AttestationRecord)
    requires added != []
    ensures IsEntered(index, added, revocations, key, record)
       <==> IsEntered(index, added[..|added| - 1], revocations, key, record)
            || (KeyOf(index, added[|added| - 1]) == key && record == Marked(added[|added| - 1], revocations))
  {
    var front := added[..|added| - 1];
    if IsEntered(index, front, revocations, key, record) {
      var i :| 0 <= i < |front| && KeyOf(index, front[i]) == key && record == Marked(front[i], revocations);
      assert added[i] == front[i];
    }
  }

  lemma NotEnteredBefore(
    index: Index, added: seq<AttestationRecord>, revocations: map<string, Revocation>, key: string)
    requires added != []
    requires forall i, j :: 0 <= i < j < |added| ==> added[i].attestationId != added[j].attestationId
    ensures !IsEntered(index, added[..|added| - 1], revocations, key, Marked(added[|added| - 1], revocations))
  {
  }

  lemma {:induction false} EnteredExactly(
    index: Index, added: seq<AttestationRecord>, revocations: map<string, Revocation>, key: string,
    record: AttestationRecord)
    requires forall i, j :: 0 <= i < j < |added| ==> added[i].attestationId != added[j].attestationId
    ensures multiset(Entered(index, added, revocations, key))[record]
         == if IsEntered(index, added, revocations, key, record) then 1 else 0
  {
    if added != [] {
      var front, last := added[..|added| - 1], Marked(added[|added| - 1], revocations);
      EnteredExactly(index, front, revocations, key, record);
      IsEnteredSplit(index, added, revocations, key, record);
      NotEnteredBefore(index, added, revocations, key);
      if KeyOf(index, added[|added| - 1]) == key {
        assert multiset(Entered(index, added, revocations, key))
            == multiset(Entered(index, front, revocations, key)) + multiset{last};
      } else {
        assert Entered(index, added, revocations, key) == Entered(index, front, revocations, key);
      }
    }
  }

  /** Through any mix of additions and revocations: a listing is newest first, and holds every record
      of its product or issuer once, in its present state, and nothing else. */
  lemma ListingMeaning(
    kv: Store<Value>, index: Index, added: seq<AttestationRecord>,
    revocations: map<string, Revocation>, key: string, record: AttestationRecord)
    requires RecordsInv(kv, added, revocations)
    ensures var sorted := NewestFirst(Entered(index, added, revocations, key));
            && Descending(sorted)
            && multiset(sorted)[record] == if IsEntered(index, added, revocations, key, record) then 1 else 0
  {
    NewestFirstSorts(Entered(index, added, revocations, key));
    EnteredExactly(index, added, revocations, key, record);
  }
}
