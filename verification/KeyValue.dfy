/** The key-value store every KV-backed service writes to, each under prefixes of its own.

    Values are stored already parsed. Evicting an entry that is no longer readable cannot be
    observed, because clocks never go backwards, so eviction on read is not modelled. */
module KeyValue {
  import opened Options

  datatype Entry<+V> = Entry(value: V, expiresAt: int)

  type Store<V> = map<string, Entry<V>>

  /** The in-memory backend still serves an entry at the millisecond it expires; a backend that
      drops it at that very millisecond is exclusive. Every result below holds for both. */
  datatype Backend = Inclusive | Exclusive

  predicate Readable<V>(backend: Backend, entry: Entry<V>, now: int) {
    now < entry.expiresAt || (backend == Inclusive && now == entry.expiresAt)
  }

  function Get<V>(backend: Backend, store: Store<V>, key: string, now: int): Option<V> {
    if key in store && Readable(backend, store[key], now) then Some(store[key].value) else None
  }

  function Put<V>(store: Store<V>, key: string, value: V, ttlSeconds: nat, now: int): Store<V>
    requires ttlSeconds > 0
  {
    store[key := Entry(value, now + 1000 * ttlSeconds)]
  }

  /** An entry can be read for its whole lifetime and no longer, and writing it touches no other. */
  lemma PutThenGet<V>(
    backend: Backend, store: Store<V>, key: string, value: V, ttlSeconds: nat, at: int, other: string, now: int)
    requires ttlSeconds > 0
    ensures Get(backend, Put(store, key, value, ttlSeconds, at), other, now) ==
              if other != key then Get(backend, store, other, now)
              else if now < at + ttlSeconds * 1000 || (backend == Inclusive && now == at + ttlSeconds * 1000)
              then Some(value) else None
  {
  }
}
