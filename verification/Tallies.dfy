/** Counters kept in a map, as the code keeps them in plain objects. */
module Tallies {
  function CountOf<K(==)>(m: map<K, nat>, key: K): nat {
    if key in m then m[key] else 0
  }

  function Increment<K(==)>(m: map<K, nat>, key: K): map<K, nat> {
    m[key := CountOf(m, key) + 1]
  }

  /** The sum of all counters. */
  ghost function Total<K>(m: map<K, nat>): nat {
    if m == map[] then 0
    else
      var key :| key in m;
      m[key] + Total(m - {key})
  }

  lemma {:induction false} TotalWithout<K>(m: map<K, nat>, key: K)
    requires key in m
    ensures Total(m) == m[key] + Total(m - {key})
    decreases |m|
  {
    var picked :| picked in m && Total(m) == m[picked] + Total(m - {picked});
    if picked != key {
      TotalWithout(m - {picked}, key);
      TotalWithout(m - {key}, picked);
      assert m - {picked} - {key} == m - {key} - {picked};
    }
  }

  lemma TotalIncrement<K>(m: map<K, nat>, key: K)
    ensures Total(Increment(m, key)) == Total(m) + 1
  {
    var m' := Increment(m, key);
    TotalWithout(m', key);
    if key in m {
      TotalWithout(m, key);
      assert m' - {key} == m - {key};
    } else {
      assert m' - {key} == m;
    }
  }

  lemma CountOfIncrement<K>(m: map<K, nat>, key: K, other: K)
    ensures CountOf(Increment(m, key), other) == CountOf(m, other) + (if other == key then 1 else 0)
  {
  }

  /** Counting the places of a log, one more entry at a time. */
  lemma OneMorePlace(places: set<nat>, n: nat, more: bool)
    requires n !in places
    ensures |places + (if more then {n} else {})| == |places| + (if more then 1 else 0)
  {
    if !more { assert places + {} == places; }
  }
}
