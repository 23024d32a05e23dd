/**
  The per-chapter statistics cache of the dashboard: a map from a chapter key
  to the result of that chapter's calculator, filled on first use and emptied
  whenever the filter changes.
*/
module StatsCache {

  /**
    Compute-or-fetch on a cache state: the entries afterwards and the value
    returned, with `computed` the calculator's result for `key`.
  */
  function Fetch<V>(entries: map<string, V>, key: string, computed: V): (r: (map<string, V>, V))
    ensures key in r.0 && r.0[key] == r.1
    ensures r.0.Keys == entries.Keys + {key}
    ensures forall k :: k in entries ==> k in r.0 && r.0[k] == entries[k]
    ensures key !in entries ==> r.1 == computed
  {
    if key in entries then (entries, entries[key]) else (entries[key := computed], computed)
  }

  /** A hit returns the stored value and leaves the entries as they were. */
  lemma FetchHit<V>(entries: map<string, V>, key: string, computed: V)
    requires key in entries
    ensures Fetch(entries, key, computed) == (entries, entries[key])
  {
  }

  /**
    Two fetches of the same key with no clear in between return the same
    value, whatever the calculator gives the second time, and the second
    changes nothing.
  */
  lemma FetchTwice<V>(entries: map<string, V>, key: string, c1: V, c2: V)
    ensures Fetch(Fetch(entries, key, c1).0, key, c2) == Fetch(entries, key, c1)
  {
  }

  class StatsCache<V> {
    var entries: map<string, V>

    constructor ()
      ensures entries == map[]
    {
      entries := map[];
    }

    /** `getCachedStats(key, calculatorFn)`, with `computed` the calculator's result. */
    method GetCached(key: string, computed: V) returns (r: V)
      modifies this
      ensures (entries, r) == Fetch(old(entries), key, computed)
      ensures key in old(entries) ==> r == old(entries)[key] && entries == old(entries)
      ensures key !in old(entries) ==> r == computed && entries == old(entries)[key := computed]
    {
      if key in entries {
        r := entries[key];
      } else {
        entries := entries[key := computed];
        r := computed;
      }
    }

    /** `statsCache = {}`. */
    method Clear()
      modifies this
      ensures entries == map[]
    {
      entries := map[];
    }
  }
}
