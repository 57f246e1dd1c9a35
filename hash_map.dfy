/** A sparse store that reports absent keys as absent. */
module HashMap {
  import opened Wrappers

  class IndexedHashMap<K(==), V> {
    /** The entries of the wrapped hash map. */
    var entries: map<K, V>

    /** A store over the given entries (the `Default` and `From<HashMap>` constructions). */
    constructor (entries: map<K, V>)
      ensures this.entries == entries
    {
      this.entries := entries;
    }

    /** k's value, present exactly when k has an entry. */
    function Get(k: K): (r: Option<V>)
      reads this
      ensures r.Some? <==> k in entries
      ensures r.Some? ==> r.value == entries[k]
    {
      if k in entries then Some(entries[k]) else None
    }

    /** A mutable view of k's entry; never inserts, so absent keys stay absent. */
    method GetMut(k: K) returns (r: Option<V>)
      ensures r == Get(k)
    {
      r := if k in entries then Some(entries[k]) else None;
    }

    /** Maps k to v and returns k's previous value; other keys keep theirs. */
    method Insert(k: K, v: V) returns (prev: Option<V>)
      modifies this
      ensures entries == old(entries)[k := v]
      ensures prev == old(Get(k))
    {
      prev := Get(k);
      entries := entries[k := v];
    }

    /** Deletes k and returns its previous value; other keys keep theirs. */
    method Remove(k: K) returns (prev: Option<V>)
      modifies this
      ensures entries == old(entries) - {k}
      ensures prev == old(Get(k))
    {
      prev := Get(k);
      entries := entries - {k};
    }

    /** Deletes every entry. */
    method Clear()
      modifies this
      ensures entries == map[]
    {
      entries := map[];
    }
  }
}
