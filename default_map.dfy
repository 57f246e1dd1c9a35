/**
 * A sparse store that reads an absent key as a default value.  Reading never
 * creates an entry; taking a mutable view creates one holding the default.
 */
module DefaultMap {
  import opened Wrappers

  class DefaultMap<K(==), V> {
    /** The entries actually stored (the wrapped hash map). */
    var entries: map<K, V>
    /** The value an absent key reads as. */
    const fallback: V

    /** A store over the given entries with the given default. */
    constructor (fallback: V, entries: map<K, V>)
      ensures this.fallback == fallback && this.entries == entries
    {
      this.fallback := fallback;
      this.entries := entries;
    }

    /** Never absent: the stored value, or the default for a key with no entry. */
    function Get(k: K): (r: Option<V>)
      reads this
      ensures r.Some?
      ensures k in entries ==> r.value == entries[k]
      ensures k !in entries ==> r.value == fallback
    {
      Some(if k in entries then entries[k] else fallback)
    }

    /** Materialises the default for an absent key, then returns the entry. */
    method GetMut(k: K) returns (r: Option<V>)
      modifies this
      ensures entries == if k in old(entries) then old(entries) else old(entries)[k := fallback]
      ensures r == old(Get(k)) && r == Some(entries[k])
    {
      if k !in entries {
        entries := entries[k := fallback];
      }
      r := Some(entries[k]);
    }

    /** Stores the value; returns the previous entry, None if k had none (even though Get read the default). */
    method Insert(k: K, v: V) returns (prev: Option<V>)
      modifies this
      ensures entries == old(entries)[k := v]
      ensures prev == if k in old(entries) then Some(old(entries)[k]) else None
    {
      prev := if k in entries then Some(entries[k]) else None;
      entries := entries[k := v];
    }

    /** Deletes k's entry and returns it; afterwards k reads as the default. */
    method Remove(k: K) returns (prev: Option<V>)
      modifies this
      ensures entries == old(entries) - {k}
      ensures prev == if k in old(entries) then Some(old(entries)[k]) else None
    {
      prev := if k in entries then Some(entries[k]) else None;
      entries := entries - {k};
    }

    /** Deletes every entry. */
    method Clear()
      modifies this
      ensures entries == map[]
    {
      entries := map[];
    }
  }
}
