/**
 * The store contract shared by the priority store and the position store:
 * get, get_mut, insert, remove and clear, plus the derived contains, index
 * and index_mut.  A store is one of the four adapters; each operation
 * dispatches to the adapter it holds.
 *
 * Two views describe a store: `Get(k)` is what the contract's get returns,
 * and `Entry(k)` is what is actually stored for k, which insert and remove
 * hand back.  They differ only for the default-valued map, whose get reads
 * an absent key as the default.
 */
module Indexed {
  import opened Wrappers
  import ArrayMap
  import DefaultMap
  import HashMap

  datatype Store<V> =
    | ArrayStore(prioArray: ArrayMap.ArrayPriorityMap<V>)
    | SlotStore(slots: ArrayMap.ArrayPositionMap<V>)
    | DefaultStore(defaults: DefaultMap.DefaultMap<nat, V>)
    | HashStore(hash: HashMap.IndexedHashMap<nat, V>)
  {
    /** The object the store's contents live in. */
    function Obj(): object {
      match this
      case ArrayStore(a) => a.buf
      case SlotStore(s) => s.buf
      case DefaultStore(d) => d
      case HashStore(m) => m
    }

    /** The store's footprint, for reads and modifies clauses. */
    function Repr(): set<object> { {Obj()} }

    /** The keys the store accepts: a fixed range for the array adapters, every key for the maps. */
    predicate InDomain(k: nat) {
      match this
      case ArrayStore(a) => a.InDomain(k)
      case SlotStore(s) => s.InDomain(k)
      case DefaultStore(_) => true
      case HashStore(_) => true
    }

    /**
     * The contract's get: always present for the array priority store and
     * the default-valued map, present exactly for a filled slot or an
     * existing entry in the other two.
     */
    function Get(k: nat): (r: Option<V>)
      reads Repr()
      requires InDomain(k)
      ensures ArrayStore? || DefaultStore? ==> r.Some?
      ensures SlotStore? ==> (r.Some? <==> slots.buf[k - slots.offset].Some?)
      ensures HashStore? ==> (r.Some? <==> k in hash.entries)
    {
      match this
      case ArrayStore(a) => a.Get(k)
      case SlotStore(s) => s.Get(k)
      case DefaultStore(d) => d.Get(k)
      case HashStore(m) => m.Get(k)
    }

    /** What is stored for k: what insert and remove return as the previous value. */
    ghost function Entry(k: nat): Option<V>
      reads Repr()
      requires InDomain(k)
    {
      match this
      case ArrayStore(a) => a.Get(k)
      case SlotStore(s) => s.Get(k)
      case DefaultStore(d) => if k in d.entries then Some(d.entries[k]) else None
      case HashStore(m) => m.Get(k)
    }

    /** Whether entries survive remove and clear (the array adapters keep or ignore them). */
    predicate KeepsOnRemove() { ArrayStore? }

    /** Whether clear leaves the store as it was. */
    predicate ClearIsNoOp() { ArrayStore? || SlotStore? }

    /**
     * The derived contains: get is Some.  It is always true for the array
     * priority adapter and the default-valued map.
     */
    predicate Contains(k: nat)
      reads Repr()
      requires InDomain(k)
      ensures Contains(k) <==> Get(k).Some?
      ensures ArrayStore? || DefaultStore? ==> Contains(k)
      ensures SlotStore? ==> (Contains(k) <==> slots.buf[k - slots.offset].Some?)
      ensures HashStore? ==> (Contains(k) <==> k in hash.entries)
    {
      Get(k).Some?
    }

    /** The derived index: get, which must be Some. */
    function Index(k: nat): (v: V)
      reads Repr()
      requires InDomain(k) && Contains(k)
      ensures Get(k) == Some(v)
    {
      Get(k).value
    }

    /** Every key's value as a total function, with `fallback` for keys that have none. */
    ghost function Values(fallback: V): (f: nat -> V)
      reads Repr()
      ensures forall k {:trigger Get(k)} :: InDomain(k) && Get(k).Some? ==> f(k) == Get(k).value
    {
      match this
      case ArrayStore(a) =>
        var o, vs := a.offset, a.buf[..];
        (k: nat) => if o <= k < o + |vs| then vs[k - o] else fallback
      case SlotStore(s) =>
        var o, vs := s.offset, s.buf[..];
        (k: nat) => if o <= k < o + |vs| && vs[k - o].Some? then vs[k - o].value else fallback
      case DefaultStore(d) =>
        var es, dv := d.entries, d.fallback;
        (k: nat) => if k in es then es[k] else dv
      case HashStore(m) =>
        var es := m.entries;
        (k: nat) => if k in es then es[k] else fallback
    }

    /**
     * The contract's get_mut.  It returns what get returns; only the
     * default-valued map changes, materialising the default for k.
     */
    method GetMut(k: nat) returns (r: Option<V>)
      requires InDomain(k)
      modifies Repr()
      ensures r == old(Get(k))
      ensures forall j {:trigger Get(j)} :: InDomain(j) ==> Get(j) == old(Get(j))
      ensures forall j {:trigger Entry(j)} :: InDomain(j) && j != k ==> Entry(j) == old(Entry(j))
      ensures Entry(k) == if DefaultStore? then r else old(Entry(k))
    {
      match this
      case ArrayStore(a) => r := a.GetMut(k);
      case SlotStore(s) => r := s.GetMut(k);
      case DefaultStore(d) => r := d.GetMut(k);
      case HashStore(m) => r := m.GetMut(k);
    }

    /** The contract's insert: k now holds v; returns k's previous entry. */
    method Insert(k: nat, v: V) returns (prev: Option<V>)
      requires InDomain(k)
      modifies Repr()
      ensures prev == old(Entry(k))
      ensures Get(k) == Some(v) && Entry(k) == Some(v)
      ensures forall j {:trigger Get(j)} :: InDomain(j) && j != k ==> Get(j) == old(Get(j))
      ensures forall j {:trigger Entry(j)} :: InDomain(j) && j != k ==> Entry(j) == old(Entry(j))
    {
      match this
      case ArrayStore(a) => prev := a.Insert(k, v);
      case SlotStore(s) => prev := s.Insert(k, v);
      case DefaultStore(d) => prev := d.Insert(k, v);
      case HashStore(m) => prev := m.Insert(k, v);
    }

    /**
     * The contract's remove: returns k's previous entry and deletes it,
     * except that the array priority adapter keeps it.
     */
    method Remove(k: nat) returns (prev: Option<V>)
      requires InDomain(k)
      modifies Repr()
      ensures prev == old(Entry(k))
      ensures Entry(k) == if KeepsOnRemove() then old(Entry(k)) else None
      ensures KeepsOnRemove() ==> Get(k) == old(Get(k))
      ensures DefaultStore? ==> Get(k) == Some(defaults.fallback)
      ensures SlotStore? || HashStore? ==> Get(k) == None
      ensures forall j {:trigger Get(j)} :: InDomain(j) && j != k ==> Get(j) == old(Get(j))
      ensures forall j {:trigger Entry(j)} :: InDomain(j) && j != k ==> Entry(j) == old(Entry(j))
    {
      match this
      case ArrayStore(a) => prev := a.Remove(k);
      case SlotStore(s) => prev := s.Remove(k);
      case DefaultStore(d) => prev := d.Remove(k);
      case HashStore(m) => prev := m.Remove(k);
    }

    /** The contract's clear: deletes every entry, except that the array adapters do nothing. */
    method Clear()
      modifies Repr()
      ensures forall j {:trigger Entry(j)} :: InDomain(j) ==> Entry(j) == if ClearIsNoOp() then old(Entry(j)) else None
      ensures forall j {:trigger Get(j)} :: InDomain(j) ==> Get(j) == if ClearIsNoOp() then old(Get(j))
                                                   else if DefaultStore? then Some(defaults.fallback) else None
    {
      match this
      case ArrayStore(a) => a.Clear();
      case SlotStore(s) => s.Clear();
      case DefaultStore(d) => d.Clear();
      case HashStore(m) => m.Clear();
    }

    /**
     * The derived index_mut followed by a write through it: get_mut must
     * return Some (which is the case exactly when k is contained), and k
     * then holds v.
     */
    method IndexMut(k: nat, v: V)
      requires InDomain(k) && Contains(k)
      modifies Repr()
      ensures Get(k) == Some(v) && Entry(k) == Some(v)
      ensures forall j {:trigger Get(j)} :: InDomain(j) && j != k ==> Get(j) == old(Get(j))
      ensures forall j {:trigger Entry(j)} :: InDomain(j) && j != k ==> Entry(j) == old(Entry(j))
    {
      var r := GetMut(k);
      assert r.Some?;
      // Writing through the reference get_mut returned overwrites the entry
      // it refers to, which for an existing entry is what insert does.
      var _ := Insert(k, v);
    }
  }
}
