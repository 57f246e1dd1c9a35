/**
 * Dense stores over a fixed buffer: key k lives in slot k - offset, so the
 * key domain is offset .. offset + length - 1, fixed when the store is built.
 * Every operation asserts (in debug builds) that its key is in the domain;
 * here that is each operation's precondition.
 */
module ArrayMap {
  import opened Wrappers

  /**
   * A priority store in which every slot always holds a value: every key of
   * the domain counts as present, remove only copies the value out, and
   * clear does nothing.
   */
  class ArrayPriorityMap<V> {
    const offset: nat
    const buf: array<V>

    /** Wraps a buffer of initial values (the `From<Box<[V]>>` conversion). */
    constructor (offset: nat, values: seq<V>)
      ensures this.offset == offset && buf[..] == values && fresh(buf)
    {
      this.offset := offset;
      buf := new V[|values|](i requires 0 <= i < |values| => values[i]);
    }

    /** The keys the buffer can address. */
    predicate InDomain(k: nat) {
      offset <= k < offset + buf.Length
    }

    /** The value in k's slot; never absent. */
    function Get(k: nat): (r: Option<V>)
      reads buf
      requires InDomain(k)
      ensures r.Some?
    {
      Some(buf[k - offset])
    }

    /** A mutable view of k's slot: always present, and taking it changes nothing. */
    method GetMut(k: nat) returns (r: Option<V>)
      requires InDomain(k)
      ensures r.Some? && r == Get(k)
    {
      r := Some(buf[k - offset]);
    }

    /** Swaps the new value into k's slot and returns the old one. */
    method Insert(k: nat, v: V) returns (prev: Option<V>)
      requires InDomain(k)
      modifies buf
      ensures prev == old(Get(k))
      ensures buf[..] == old(buf[..])[k - offset := v]
    {
      prev := Some(buf[k - offset]);
      buf[k - offset] := v;
    }

    /** Returns a copy of k's value and leaves the slot as it was. */
    method Remove(k: nat) returns (prev: Option<V>)
      requires InDomain(k)
      ensures prev.Some? && prev == Get(k)
    {
      prev := Some(buf[k - offset]);
    }

    /** Does nothing: the buffer keeps every value. */
    method Clear()
      ensures buf[..] == old(buf[..])
    {
    }
  }

  /**
   * A position store: each slot is empty or holds a value.  Insert fills a
   * slot, remove empties it, and clear does nothing, so stale entries
   * survive a clear.
   */
  class ArrayPositionMap<V> {
    const offset: nat
    const buf: array<Option<V>>

    /** Wraps a buffer of initial slots (the `From<Box<[Option<usize>]>>` conversion). */
    constructor (offset: nat, slots: seq<Option<V>>)
      ensures this.offset == offset && buf[..] == slots && fresh(buf)
    {
      this.offset := offset;
      buf := new Option<V>[|slots|](i requires 0 <= i < |slots| => slots[i]);
    }

    /** The keys the buffer can address. */
    predicate InDomain(k: nat) {
      offset <= k < offset + buf.Length
    }

    /** The content of k's slot; None for an empty slot. */
    function Get(k: nat): (r: Option<V>)
      reads buf
      requires InDomain(k)
      ensures r.None? <==> buf[k - offset].None?
      ensures r.Some? ==> r.value == buf[k - offset].value
    {
      buf[k - offset]
    }

    /** A mutable view of k's slot, present exactly when the slot is filled; changes nothing. */
    method GetMut(k: nat) returns (r: Option<V>)
      requires InDomain(k)
      ensures r == Get(k)
    {
      r := buf[k - offset];
    }

    /** Fills k's slot with the value and returns what it held before. */
    method Insert(k: nat, v: V) returns (prev: Option<V>)
      requires InDomain(k)
      modifies buf
      ensures prev == old(Get(k))
      ensures buf[..] == old(buf[..])[k - offset := Some(v)]
    {
      prev := buf[k - offset];
      buf[k - offset] := Some(v);
    }

    /** Empties k's slot and returns what it held before. */
    method Remove(k: nat) returns (prev: Option<V>)
      requires InDomain(k)
      modifies buf
      ensures prev == old(Get(k))
      ensures buf[..] == old(buf[..])[k - offset := None]
    {
      prev := buf[k - offset];
      buf[k - offset] := None;
    }

    /** Does nothing: filled slots stay filled. */
    method Clear()
      ensures buf[..] == old(buf[..])
    {
    }
  }
}
