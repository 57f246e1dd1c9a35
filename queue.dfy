/**
 * The indexed priority queue: a binary min-heap of keys whose priorities
 * live in one store and whose heap slots live in another, so that a key's
 * priority can be looked up, changed or removed by key.
 *
 * The queue's state is its key sequence `heap` and the two stores.
 * `Valid()` is the structural invariant every operation keeps: the position
 * store is the inverse of the key sequence, and every queued key has a
 * priority.  Heap order (`Ordered()`) is kept separately, because some
 * operations can break it while keeping the structure: push on a key that
 * is already queued, and remove_index when the key it moves does not fit
 * under its new parent.
 */
module PriorityQueue {
  import opened Wrappers
  import opened Indexed
  import opened HeapOrder

  /** Rust's Ordering, as Ord::cmp returns it. */
  datatype Ordering = Less | Equal | Greater

  /** Ord::cmp on priorities. */
  function Cmp(a: int, b: int): (r: Ordering)
    ensures r == Less <==> a < b
    ensures r == Greater <==> a > b
  {
    if a < b then Less else if a == b then Equal else Greater
  }

  /**
   * What an update handle carries besides its borrow of the queue: the key
   * being updated and the priority it had when the handle was taken.
   */
  datatype Guard = Guard(key: nat, oldValue: int)

  class IndexedPriorityQueue {
    /** Key to priority. */
    const priorities: Store<int>
    /** Key to heap slot. */
    const positions: Store<nat>
    /** The keys in heap order. */
    var heap: seq<nat>

    /** The structural invariant: the position store is the inverse of `heap`. */
    ghost predicate Valid()
      reads this, priorities.Repr(), positions.Repr()
    {
      && this !in priorities.Repr() && this !in positions.Repr()
      && priorities.Obj() != positions.Obj()
      && (positions.SlotStore? || positions.HashStore?)
      && (forall p {:trigger heap[p]} :: 0 <= p < |heap| ==>
            && positions.InDomain(heap[p]) && positions.Get(heap[p]) == Some(p)
            && priorities.InDomain(heap[p]) && priorities.Get(heap[p]).Some?)
      && (forall k: nat {:trigger positions.Get(k)} :: positions.InDomain(k) && positions.Get(k).Some? ==>
            positions.Get(k).value < |heap| && heap[positions.Get(k).value] == k)
    }

    /** The priority of every key; only the queued keys' values matter. */
    ghost function Prio(): nat -> int
      reads priorities.Repr()
    {
      priorities.Values(0)
    }

    /** Heap order under the current priorities. */
    ghost predicate Ordered()
      reads this, priorities.Repr()
    {
      HeapOrdered(heap, Prio())
    }

    /**
     * The queue is heap-ordered under the priorities it had when handle g
     * was taken: the current ones, with g's key given its old priority back.
     */
    ghost predicate OrderedBefore(g: Guard)
      reads this, priorities.Repr()
    {
      HeapOrdered(heap, Override(Prio(), g.key, g.oldValue))
    }

    /**
     * An empty queue over two stores (new).  The position store must hold
     * no positions yet, and the two stores must not share storage.
     */
    constructor (priorities: Store<int>, positions: Store<nat>)
      requires priorities.Obj() != positions.Obj()
      requires positions.SlotStore? || positions.HashStore?
      requires forall k {:trigger positions.Get(k)} :: positions.InDomain(k) ==> positions.Get(k).None?
      ensures Valid() && Ordered() && heap == []
      ensures this.priorities == priorities && this.positions == positions
    {
      this.priorities := priorities;
      this.positions := positions;
      heap := [];
    }

    /** Under the invariant no key occupies two slots. */
    lemma KeysInjective()
      requires Valid()
      ensures forall i, j :: 0 <= i < |heap| && 0 <= j < |heap| && i != j ==> heap[i] != heap[j]
    {
      forall i, j | 0 <= i < |heap| && 0 <= j < |heap| && heap[i] == heap[j] ensures i == j {
        assert positions.Get(heap[i]) == Some(i) && positions.Get(heap[j]) == Some(j);
      }
    }

    /**
     * The invariant is back after a key that was not queued has been
     * appended to the heap and given the last slot.
     */
    twostate lemma AppendedValid(k: nat)
      requires old(Valid()) && positions.InDomain(k) && old(positions.Get(k)).None?
      requires heap == old(heap) + [k] && unchanged(priorities.Repr())
      requires priorities.InDomain(k) && priorities.Get(k).Some?
      requires positions.Get(k) == Some(|old(heap)|)
      requires forall j {:trigger positions.Get(j)} :: positions.InDomain(j) && j != k ==> positions.Get(j) == old(positions.Get(j))
      ensures Valid()
    {
      ghost var h := old(heap);
      forall p | 0 <= p < |heap| ensures positions.Get(heap[p]) == Some(p) {
        if p < |h| {
          assert positions.Get(h[p]) == old(positions.Get(h[p]));
        }
      }
      forall j: nat {:trigger positions.Get(j)} | positions.InDomain(j) && positions.Get(j).Some?
        ensures positions.Get(j).value < |heap| && heap[positions.Get(j).value] == j
      {
        if j != k {
          assert positions.Get(j) == old(positions.Get(j));
        }
      }
    }

    /**
     * The invariant is back after swap_remove at slot p has taken out key
     * `old(heap)[p]`, whose position is gone, and the key moved into slot p
     * (if any) has been given that slot.
     */
    twostate lemma SwapRemovedValid(p: nat)
      requires old(Valid()) && p < |old(heap)|
      requires heap == SwapRemove(old(heap), p) && unchanged(priorities.Repr())
      requires positions.Get(old(heap)[p]).None?
      requires p < |heap| ==> positions.Get(heap[p]) == Some(p)
      requires forall j {:trigger positions.Get(j)} :: positions.InDomain(j) && j != old(heap)[p] && (p < |heap| ==> j != heap[p]) ==>
                 positions.Get(j) == old(positions.Get(j))
      ensures Valid() && old(heap)[p] !in heap
    {
      ghost var h := old(heap);
      forall i, j | 0 <= i < |h| && 0 <= j < |h| && h[i] == h[j] ensures i == j {
        assert old(positions.Get(h[i])) == Some(i) && old(positions.Get(h[j])) == Some(j);
      }
      forall q | 0 <= q < |heap| ensures positions.Get(heap[q]) == Some(q) {
        if q != p {
          assert positions.Get(h[q]) == old(positions.Get(h[q]));
        }
      }
      forall j: nat {:trigger positions.Get(j)} | positions.InDomain(j) && positions.Get(j).Some?
        ensures positions.Get(j).value < |heap| && heap[positions.Get(j).value] == j
      {
        if p == |heap| || j != heap[p] {
          var q := old(positions.Get(j)).value;
          assert h[q] == j && q != p && q != |h| - 1;
        }
      }
    }

    /**
     * The invariant survives a write to the priority store that changes no
     * key but k and leaves k with a priority if it is queued; the queued
     * keys other than k keep their priorities.
     */
    twostate lemma PriorityWritten(k: nat)
      requires old(Valid()) && priorities.InDomain(k)
      requires heap == old(heap) && unchanged(positions.Repr())
      requires k in heap ==> priorities.Get(k).Some?
      requires forall j {:trigger priorities.Get(j)} :: priorities.InDomain(j) && j != k ==> priorities.Get(j) == old(priorities.Get(j))
      ensures Valid()
      ensures forall i :: 0 <= i < |heap| && heap[i] != k ==> Prio()(heap[i]) == old(Prio())(heap[i])
      ensures k !in heap ==> (Ordered() <==> old(Ordered()))
    {
      forall p | 0 <= p < |heap| ensures priorities.Get(heap[p]).Some? {
        if heap[p] != k {
          assert priorities.Get(heap[p]) == old(priorities.Get(heap[p]));
        }
      }
      forall j {:trigger positions.Get(j)} | positions.InDomain(j) ensures positions.Get(j) == old(positions.Get(j)) {}
      if k !in heap {
        OrderedFrame(heap, old(Prio()), Prio());
      }
    }

    /**
     * The invariant is back after the keys in the two given slots have been
     * exchanged and each given the other's slot.
     */
    twostate lemma SwappedValid(slots: (nat, nat))
      requires old(Valid()) && slots.0 < |old(heap)| && slots.1 < |old(heap)|
      requires heap == SwapAt(old(heap), slots.0, slots.1) && unchanged(priorities.Repr())
      requires positions.Get(old(heap)[slots.0]) == Some(slots.1) && positions.Get(old(heap)[slots.1]) == Some(slots.0)
      requires forall j {:trigger positions.Get(j)} :: positions.InDomain(j) && j != old(heap)[slots.0] && j != old(heap)[slots.1] ==>
                 positions.Get(j) == old(positions.Get(j))
      ensures Valid()
    {
      var (n, m) := slots;
      ghost var h := old(heap);
      forall p | 0 <= p < |heap| ensures positions.Get(heap[p]) == Some(p) {
        if p != n && p != m {
          assert old(positions.Get(h[p])) == Some(p) && old(positions.Get(h[n])) == Some(n) && old(positions.Get(h[m])) == Some(m);
        }
      }
      forall k: nat {:trigger positions.Get(k)} | positions.InDomain(k) && positions.Get(k).Some?
        ensures positions.Get(k).value < |heap| && heap[positions.Get(k).value] == k
      {
        if k != h[n] && k != h[m] {
          var q := old(positions.Get(k)).value;
          assert h[q] == k && q != n && q != m;
        }
      }
    }

    /** contains: the key has a position, which under the invariant means it is queued. */
    function Contains(k: nat): (r: bool)
      reads this, priorities.Repr(), positions.Repr()
      requires positions.InDomain(k)
      ensures Valid() ==> (r <==> k in heap)
    {
      var r := positions.Contains(k);
      assert Valid() && k in heap ==> r by {
        if Valid() && k in heap {
          var p :| 0 <= p < |heap| && heap[p] == k;
        }
      }
      r
    }

    /** min: the key in slot 0; in an ordered queue its priority is the smallest. */
    function Min(): (r: Option<nat>)
      reads this, priorities.Repr()
      ensures r.None? <==> |heap| == 0
      ensures r.Some? ==> r.value == heap[0]
      ensures r.Some? && Ordered() ==> forall i :: 0 <= i < |heap| ==> Prio()(r.value) <= Prio()(heap[i])
    {
      RootIsMinimumEverywhere(heap, Prio());
      if |heap| == 0 then None else Some(heap[0])
    }

    /** min_priority: the priority of the key in slot 0, the smallest one in an ordered queue. */
    function MinPriority(): (r: Option<int>)
      reads this, priorities.Repr(), positions.Repr()
      requires Valid()
      ensures r.None? <==> |heap| == 0
      ensures r.Some? ==> r.value == Prio()(heap[0])
      ensures r.Some? && Ordered() ==> forall i :: 0 <= i < |heap| ==> r.value <= Prio()(heap[i])
    {
      RootIsMinimumEverywhere(heap, Prio());
      if |heap| == 0 then None else priorities.Get(heap[0])
    }

    /**
     * get_priority: whatever the priority store holds for k, whether or not
     * k is queued.  A queued key always has one; the array store and the
     * default-valued map report one for every key.
     */
    function GetPriority(k: nat): (r: Option<int>)
      reads this, priorities.Repr(), positions.Repr()
      requires priorities.InDomain(k)
      ensures Valid() && positions.InDomain(k) && Contains(k) ==> r == Some(Prio()(k))
      ensures r.Some? ==> r.value == Prio()(k)
      ensures priorities.ArrayStore? || priorities.DefaultStore? ==> r.Some?
      ensures priorities.HashStore? ==> (r.Some? <==> k in priorities.hash.entries)
    {
      priorities.Get(k)
    }

    /** compare: the order of the priorities in slots n and m. */
    function Compare(n: nat, m: nat): (r: Ordering)
      reads this, priorities.Repr(), positions.Repr()
      requires Valid() && n < |heap| && m < |heap|
      ensures r == Cmp(Prio()(heap[n]), Prio()(heap[m]))
    {
      Cmp(priorities.Index(heap[n]), priorities.Index(heap[m]))
    }

    /** swap: exchanges the keys in slots n and m and records their new positions. */
    method Swap(n: nat, m: nat)
      requires Valid() && n < |heap| && m < |heap|
      modifies this, positions.Repr()
      ensures unchanged(priorities.Repr())
      ensures Valid() && heap == SwapAt(old(heap), n, m) && Prio() == old(Prio())
      ensures positions.Get(old(heap)[n]) == Some(m) && positions.Get(old(heap)[m]) == Some(n)
    {
      assert positions.Get(heap[n]) == Some(n) && positions.Get(heap[m]) == Some(m);
      positions.IndexMut(heap[n], m);
      positions.IndexMut(heap[m], n);
      heap := SwapAt(heap, n, m);
      assert unchanged(priorities.Repr());
      PrioFrame();
      SwappedValid((n, m));
    }

    /** up_heap: moves the key at n0 towards the root while its parent's priority is greater. */
    method UpHeap(n0: nat)
      requires Valid() && n0 < |heap|
      modifies this, positions.Repr()
      ensures unchanged(priorities.Repr())
      ensures Valid() && heap == SiftUp(old(heap), Prio(), n0) && Prio() == old(Prio())
      ensures multiset(heap) == multiset(old(heap))
    {
      SiftUpPermutes(heap, Prio(), n0);
      var n: nat := n0;
      while n > 0
        invariant Valid() && n < |heap| && unchanged(priorities.Repr()) && Prio() == old(Prio())
        invariant SiftUp(heap, Prio(), n) == SiftUp(old(heap), Prio(), n0)
        decreases n
      {
        var parent := Parent(n);
        if Compare(parent, n) == Greater {
          Swap(parent, n);
          n := parent;
        } else {
          break;
        }
      }
    }

    /**
     * down_heap: moves the key at n0 towards the leaves while its smaller
     * child (the left one on a tie) has a strictly smaller priority.
     */
    method DownHeap(n0: nat)
      requires Valid()
      modifies this, positions.Repr()
      ensures unchanged(priorities.Repr())
      ensures Valid() && heap == SiftDown(old(heap), Prio(), n0) && Prio() == old(Prio())
      ensures multiset(heap) == multiset(old(heap))
    {
      SiftDownPermutes(heap, Prio(), n0);
      var n: nat := n0;
      while LeftChild(n) < |heap|
        invariant Valid() && unchanged(priorities.Repr()) && Prio() == old(Prio())
        invariant SiftDown(heap, Prio(), n) == SiftDown(old(heap), Prio(), n0)
        decreases |heap| - n
      {
        var left := LeftChild(n);
        var smallest := left;
        if RightChild(n) < |heap| && Compare(left, RightChild(n)) == Greater {
          smallest := RightChild(n);
        }
        if Compare(smallest, n) == Less {
          Swap(smallest, n);
          n := smallest;
        } else {
          break;
        }
      }
    }

    /**
     * restore_index: a key that is not queued is appended and moved up
     * according to the priority the store holds for it; a queued key is
     * left where it is.
     */
    method RestoreIndex(k: nat)
      requires Valid() && positions.InDomain(k) && priorities.InDomain(k) && priorities.Contains(k)
      modifies this, positions.Repr()
      ensures unchanged(priorities.Repr())
      ensures Valid() && Contains(k)
      ensures old(Contains(k)) ==> heap == old(heap)
      ensures !old(Contains(k)) ==> heap == SiftUp(old(heap) + [k], Prio(), |old(heap)|)
      ensures multiset(heap) == multiset(old(heap)) + (if old(Contains(k)) then multiset{} else multiset{k})
      ensures old(Ordered()) ==> Ordered()
    {
      if !positions.Contains(k) {
        ghost var h := heap;
        var position: nat := |heap|;
        heap := heap + [k];
        var _ := positions.Insert(k, position);
        AppendedValid(k);
        assert Prio() == old(Prio());
        if HeapOrdered(h, Prio()) {
          AppendReady(h, Prio(), k);
          SiftUpOrders(heap, Prio(), position);
        }
        UpHeap(position);
        assert k in multiset(heap);
      }
    }

    /**
     * push: stores the priority (returning the entry it replaces) and
     * restores the key.  A key that was already queued keeps its slot even
     * though its priority changed, so heap order is only promised for a key
     * that was not queued.
     */
    method Push(k: nat, value: int) returns (prev: Option<int>)
      requires Valid() && positions.InDomain(k) && priorities.InDomain(k)
      modifies this, positions.Repr(), priorities.Repr()
      ensures Valid() && Contains(k)
      ensures prev == old(priorities.Entry(k))
      ensures GetPriority(k) == Some(value) && priorities.Entry(k) == Some(value)
      ensures forall j {:trigger priorities.Get(j)} :: priorities.InDomain(j) && j != k ==> priorities.Get(j) == old(priorities.Get(j))
      ensures forall j {:trigger priorities.Entry(j)} :: priorities.InDomain(j) && j != k ==> priorities.Entry(j) == old(priorities.Entry(j))
      ensures old(Contains(k)) ==> heap == old(heap)
      ensures !old(Contains(k)) ==> heap == SiftUp(old(heap) + [k], Prio(), |old(heap)|)
      ensures old(Ordered()) && !old(Contains(k)) ==> Ordered()
    {
      ghost var before := Prio();
      ghost var wasIn := Contains(k);
      label written:
      prev := priorities.Insert(k, value);
      assert unchanged@written(positions.Repr());
      PriorityWritten@written(k);
      RestoreIndex(k);
    }

    /** The frame fact that keeps the priorities when only the other objects change. */
    twostate lemma PrioFrame()
      requires unchanged(priorities.Repr())
      ensures Prio() == old(Prio())
    {}

    /**
     * The slot removal pop and remove_index share: swap_remove at slot p,
     * drop the removed key's position, and give the key moved into slot p
     * (if any) its new position.
     */
    method TakeOut(p: nat) returns (key: nat)
      requires Valid() && p < |heap|
      modifies this, positions.Repr()
      ensures unchanged(priorities.Repr()) && Prio() == old(Prio())
      ensures Valid() && key == old(heap)[p] && heap == SwapRemove(old(heap), p)
      ensures positions.InDomain(key) && !Contains(key)
      ensures multiset(heap) == multiset(old(heap)) - multiset{key}
    {
      key := heap[p];
      SwapRemovePermutes(heap, p);
      heap := SwapRemove(heap, p);
      var _ := positions.Remove(key);
      assert unchanged(priorities.Repr());
      label removed:
      if p < |heap| {
        positions.IndexMut(heap[p], p);
        assert unchanged@removed(priorities.Repr());
      }
      assert unchanged(priorities.Repr());
      PrioFrame();
      SwapRemovedValid(p);
      assert key !in multiset(heap);
    }

    /**
     * The removal shared by pop and remove_index: swap_remove at slot p,
     * re-point the key moved into p, then down_heap from p when p is
     * still a slot.
     */
    method RemoveSlot(p: nat) returns (key: nat)
      requires Valid() && p < |heap|
      modifies this, positions.Repr()
      ensures unchanged(priorities.Repr()) && Prio() == old(Prio())
      ensures Valid() && key == old(heap)[p] && heap == RemoveAt(old(heap), Prio(), p)
      ensures positions.InDomain(key) && !Contains(key)
      ensures multiset(heap) == multiset(old(heap)) - multiset{key}
    {
      key := TakeOut(p);
      if p < |heap| {
        DownHeap(p);
      }
      assert key !in multiset(heap);
    }

    /**
     * pop: on an empty queue returns None and changes nothing; otherwise
     * takes the key in slot 0 out (swap_remove, then down_heap from the
     * root) and returns it.  In an ordered queue that key has the smallest
     * priority, and the queue stays ordered.
     */
    method Pop() returns (r: Option<nat>)
      requires Valid()
      modifies this, positions.Repr()
      ensures unchanged(priorities.Repr())
      ensures Valid()
      ensures old(|heap|) == 0 ==> r.None? && heap == old(heap)
      ensures old(|heap|) > 0 ==> r == Some(old(heap)[0]) && heap == RemoveAt(old(heap), Prio(), 0)
      ensures r.Some? ==> positions.InDomain(r.value) && !Contains(r.value)
      ensures r.Some? && old(Ordered()) ==> forall i :: 0 <= i < |old(heap)| ==> Prio()(r.value) <= Prio()(old(heap)[i])
      ensures old(Ordered()) ==> Ordered()
    {
      if |heap| == 0 {
        return None;
      }
      ghost var h := heap;
      var popped := RemoveSlot(0);
      if HeapOrdered(h, Prio()) {
        PopOrders(h, Prio());
      }
      r := Some(popped);
    }

    /**
     * remove_index: takes a queued key out of the heap (swap_remove at its
     * slot, then down_heap from that slot) and leaves its priority stored.
     * The key moved into the slot is only moved down, so the queue stays
     * ordered exactly when that key fits under the slot's parent.
     */
    method RemoveIndex(k: nat)
      requires Valid() && positions.InDomain(k) && Contains(k)
      modifies this, positions.Repr()
      ensures unchanged(priorities.Repr()) && Prio() == old(Prio())
      ensures Valid() && !Contains(k)
      ensures old(positions.Get(k)).Some? && old(positions.Get(k)).value < |old(heap)|
      ensures heap == RemoveAt(old(heap), Prio(), old(positions.Get(k)).value)
      ensures multiset(heap) == multiset(old(heap)) - multiset{k}
      ensures old(Ordered()) ==> (Ordered() <==> MovedFits(old(heap), Prio(), old(positions.Get(k)).value))
    {
      ghost var h := heap;
      var position := positions.Index(k);
      var _ := RemoveSlot(position);
      if HeapOrdered(h, Prio()) {
        RemoveAtOrderedIff(h, Prio(), position);
      }
    }

    /**
     * remove: remove_index, then deletes the stored priority and returns it
     * (the unwrap demands that the store held an entry for k).
     */
    method Remove(k: nat) returns (r: int)
      requires Valid() && positions.InDomain(k) && Contains(k)
      requires priorities.InDomain(k) && priorities.Entry(k).Some?
      modifies this, positions.Repr(), priorities.Repr()
      ensures Valid() && !Contains(k)
      ensures Some(r) == old(priorities.Entry(k))
      ensures priorities.Entry(k) == if priorities.KeepsOnRemove() then old(priorities.Entry(k)) else None
      ensures forall j {:trigger priorities.Get(j)} :: priorities.InDomain(j) && j != k ==> priorities.Get(j) == old(priorities.Get(j))
      ensures forall j {:trigger priorities.Entry(j)} :: priorities.InDomain(j) && j != k ==> priorities.Entry(j) == old(priorities.Entry(j))
      ensures heap == RemoveAt(old(heap), old(Prio()), old(positions.Get(k)).value)
      ensures old(Ordered()) ==> (Ordered() <==> MovedFits(old(heap), old(Prio()), old(positions.Get(k)).value))
    {
      ghost var before, h, p := Prio(), heap, positions.Get(k).value;
      RemoveIndex(k);
      assert heap == RemoveAt(h, before, p) && Prio() == before;
      label indexRemoved:
      var prev := priorities.Remove(k);
      r := prev.value;
      assert unchanged@indexRemoved(positions.Repr());
      PriorityWritten@indexRemoved(k);
    }

    /**
     * clear_indices: forgets every position and empties the heap.  The
     * slot-array position store ignores clear, so its stale positions
     * survive and the invariant is lost unless the queue was already empty.
     */
    method ClearIndices()
      modifies this, positions.Repr()
      ensures unchanged(priorities.Repr())
      ensures heap == []
      ensures forall j {:trigger positions.Entry(j)} :: positions.InDomain(j) ==>
                positions.Entry(j) == if positions.ClearIsNoOp() then old(positions.Entry(j)) else None
      ensures old(Valid()) ==> (Valid() <==> (!positions.ClearIsNoOp() || |old(heap)| == 0))
    {
      positions.Clear();
      heap := [];
      if old(Valid()) && positions.ClearIsNoOp() && |old(heap)| > 0 {
        assert positions.Get(old(heap)[0]) == Some(0);
      }
    }

    /**
     * clear: clear_indices, then clears the priority store (which the array
     * store also ignores).
     */
    method Clear()
      modifies this, positions.Repr(), priorities.Repr()
      ensures heap == []
      ensures forall j {:trigger positions.Entry(j)} :: positions.InDomain(j) ==>
                positions.Entry(j) == if positions.ClearIsNoOp() then old(positions.Entry(j)) else None
      ensures forall j {:trigger priorities.Entry(j)} :: priorities.InDomain(j) ==>
                priorities.Entry(j) == if priorities.ClearIsNoOp() then old(priorities.Entry(j)) else None
      ensures old(Valid()) ==> (Valid() <==> (!positions.ClearIsNoOp() || |old(heap)| == 0))
    {
      ClearIndices();
      label indicesCleared:
      priorities.Clear();
      if old(Valid()) {
        assert this !in priorities.Repr() && heap == [];
        assert unchanged@indicesCleared(positions.Repr());
        forall j {:trigger positions.Get(j)} | positions.InDomain(j)
          ensures positions.Get(j) == old@indicesCleared(positions.Get(j)) {}
        assert old@indicesCleared(Valid()) ==> Valid();
        if positions.ClearIsNoOp() && |old(heap)| > 0 {
          ghost var first := old(heap)[0];
          assert old@indicesCleared(positions.Entry(first)) == old(positions.Entry(first)) == Some(0);
          assert positions.Get(first) == Some(0);
        }
      }
    }

    // -------------------------------------------------------------------
    // Update handles: `*q.update_up(k) = v` and its siblings.  Taking the
    // handle records the old priority, writing through it changes the
    // stored priority, and dropping it repairs the heap.
    // -------------------------------------------------------------------

    /** update_up, update_down and update_dyn: a handle on k recording k's current priority. */
    function BeginUpdate(k: nat): (g: Guard)
      reads this, priorities.Repr()
      requires priorities.InDomain(k) && priorities.Contains(k)
      ensures g.key == k && priorities.Get(k) == Some(g.oldValue)
      ensures OrderedBefore(g) <==> Ordered()
    {
      var g := Guard(k, priorities.Index(k));
      OrderedFrame(heap, Override(Prio(), g.key, g.oldValue), Prio());
      g
    }

    /**
     * Writing v through the handle (deref_mut, which is index_mut on the
     * priority store).  The heap is not touched.
     */
    method Assign(g: Guard, v: int)
      requires priorities.InDomain(g.key) && priorities.Contains(g.key)
      modifies priorities.Repr()
      ensures priorities.Get(g.key) == Some(v) && priorities.Entry(g.key) == Some(v)
      ensures forall j {:trigger priorities.Get(j)} :: priorities.InDomain(j) && j != g.key ==> priorities.Get(j) == old(priorities.Get(j))
      ensures forall j {:trigger priorities.Entry(j)} :: priorities.InDomain(j) && j != g.key ==> priorities.Entry(j) == old(priorities.Entry(j))
      ensures old(Valid()) ==> Valid()
      ensures old(Valid()) && old(OrderedBefore(g)) ==> OrderedBefore(g)
    {
      ghost var before := Override(Prio(), g.key, g.oldValue);
      priorities.IndexMut(g.key, v);
      if old(Valid()) {
        forall i | 0 <= i < |heap| ensures before(heap[i]) == Override(Prio(), g.key, g.oldValue)(heap[i]) {
          if heap[i] != g.key {
            assert priorities.Get(heap[i]) == old(priorities.Get(heap[i]));
          }
        }
        OrderedFrame(heap, before, Override(Prio(), g.key, g.oldValue));
      }
    }

    /**
     * Dropping an update_up handle: the priority may only have grown (a
     * debug assertion); a queued key is moved down from its slot.
     */
    method EndUpdateUp(g: Guard)
      requires Valid() && positions.InDomain(g.key)
      requires priorities.InDomain(g.key) && priorities.Contains(g.key)
      requires priorities.Index(g.key) >= g.oldValue
      modifies this, positions.Repr()
      ensures unchanged(priorities.Repr())
      ensures Valid()
      ensures !old(Contains(g.key)) ==> heap == old(heap)
      ensures old(Contains(g.key)) ==> heap == SiftDown(old(heap), Prio(), old(positions.Get(g.key)).value)
      ensures multiset(heap) == multiset(old(heap))
      ensures old(OrderedBefore(g)) ==> Ordered()
    {
      ghost var before := Override(Prio(), g.key, g.oldValue);
      KeysInjective();
      var position := positions.Get(g.key);
      if position.Some? {
        var n := position.value;
        if HeapOrdered(heap, before) {
          RaiseReady(heap, before, Prio(), n);
          SiftDownOrders(heap, Prio(), n);
        }
        DownHeap(n);
      } else {
        OrderedFrame(heap, before, Prio());
      }
    }

    /**
     * Dropping an update_down handle: the priority may only have shrunk (a
     * debug assertion); a queued key is moved up from its slot.
     */
    method EndUpdateDown(g: Guard)
      requires Valid() && positions.InDomain(g.key)
      requires priorities.InDomain(g.key) && priorities.Contains(g.key)
      requires priorities.Index(g.key) <= g.oldValue
      modifies this, positions.Repr()
      ensures unchanged(priorities.Repr())
      ensures Valid()
      ensures !old(Contains(g.key)) ==> heap == old(heap)
      ensures old(Contains(g.key)) ==> heap == SiftUp(old(heap), Prio(), old(positions.Get(g.key)).value)
      ensures multiset(heap) == multiset(old(heap))
      ensures old(OrderedBefore(g)) ==> Ordered()
    {
      ghost var before := Override(Prio(), g.key, g.oldValue);
      KeysInjective();
      var position := positions.Get(g.key);
      if position.Some? {
        var n := position.value;
        if HeapOrdered(heap, before) {
          LowerReady(heap, before, Prio(), n);
          SiftUpOrders(heap, Prio(), n);
        }
        UpHeap(n);
      } else {
        OrderedFrame(heap, before, Prio());
      }
    }

    /**
     * Dropping an update_dyn handle: a queued key whose priority grew is
     * moved down, one whose priority shrank is moved up, and one whose
     * priority is unchanged stays.
     */
    method EndUpdateDyn(g: Guard)
      requires Valid() && positions.InDomain(g.key)
      requires priorities.InDomain(g.key) && priorities.Contains(g.key)
      modifies this, positions.Repr()
      ensures unchanged(priorities.Repr())
      ensures Valid()
      ensures !old(Contains(g.key)) || old(priorities.Index(g.key)) == g.oldValue ==> heap == old(heap)
      ensures old(Contains(g.key)) && old(priorities.Index(g.key)) > g.oldValue ==>
                heap == SiftDown(old(heap), Prio(), old(positions.Get(g.key)).value)
      ensures old(Contains(g.key)) && old(priorities.Index(g.key)) < g.oldValue ==>
                heap == SiftUp(old(heap), Prio(), old(positions.Get(g.key)).value)
      ensures multiset(heap) == multiset(old(heap))
      ensures old(OrderedBefore(g)) ==> Ordered()
    {
      ghost var before := Override(Prio(), g.key, g.oldValue);
      KeysInjective();
      var position := positions.Get(g.key);
      if position.Some? {
        var n := position.value;
        match Cmp(priorities.Index(g.key), g.oldValue)
        case Greater =>
          if HeapOrdered(heap, before) {
            RaiseReady(heap, before, Prio(), n);
            SiftDownOrders(heap, Prio(), n);
          }
          DownHeap(n);
        case Less =>
          if HeapOrdered(heap, before) {
            LowerReady(heap, before, Prio(), n);
            SiftUpOrders(heap, Prio(), n);
          }
          UpHeap(n);
        case Equal =>
          OrderedFrame(heap, before, Prio());
      } else {
        OrderedFrame(heap, before, Prio());
      }
    }

    /** `*q.update_up(k) = v`: raises k's priority to v and repairs the heap. */
    method UpdateUp(k: nat, v: int)
      requires Valid() && positions.InDomain(k)
      requires priorities.InDomain(k) && priorities.Contains(k) && v >= priorities.Index(k)
      modifies this, positions.Repr(), priorities.Repr()
      ensures Valid() && GetPriority(k) == Some(v) && priorities.Entry(k) == Some(v)
      ensures forall j {:trigger priorities.Get(j)} :: priorities.InDomain(j) && j != k ==> priorities.Get(j) == old(priorities.Get(j))
      ensures forall j {:trigger priorities.Entry(j)} :: priorities.InDomain(j) && j != k ==> priorities.Entry(j) == old(priorities.Entry(j))
      ensures multiset(heap) == multiset(old(heap))
      ensures old(Ordered()) ==> Ordered()
      ensures !old(Contains(k)) ==> heap == old(heap)
      ensures old(Contains(k)) ==> heap == SiftDown(old(heap), Prio(), old(positions.Get(k)).value)
    {
      var g := BeginUpdate(k);
      label begun:
      Assign(g, v);
      assert unchanged@begun(this, positions.Repr());
      EndUpdateUp(g);
    }

    /** `*q.update_down(k) = v`: lowers k's priority to v and repairs the heap. */
    method UpdateDown(k: nat, v: int)
      requires Valid() && positions.InDomain(k)
      requires priorities.InDomain(k) && priorities.Contains(k) && v <= priorities.Index(k)
      modifies this, positions.Repr(), priorities.Repr()
      ensures Valid() && GetPriority(k) == Some(v) && priorities.Entry(k) == Some(v)
      ensures forall j {:trigger priorities.Get(j)} :: priorities.InDomain(j) && j != k ==> priorities.Get(j) == old(priorities.Get(j))
      ensures forall j {:trigger priorities.Entry(j)} :: priorities.InDomain(j) && j != k ==> priorities.Entry(j) == old(priorities.Entry(j))
      ensures multiset(heap) == multiset(old(heap))
      ensures old(Ordered()) ==> Ordered()
      ensures !old(Contains(k)) ==> heap == old(heap)
      ensures old(Contains(k)) ==> heap == SiftUp(old(heap), Prio(), old(positions.Get(k)).value)
    {
      var g := BeginUpdate(k);
      label begun:
      Assign(g, v);
      assert unchanged@begun(this, positions.Repr());
      EndUpdateDown(g);
    }

    /** `*q.update_dyn(k) = v`: sets k's priority to v in either direction and repairs the heap. */
    method UpdateDyn(k: nat, v: int)
      requires Valid() && positions.InDomain(k)
      requires priorities.InDomain(k) && priorities.Contains(k)
      modifies this, positions.Repr(), priorities.Repr()
      ensures Valid() && GetPriority(k) == Some(v) && priorities.Entry(k) == Some(v)
      ensures forall j {:trigger priorities.Get(j)} :: priorities.InDomain(j) && j != k ==> priorities.Get(j) == old(priorities.Get(j))
      ensures forall j {:trigger priorities.Entry(j)} :: priorities.InDomain(j) && j != k ==> priorities.Entry(j) == old(priorities.Entry(j))
      ensures multiset(heap) == multiset(old(heap))
      ensures old(Ordered()) ==> Ordered()
      ensures !old(Contains(k)) || v == old(priorities.Index(k)) ==> heap == old(heap)
      ensures old(Contains(k)) && v > old(priorities.Index(k)) ==> heap == SiftDown(old(heap), Prio(), old(positions.Get(k)).value)
      ensures old(Contains(k)) && v < old(priorities.Index(k)) ==> heap == SiftUp(old(heap), Prio(), old(positions.Get(k)).value)
    {
      var g := BeginUpdate(k);
      label begun:
      Assign(g, v);
      assert unchanged@begun(this, positions.Repr());
      EndUpdateDyn(g);
    }
  }
}
