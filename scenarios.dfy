/**
 * Client scenarios: small concrete runs of the queue over concrete stores,
 * each stating what the run returns.  Most follow a test of the crate; the
 * test suite's string keys are numbered in the order each test first pushes
 * them (so a = 0, b = 1 in push_pop, but b = 0 in remove_one), and
 * `Reverse(p)` priorities are written as -p.
 */
module Scenarios {
  import opened Wrappers
  import opened Indexed
  import HashMap
  import ArrayMap
  import DefaultMap
  import opened PriorityQueue

  /** A queue over two empty hash-map stores (HashMapIPQ::default). */
  method NewHashQueue() returns (q: IndexedPriorityQueue)
    ensures fresh(q) && fresh(q.priorities.Repr()) && fresh(q.positions.Repr())
    ensures q.Valid() && q.Ordered() && q.heap == []
    ensures q.priorities.HashStore? && q.positions.HashStore?
  {
    var prio := new HashMap.IndexedHashMap<nat, int>(map[]);
    var pos := new HashMap.IndexedHashMap<nat, nat>(map[]);
    q := new IndexedPriorityQueue(HashStore(prio), HashStore(pos));
  }

  /** A hash-map queue after pushing key 0 with priority `p0`. */
  method OneKey(p0: int) returns (q: IndexedPriorityQueue)
    ensures fresh(q) && fresh(q.priorities.Repr()) && fresh(q.positions.Repr())
    ensures q.Valid() && q.Ordered()
    ensures q.priorities.HashStore? && q.positions.HashStore?
    ensures q.priorities.Get(0) == Some(p0) && q.heap == [0]
  {
    q := NewHashQueue();
    var _ := q.Push(0, p0);
  }

  /** A hash-map queue after pushing key 0 with priority `p0` and then key 1 with `p1`. */
  method TwoKeys(p0: int, p1: int) returns (q: IndexedPriorityQueue)
    ensures fresh(q) && fresh(q.priorities.Repr()) && fresh(q.positions.Repr())
    ensures q.Valid() && q.Ordered()
    ensures q.priorities.HashStore? && q.positions.HashStore?
    ensures q.priorities.Get(0) == Some(p0) && q.priorities.Get(1) == Some(p1)
    ensures q.heap == if p1 < p0 then [1, 0] else [0, 1]
  {
    q := OneKey(p0);
    var _ := q.Push(1, p1);
    assert q.priorities.Get(0) == Some(p0);
    assert q.Prio()(0) == p0 && q.Prio()(1) == p1;
  }

  /**
   * push_pop, shortened to two keys: push a with Reverse(1) and b with
   * Reverse(2); pop yields b, and a is then the minimum.
   */
  method PushPop() returns (first: Option<nat>, next: Option<nat>)
    ensures first == Some(1) && next == Some(0)
  {
    var q := TwoKeys(-1, -2);
    first := q.Pop();
    assert q.heap == [0];
    next := q.Min();
  }

  /**
   * push_update: pushing a key that is already queued stores the new
   * priority but does not move the key, so the root is no longer the
   * minimum.
   */
  method PushQueued() returns (root: Option<nat>, rootPriority: Option<int>, lowered: Option<int>)
    ensures root == Some(0) && rootPriority == Some(1) && lowered == Some(0)
  {
    var q := TwoKeys(1, 2);
    var _ := q.Push(1, 0);
    root := q.Min();
    rootPriority := q.GetPriority(0);
    lowered := q.GetPriority(1);
  }

  /** remove_one (b = 0): push b with Reverse(21); remove b returns Reverse(21) and empties the queue. */
  method RemoveOne() returns (removed: int, len: nat)
    ensures removed == -21 && len == 0
  {
    var q := OneKey(-21);
    removed := q.Remove(0);
    len := |q.heap|;
  }

  /**
   * The default-valued store: an absent key reads as the default, yet the
   * first insert for it reports that nothing was stored.
   */
  method DefaultThenInsert() returns (read: Option<int>, prev: Option<int>, after: Option<int>)
    ensures read == Some(7) && prev == None && after == Some(3)
  {
    var d := new DefaultMap.DefaultMap<nat, int>(7, map[]);
    var store := DefaultStore(d);
    read := store.Get(5);
    prev := store.Insert(5, 3);
    after := store.Get(5);
  }

  /**
   * A DefaultMapIPQ whose priority store reads absent keys as 7: pushing
   * key 0 with the default value itself stores an entry, so remove finds
   * it and returns 7.
   */
  method DefaultPushRemove() returns (removed: int, len: nat)
    ensures removed == 7 && len == 0
  {
    var d := new DefaultMap.DefaultMap<nat, int>(7, map[]);
    var pos := new HashMap.IndexedHashMap<nat, nat>(map[]);
    var q := new IndexedPriorityQueue(DefaultStore(d), HashStore(pos));
    var _ := q.Push(0, 7);
    removed := q.Remove(0);
    len := |q.heap|;
  }
}
