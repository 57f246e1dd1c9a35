# Indexed priority queue

This project models the Rust crate `indexed_priority_queue` in Dafny. The crate is an
indexed binary min-heap. Keys sit in a vector laid out as an implicit binary tree: the
children of slot i are 2i+1 and 2i+2, and its parent is (i-1)/2. Two stores are kept
beside the vector:

- the *priority store* maps a key to its priority;
- the *position store* maps a key to its heap slot.

Together they let a caller look up, change or remove a key's priority by key.

The model has these modules:

- `Wrappers`: Rust's `Option`.
- `ArrayMap`, `DefaultMap`, `HashMap`: the store adapters, as Dafny classes.
  - `ArrayPriorityMap` and `ArrayPositionMap` sit over a fixed `array` whose key domain is
    `offset .. offset + length - 1`.
  - `DefaultMap` is a `map` that reads absent keys as a default.
  - `IndexedHashMap` is a plain `map`.
- `Indexed`: the `Indexed` store contract as the datatype `Store<V>`. It holds one of the four
  adapters and dispatches `get`, `get_mut`, `insert`, `remove` and `clear` to it. It also
  holds the derived `contains`, `index` and `index_mut`.
  - `Get(k)` is what the contract's `get` returns.
  - `Entry(k)` is what is actually stored, which `insert` and `remove` hand back. The two
    differ only for the default-valued map.
- `HeapOrder`: the key vector as a value.
  - `SwapAt` models `Vec::swap`, `SwapRemove` models `Vec::swap_remove`, and `SiftUp` and
    `SiftDown` model the repair loops. `RemoveAt` is swap_remove followed by down_heap.
  - The heap-order predicate comes with lemmas about ordering and permutation.
- `PriorityQueue`: the class `IndexedPriorityQueue`, with the fields `heap: seq<nat>`,
  `priorities: Store<int>` and `positions: Store<nat>`.
  - Each operation of the crate's queue except `len`, `is_empty` and `with_capacity` is a method
    or function here; so are the private helpers `swap`, `compare`, `up_heap` and `down_heap`.
    `up_heap` and `down_heap` are `while` loops, proved to compute `SiftUp` and `SiftDown`.
  - `Valid()` is the structural invariant: every slot's key has that slot as its position,
    every stored position points back at its key, and every queued key has a priority. Every
    operation keeps it, except `clear_indices` and `clear` over a slot-array position store. That
    store ignores `clear`, so on a non-empty queue stale positions survive and the invariant is
    lost; both methods' contracts say exactly when.
  - Heap order (`Ordered()`) is stated per operation, because the code itself can break it:
    - `push` on a key that is already queued stores the new priority but does not move the key;
    - `remove_index` only moves the key from the last slot downwards.
- `Scenarios`: concrete client runs. Most follow a test in the crate's test file; the others
  show the default-valued store and the setup of a hash-map queue.

Keys are `nat` (the crate's `usize` keys; the test suite's string keys are renamed 0, 1, …).
Priorities are `int`. A priority `Reverse(p)` from the tests is written as `-p`.

The test file and the code disagree in two places, and the model follows the code:

- `push_update` expects `push` to reorder a key that is already queued. `push` does not do
  this. `Scenarios.PushQueued` shows the root staying in place after a queued key's priority
  drops below the root's.
- `remove_empty` calls `remove_index` on an absent key. The code panics there on its
  `expect`, so `RemoveIndex` requires the key to be queued.

## Model

| member | source | states |
|---|---|---|
| ArrayMap.ArrayPriorityMap.constructor | src/array_map.rs:84-88 | the store wraps the given values at the given offset in a new buffer |
| ArrayMap.ArrayPriorityMap.Get | src/array_map.rs:14-19 | always Some: every key in the offset range counts as present |
| ArrayMap.ArrayPriorityMap.GetMut | src/array_map.rs:21-26 | always Some, the slot's value; the buffer is unchanged |
| ArrayMap.ArrayPriorityMap.Insert | src/array_map.rs:28-35 | returns Some(old value); the buffer equals the old one with only slot k - offset replaced |
| ArrayMap.ArrayPriorityMap.Remove | src/array_map.rs:37-42 | returns Some(copy of the value) and leaves the buffer as it was |
| ArrayMap.ArrayPriorityMap.Clear | src/array_map.rs:44 | changes nothing |
| ArrayMap.ArrayPositionMap.constructor | src/array_map.rs:90-94 | the store wraps the given slots at the given offset in a new buffer |
| ArrayMap.ArrayPositionMap.Get | src/array_map.rs:51-56 | None exactly for an empty slot, otherwise the slot's value |
| ArrayMap.ArrayPositionMap.GetMut | src/array_map.rs:58-63 | what Get returns; the buffer is unchanged |
| ArrayMap.ArrayPositionMap.Insert | src/array_map.rs:65-72 | returns the slot's previous Option; only slot k - offset changes, to Some(v) |
| ArrayMap.ArrayPositionMap.Remove | src/array_map.rs:74-79 | returns the slot's previous Option; only slot k - offset changes, to None |
| ArrayMap.ArrayPositionMap.Clear | src/array_map.rs:81 | changes nothing, so stale slots survive |
| DefaultMap.DefaultMap.constructor | src/default_map.rs:38-42 | the store holds the given entries and default |
| DefaultMap.DefaultMap.Get | src/default_map.rs:17-19 | never None: the stored value, or the default for a key with no entry |
| DefaultMap.DefaultMap.GetMut | src/default_map.rs:21-23 | adds the default for an absent key and no other entry; returns Some(entry), which equals what Get read before |
| DefaultMap.DefaultMap.Insert | src/default_map.rs:25-27 | maps k to v; returns the previous entry, which is None for a key that was never materialised |
| DefaultMap.DefaultMap.Remove | src/default_map.rs:29-31 | deletes only k's entry and returns it |
| DefaultMap.DefaultMap.Clear | src/default_map.rs:33-35 | leaves no entries |
| HashMap.IndexedHashMap.constructor | src/hash_map.rs:41-45 | the store holds exactly the given entries |
| HashMap.IndexedHashMap.Get | src/hash_map.rs:12-14 | Some exactly when k has an entry, and then that entry's value |
| HashMap.IndexedHashMap.GetMut | src/hash_map.rs:16-18 | what Get returns; it never inserts |
| HashMap.IndexedHashMap.Insert | src/hash_map.rs:20-22 | maps k to v, keeps the other keys, and returns the previous value |
| HashMap.IndexedHashMap.Remove | src/hash_map.rs:24-26 | deletes only k and returns its previous value |
| HashMap.IndexedHashMap.Clear | src/hash_map.rs:28-30 | leaves the map empty |
| Indexed.Store.Get | src/indexed.rs:5 | always Some for the array priority store and the default-valued map; for the slot array exactly when k's slot is filled, for the hash map exactly when k has an entry |
| Indexed.Store.Contains | src/indexed.rs:11-13 | true exactly when get is Some; always true for the array priority store and the default-valued map; for the others, exactly when a slot or entry exists |
| Indexed.Store.Index | src/indexed.rs:15-17 | requires get to be Some and returns its value |
| Indexed.Store.Values | src/indexed.rs:5 | a total function that agrees with get on every key get reports |
| Indexed.Store.GetMut | src/indexed.rs:6 | returns what get returned and changes no get result; only the default-valued map materialises an entry, for k alone |
| Indexed.Store.Insert | src/indexed.rs:7 | returns the previous stored entry; k then holds v; no other key changes |
| Indexed.Store.Remove | src/indexed.rs:8 | returns the previous stored entry; deletes it except in the array priority store; afterwards get is None for the slot and hash stores and the default for the default-valued map; no other key changes |
| Indexed.Store.Clear | src/indexed.rs:9 | every entry is gone, except that both array stores change nothing |
| Indexed.Store.IndexMut | src/indexed.rs:19-21 | requires get_mut to be Some; writing through it leaves k holding v and no other key changed |
| HeapOrder.Parent | src/lib.rs:189-191 | the parent of slot i > 0 is a smaller slot whose left or right child is i |
| HeapOrder.LeftChild | src/lib.rs:194-197 | a slot after the root whose parent is n |
| HeapOrder.RightChild | src/lib.rs:200-203 | the slot right after LeftChild(n), whose parent is also n |
| HeapOrder.SiftUp | src/lib.rs:220-231 | up_heap from n keeps the length; its meaning is carried by SiftUpOrders (it restores order) and SiftUpPermutes (it only rearranges) |
| HeapOrder.SiftDown | src/lib.rs:234-251 | down_heap from n keeps the length; its meaning is carried by SiftDownOrders, SiftDownPermutes and SiftDownKeepsPrefix |
| HeapOrder.RemoveAt | src/lib.rs:129-133 | swap_remove at p then down_heap from p is one slot shorter; its meaning is carried by RemoveAtPermutes and RemoveAtOrderedIff |
| HeapOrder.SwapAt | src/lib.rs:209 | the two slots are exchanged, every other slot is kept, and the multiset of keys is unchanged |
| HeapOrder.SwapRemove | src/lib.rs:129 | one slot shorter; the last key moves into slot p and every other slot is kept |
| HeapOrder.SmallerChild | src/lib.rs:236-242 | the left child, or an existing right child only when it is strictly smaller than the left (ties go left); its priority is no larger than any child's |
| HeapOrder.SwapRemovePermutes | src/lib.rs:129 | swap_remove takes out exactly the key at p |
| HeapOrder.SiftUpPermutes | src/lib.rs:220-231 | up_heap only rearranges the keys |
| HeapOrder.SiftDownPermutes | src/lib.rs:234-251 | down_heap only rearranges the keys |
| HeapOrder.RemoveAtPermutes | src/lib.rs:124-134 | remove_index on the key vector takes out exactly the key at p |
| HeapOrder.RootIsMinimum | src/lib.rs:158-163 | in a heap-ordered vector no slot has a smaller priority than slot 0 |
| HeapOrder.RootIsMinimumEverywhere | src/lib.rs:158-163 | the same, for all slots at once |
| HeapOrder.UpHeapStep | src/lib.rs:224-226 | one swap with a strictly larger parent moves up_heap's precondition one level up |
| HeapOrder.SiftUpOrders | src/lib.rs:220-231 | a vector that is ordered except above slot n is a heap after up_heap from n |
| HeapOrder.DownHeapStep | src/lib.rs:244-246 | one swap with a strictly smaller smaller-child moves down_heap's precondition one level down |
| HeapOrder.SiftDownOrders | src/lib.rs:234-251 | a vector that is ordered except below slot n is a heap after down_heap from n |
| HeapOrder.SiftDownKeepsPrefix | src/lib.rs:234-251 | down_heap from n never changes a slot before n |
| HeapOrder.SiftDownStartNoLarger | src/lib.rs:234-251 | after down_heap from n, slot n's priority is no larger than before |
| HeapOrder.AppendReady | src/lib.rs:103-106 | appending a key to a heap meets up_heap's precondition at the new slot |
| HeapOrder.SwapRemoveReady | src/lib.rs:129-132 | swap_remove at p meets down_heap's precondition when the moved key is no smaller than p's parent |
| HeapOrder.RemoveAtOrderedIff | src/lib.rs:124-134 | for an ordered vector, remove_index leaves it ordered if and only if the moved key is no smaller than p's new parent |
| HeapOrder.RemoveAtCounterexample | src/lib.rs:129-133 | the ordered heap [1,10,2,11,12,3,4] with each key its own priority becomes [1,10,2,4,12,3] after removing slot 3, and that is not heap-ordered |
| HeapOrder.RaiseReady | src/lib.rs:331-335 | raising the priority at slot n of a heap meets down_heap's precondition at n |
| HeapOrder.LowerReady | src/lib.rs:345-349 | lowering the priority at slot n of a heap meets up_heap's precondition at n |
| HeapOrder.OrderedFrame | src/lib.rs:23-35 | heap order depends only on the priorities of the queued keys |
| HeapOrder.PopOrders | src/lib.rs:168-186 | popping an ordered vector takes out a minimum-priority key and leaves the rest ordered |
| PriorityQueue.Cmp | src/lib.rs:213-217 | Less exactly when a < b, Greater exactly when a > b |
| PriorityQueue.IndexedPriorityQueue.constructor | src/lib.rs:44-59 | an empty queue over the given stores, valid and ordered |
| PriorityQueue.IndexedPriorityQueue.KeysInjective | src/lib.rs:23-35 | under the invariant no key occupies two slots |
| PriorityQueue.IndexedPriorityQueue.AppendedValid | src/lib.rs:103-105 | appending an unqueued key and recording its slot restores the invariant |
| PriorityQueue.IndexedPriorityQueue.SwapRemovedValid | src/lib.rs:129-131 | removing a slot's key and position and re-pointing the moved key restores the invariant, and the removed key is gone |
| PriorityQueue.IndexedPriorityQueue.SwappedValid | src/lib.rs:206-210 | exchanging two slots and their keys' positions restores the invariant |
| PriorityQueue.IndexedPriorityQueue.PriorityWritten | src/lib.rs:153 | writing one key's priority keeps the invariant and the other queued keys' priorities, and keeps heap order when that key is not queued |
| PriorityQueue.IndexedPriorityQueue.PrioFrame | src/lib.rs:206-251 | frame helper: swap, up_heap and down_heap never write the priority store, so the priority function they compare under stays the same |
| PriorityQueue.IndexedPriorityQueue.Contains | src/lib.rs:78-80 | under the invariant, true exactly when the key is in the heap |
| PriorityQueue.IndexedPriorityQueue.Min | src/lib.rs:161-163 | None exactly for an empty heap, otherwise slot 0's key, whose priority is the smallest in an ordered queue |
| PriorityQueue.IndexedPriorityQueue.MinPriority | src/lib.rs:85-89 | None exactly for an empty heap, otherwise slot 0's priority, the smallest in an ordered queue |
| PriorityQueue.IndexedPriorityQueue.GetPriority | src/lib.rs:94-96 | whatever the priority store reports, whether or not the key is queued: a queued key's priority; always Some for the array and default-valued stores; for the hash store, Some exactly when an entry exists |
| PriorityQueue.IndexedPriorityQueue.Compare | src/lib.rs:213-217 | the Ord::cmp of the priorities in the two slots |
| PriorityQueue.IndexedPriorityQueue.Swap | src/lib.rs:206-210 | heap is the old heap with the two slots exchanged; the two keys now have each other's positions; the invariant and the priorities are kept |
| PriorityQueue.IndexedPriorityQueue.UpHeap | src/lib.rs:220-231 | the heap becomes SiftUp of the old heap from n; the same keys; invariant and priorities kept |
| PriorityQueue.IndexedPriorityQueue.DownHeap | src/lib.rs:234-251 | the heap becomes SiftDown of the old heap from n (ties go left); the same keys; invariant and priorities kept |
| PriorityQueue.IndexedPriorityQueue.RestoreIndex | src/lib.rs:101-108 | a queued key: nothing changes; otherwise the key is appended and sifted up by its stored priority; the key is then contained; the multiset grows by exactly that key; heap order is kept |
| PriorityQueue.IndexedPriorityQueue.Push | src/lib.rs:152-156 | returns the previous stored priority; k's stored entry and get_priority(k) are then the new value; no other key's entry or priority changes; a queued key stays where it is; an unqueued key is appended and sifted up, and heap order is then kept |
| PriorityQueue.IndexedPriorityQueue.TakeOut | src/lib.rs:124-131 | the heap is swap_remove at p; the removed key has no position; the invariant and priorities are kept |
| PriorityQueue.IndexedPriorityQueue.RemoveSlot | src/lib.rs:129-133 | the removal shared by pop and remove_index: returns old slot p's key, the heap becomes RemoveAt(old heap, p), that key loses its position and the multiset loses exactly it; the invariant and priorities are kept |
| PriorityQueue.IndexedPriorityQueue.Pop | src/lib.rs:168-186 | empty queue: None and nothing changes; otherwise returns old slot 0's key; the heap becomes RemoveAt(old heap, 0); the key is no longer contained; in an ordered queue its priority is minimal and order is kept |
| PriorityQueue.IndexedPriorityQueue.RemoveIndex | src/lib.rs:124-134 | requires a queued key; the heap becomes RemoveAt at its old slot; the key is no longer contained; the multiset loses exactly that key; its priority is retained; an ordered queue stays ordered exactly when the moved key fits under its new parent |
| PriorityQueue.IndexedPriorityQueue.Remove | src/lib.rs:115-118 | remove_index followed by priorities.remove; returns the stored priority, which must exist; the entry is deleted except in the array store; other keys' entries and priorities are unchanged |
| PriorityQueue.IndexedPriorityQueue.ClearIndices | src/lib.rs:143-146 | heap is empty and positions are cleared, except in the slot-array store; there stale positions survive, and the invariant is lost exactly when the queue was not empty |
| PriorityQueue.IndexedPriorityQueue.Clear | src/lib.rs:137-140 | clear_indices, then the priority store is cleared, which the array store ignores |
| PriorityQueue.IndexedPriorityQueue.BeginUpdate | src/lib.rs:273-280 | a handle on k that records k's current priority; the queue is ordered under the recorded priorities exactly when it is ordered now |
| PriorityQueue.IndexedPriorityQueue.Assign | src/lib.rs:314-316 | k's stored entry and priority become v (get_mut materialises the entry in the default-valued map) and no other key's entry or priority changes; the invariant is kept, and so is order under the recorded priorities |
| PriorityQueue.IndexedPriorityQueue.EndUpdateUp | src/lib.rs:331-336 | requires the new priority to be no smaller than the old; a queued key is sifted down from its slot, an unqueued key changes nothing; order under the old priorities becomes order under the new ones |
| PriorityQueue.IndexedPriorityQueue.EndUpdateDown | src/lib.rs:345-350 | requires the new priority to be no larger than the old; a queued key is sifted up from its slot, an unqueued key changes nothing; order under the old priorities becomes order under the new ones |
| PriorityQueue.IndexedPriorityQueue.EndUpdateDyn | src/lib.rs:359-367 | a queued key is sifted down if its priority grew and up if it shrank; nothing changes if the priority is equal or the key is unqueued; order under the old priorities becomes order under the new ones |
| PriorityQueue.IndexedPriorityQueue.UpdateUp | src/lib.rs:321 | raising k's priority through update_up leaves k's stored entry and priority at v, keeps every other key's entry and priority, and keeps the invariant, the keys and heap order; the heap is unchanged for an unqueued key and otherwise becomes SiftDown of the old heap from k's old slot |
| PriorityQueue.IndexedPriorityQueue.UpdateDown | src/lib.rs:322 | lowering k's priority through update_down leaves k's stored entry and priority at v, keeps every other key's entry and priority, and keeps the invariant, the keys and heap order; the heap is unchanged for an unqueued key and otherwise becomes SiftUp of the old heap from k's old slot |
| PriorityQueue.IndexedPriorityQueue.UpdateDyn | src/lib.rs:323 | changing k's priority through update_dyn leaves k's stored entry and priority at v, keeps every other key's entry and priority, and keeps the invariant, the keys and heap order; the heap is unchanged for an unqueued key or an equal priority, becomes SiftDown from k's old slot when the priority grew and SiftUp from it when it shrank |
| Scenarios.NewHashQueue | src/lib.rs:13-14 | a fresh HashMapIPQ over two empty hash stores is valid, ordered and empty |
| Scenarios.OneKey | tests/priority_queue.rs:163-170 | after one push the heap is that key, holding its priority |
| Scenarios.TwoKeys | tests/priority_queue.rs:23-37 | after two pushes the key with the smaller priority is at the root |
| Scenarios.PushPop | tests/priority_queue.rs:23-37 | with a at Reverse(1) and b at Reverse(2), pop returns b and min is then a |
| Scenarios.PushQueued | tests/priority_queue.rs:51-55 | re-pushing a queued key below the root's priority keeps the old root as min, contrary to the test's expectation |
| Scenarios.RemoveOne | tests/priority_queue.rs:163-170 | remove on the only key returns its priority and empties the queue |
| Scenarios.DefaultPushRemove | src/lib.rs:115-118 | on a default-valued priority store, pushing a key with the default value stores an entry, so the following remove returns it and empties the queue |
| Scenarios.DefaultThenInsert | src/default_map.rs:17-27 | an absent key reads as the default, and the first insert for it still returns None |

## Left out

- `len` and `is_empty` are left out: they read `|heap|`, which the model's contracts use directly.
- `with_capacity`, `Default`, the `From` conversions and the `Debug` derives are left out. The capacity hint has no observable effect, and the constructors above stand in for the rest.
- The `Deref`/`DerefMut` plumbing of the update handles is left out. Lifetimes and borrows are left out too. An update handle is modelled as three explicit steps (`BeginUpdate`, `Assign`, `EndUpdate*`), and nothing forces a caller to end a handle.
- The `cfg(debug_assertions)` capture of `old_value` is left out. The model always records the old value, and it turns the debug assertions (array key range, direction of update_up and update_down) into requires clauses.
- Panics are left out as behaviour. Each `unwrap` and `expect` becomes a precondition: a queued key for `remove_index`, a stored entry for `remove`, and a present entry for `index` and `index_mut`.
- RestoreIndex: requires the key to have a priority stored. The crate runs no check there, and on an empty queue over a hash priority store it would queue a key without a priority (no comparison happens), after which `min_priority` returns None on a non-empty queue. The precondition follows the method's doc comment ("with its last associated value") and keeps `Valid()`, which demands a priority for every queued key.
- The scenarios mirror only part of the test suite: `push_pop` is shortened to two keys.
- `iter` and `iter_mut` of the hash store are left out. They are not part of the store contract, and hash iteration order is unspecified.
- `examples/dijkstra.rs` and `examples/vsids.rs` are not part of this model. The second one uses floating-point priorities.
- Generic key and priority types are left out. Keys are `nat` and priorities `int`, and `Reverse` is written as negation.
- HashMap hashing is left out: both map stores are Dafny `map`s.
- The default-valued map has one `fallback` value. It stands for both the default of `&V` that `get` returns (src/default_map.rs:18, bound at :12) and the `V::default()` that `get_mut` inserts (src/default_map.rs:22). The model assumes the two agree.
- `ArrayMap.ArrayPositionMap` is generic in its slot type, where the crate fixes `usize`.
- `PriorityQueue.IndexedPriorityQueue.constructor` requires some facts the crate leaves implicit:
  - the position store is a slot-array or hash store with no positions recorded;
  - the two stores do not share storage.
- `PriorityQueue.IndexedPriorityQueue.RemoveIndex` reads the key's position with `index` before the slot removal. The crate takes the position from the store's `remove`. The resulting state is the same.
- `PriorityQueue.IndexedPriorityQueue.Remove` does not state the multiset of the remaining keys in its own contract. It follows from `HeapOrder.RemoveAtPermutes` applied to the `RemoveAt` result the contract gives.
- `PriorityQueue.IndexedPriorityQueue.Push` promises heap order only when the key was not queued before. For a queued key it only promises that the heap is unchanged.
