/**
 * The key sequence of the indexed priority queue, seen as a value.
 *
 * The queue keeps its keys in a vector laid out as an implicit binary tree:
 * the children of slot i are 2i+1 and 2i+2 and its parent is (i-1)/2.  This
 * module describes, as functions on sequences, what the queue's private
 * repair loops (up_heap, down_heap) and the vector's swap / swap_remove do to
 * that sequence, and proves the ordering and permutation facts the queue
 * relies on.  A priority assignment is a function from keys to integers.
 */
module HeapOrder {

  /** Slot of the parent of slot i (i > 0), rounding down as usize division does. */
  function Parent(i: nat): (p: nat)
    requires i > 0
    ensures p < i && (i == 2 * p + 1 || i == 2 * p + 2)
  {
    (i - 1) / 2
  }

  /** Slot of the left child of slot n: a slot whose parent is n. */
  function LeftChild(n: nat): (c: nat)
    ensures c > 0 && Parent(c) == n
  {
    2 * n + 1
  }

  /** Slot of the right child of slot n: the other slot whose parent is n. */
  function RightChild(n: nat): (c: nat)
    ensures c > 0 && Parent(c) == n && c == LeftChild(n) + 1
  {
    2 * n + 2
  }

  /** The edge between slot i and its parent respects the priorities. */
  ghost predicate EdgeOrdered(h: seq<nat>, prio: nat -> int, i: nat)
    requires 0 < i < |h|
  {
    prio(h[Parent(i)]) <= prio(h[i])
  }

  /** Heap order: no key has a smaller priority than its parent. */
  ghost predicate HeapOrdered(h: seq<nat>, prio: nat -> int)
  {
    forall i :: 0 < i < |h| ==> EdgeOrdered(h, prio, i)
  }

  /**
   * What up_heap expects at slot n: every edge is ordered except possibly
   * the one above n, and n's parent is no larger than n's children.
   */
  ghost predicate UpHeapReady(h: seq<nat>, prio: nat -> int, n: nat)
  {
    && n < |h|
    && (forall i :: 0 < i < |h| && i != n ==> EdgeOrdered(h, prio, i))
    && (n > 0 ==> forall i :: 0 < i < |h| && Parent(i) == n ==> prio(h[Parent(n)]) <= prio(h[i]))
  }

  /**
   * What down_heap expects at slot n: every edge is ordered except possibly
   * those below n, and n's parent is no larger than n's children.
   */
  ghost predicate DownHeapReady(h: seq<nat>, prio: nat -> int, n: nat)
  {
    && (forall i :: 0 < i < |h| && Parent(i) != n ==> EdgeOrdered(h, prio, i))
    && (0 < n < |h| ==> forall i :: 0 < i < |h| && Parent(i) == n ==> prio(h[Parent(n)]) <= prio(h[i]))
  }

  /** Vec::swap(i, j). */
  function SwapAt(h: seq<nat>, i: nat, j: nat): (r: seq<nat>)
    requires i < |h| && j < |h|
    ensures |r| == |h| && r[i] == h[j] && r[j] == h[i]
    ensures forall k :: 0 <= k < |h| && k != i && k != j ==> r[k] == h[k]
    ensures multiset(r) == multiset(h)
  {
    h[i := h[j]][j := h[i]]
  }

  /** Vec::swap_remove(p): the last key takes slot p and the vector shrinks by one. */
  function SwapRemove(h: seq<nat>, p: nat): (r: seq<nat>)
    requires p < |h|
    ensures |r| == |h| - 1
    ensures p < |r| ==> r[p] == h[|h| - 1]
    ensures forall k :: 0 <= k < |r| && k != p ==> r[k] == h[k]
  {
    var last := |h| - 1;
    h[p := h[last]][..last]
  }

  /**
   * up_heap as a function: while n has a parent with a strictly greater
   * priority, swap the two and continue from the parent.
   */
  function SiftUp(h: seq<nat>, prio: nat -> int, n: nat): (r: seq<nat>)
    requires n < |h|
    ensures |r| == |h|
    decreases n
  {
    if n == 0 then h
    else if prio(h[Parent(n)]) > prio(h[n]) then SiftUp(SwapAt(h, Parent(n), n), prio, Parent(n))
    else h
  }

  /** The child down_heap picks at slot n: the left one unless the right one is strictly smaller. */
  function SmallerChild(h: seq<nat>, prio: nat -> int, n: nat): (c: nat)
    requires LeftChild(n) < |h|
    ensures c == LeftChild(n) || (c == RightChild(n) && c < |h|)
    ensures c == RightChild(n) ==> prio(h[RightChild(n)]) < prio(h[LeftChild(n)])
    ensures forall i :: 0 < i < |h| && Parent(i) == n ==> prio(h[c]) <= prio(h[i])
  {
    if RightChild(n) < |h| && prio(h[LeftChild(n)]) > prio(h[RightChild(n)]) then RightChild(n)
    else LeftChild(n)
  }

  /**
   * down_heap as a function: while n has a child, swap n with its smaller
   * child (ties go left) if that child is strictly smaller, and continue there.
   */
  function SiftDown(h: seq<nat>, prio: nat -> int, n: nat): (r: seq<nat>)
    ensures |r| == |h|
    decreases |h| - n
  {
    if LeftChild(n) >= |h| then h
    else
      var c := SmallerChild(h, prio, n);
      if prio(h[c]) < prio(h[n]) then SiftDown(SwapAt(h, c, n), prio, c) else h
  }

  /** remove_index on the key sequence: swap_remove slot p, then down_heap from p. */
  function RemoveAt(h: seq<nat>, prio: nat -> int, p: nat): (r: seq<nat>)
    requires p < |h|
    ensures |r| == |h| - 1
  {
    SiftDown(SwapRemove(h, p), prio, p)
  }

  /** The condition under which swap_remove at p cannot break the edge above p. */
  ghost predicate MovedFits(h: seq<nat>, prio: nat -> int, p: nat)
    requires p < |h|
  {
    p == 0 || p == |h| - 1 || prio(h[Parent(p)]) <= prio(h[|h| - 1])
  }

  // ---------------------------------------------------------------------
  // Ordering lemmas
  // ---------------------------------------------------------------------

  /** swap_remove takes exactly the key at p out. */
  lemma SwapRemovePermutes(h: seq<nat>, p: nat)
    requires p < |h|
    ensures multiset(SwapRemove(h, p)) == multiset(h) - multiset{h[p]}
  {
    assert SwapAt(h, p, |h| - 1) == SwapRemove(h, p) + [h[p]];
  }

  /** up_heap only rearranges the keys. */
  lemma {:induction false} SiftUpPermutes(h: seq<nat>, prio: nat -> int, n: nat)
    requires n < |h|
    ensures multiset(SiftUp(h, prio, n)) == multiset(h)
    decreases n
  {
    if n > 0 && prio(h[Parent(n)]) > prio(h[n]) {
      SiftUpPermutes(SwapAt(h, Parent(n), n), prio, Parent(n));
    }
  }

  /** down_heap only rearranges the keys. */
  lemma {:induction false} SiftDownPermutes(h: seq<nat>, prio: nat -> int, n: nat)
    ensures multiset(SiftDown(h, prio, n)) == multiset(h)
    decreases |h| - n
  {
    if LeftChild(n) < |h| {
      var c := SmallerChild(h, prio, n);
      if prio(h[c]) < prio(h[n]) {
        SiftDownPermutes(SwapAt(h, c, n), prio, c);
      }
    }
  }

  /** remove_index on the key sequence takes exactly the key at p out. */
  lemma RemoveAtPermutes(h: seq<nat>, prio: nat -> int, p: nat)
    requires p < |h|
    ensures multiset(RemoveAt(h, prio, p)) == multiset(h) - multiset{h[p]}
  {
    SwapRemovePermutes(h, p);
    SiftDownPermutes(SwapRemove(h, p), prio, p);
  }

  /** In a heap-ordered sequence slot 0 holds a minimum priority. */
  lemma {:induction false} RootIsMinimum(h: seq<nat>, prio: nat -> int, i: nat)
    requires HeapOrdered(h, prio) && i < |h|
    ensures prio(h[0]) <= prio(h[i])
    decreases i
  {
    if i > 0 {
      RootIsMinimum(h, prio, Parent(i));
      assert EdgeOrdered(h, prio, i);
    }
  }

  /** One step of up_heap keeps the loop's precondition, one level higher. */
  lemma UpHeapStep(h: seq<nat>, prio: nat -> int, n: nat)
    requires UpHeapReady(h, prio, n) && n > 0 && prio(h[Parent(n)]) > prio(h[n])
    ensures UpHeapReady(SwapAt(h, Parent(n), n), prio, Parent(n))
  {
    var p := Parent(n);
    var h' := SwapAt(h, p, n);
    forall i | 0 < i < |h'| && i != p
      ensures EdgeOrdered(h', prio, i)
    {
      if i == n {
      } else if Parent(i) == n {
      } else if Parent(i) == p {
        assert EdgeOrdered(h, prio, i);
      } else {
        assert EdgeOrdered(h, prio, i);
      }
    }
    if p > 0 {
      forall i | 0 < i < |h'| && Parent(i) == p
        ensures prio(h'[Parent(p)]) <= prio(h'[i])
      {
        assert EdgeOrdered(h, prio, p);
        if i != n {
          assert EdgeOrdered(h, prio, i);
        }
      }
    }
  }

  /** up_heap turns a sequence that is ordered except above n into a heap. */
  lemma {:induction false} SiftUpOrders(h: seq<nat>, prio: nat -> int, n: nat)
    requires UpHeapReady(h, prio, n)
    ensures HeapOrdered(SiftUp(h, prio, n), prio)
    decreases n
  {
    if n > 0 && prio(h[Parent(n)]) > prio(h[n]) {
      UpHeapStep(h, prio, n);
      SiftUpOrders(SwapAt(h, Parent(n), n), prio, Parent(n));
    } else {
      forall i | 0 < i < |h| ensures EdgeOrdered(h, prio, i) {
        if i == n {}
      }
    }
  }

  /** One step of down_heap keeps the loop's precondition, one level lower. */
  lemma DownHeapStep(h: seq<nat>, prio: nat -> int, n: nat, c: nat)
    requires DownHeapReady(h, prio, n) && LeftChild(n) < |h|
    requires c == SmallerChild(h, prio, n) && prio(h[c]) < prio(h[n])
    ensures DownHeapReady(SwapAt(h, c, n), prio, c)
  {
    var h' := SwapAt(h, c, n);
    assert Parent(c) == n;
    forall i | 0 < i < |h'| && Parent(i) != c
      ensures EdgeOrdered(h', prio, i)
    {
      if i == c {
      } else if Parent(i) == n {
      } else if i == n {
      } else {
        assert EdgeOrdered(h, prio, i);
      }
    }
    forall i | 0 < i < |h'| && Parent(i) == c
      ensures prio(h'[Parent(c)]) <= prio(h'[i])
    {
      assert EdgeOrdered(h, prio, i);
    }
  }

  /** down_heap turns a sequence that is ordered except below n into a heap. */
  lemma {:induction false} SiftDownOrders(h: seq<nat>, prio: nat -> int, n: nat)
    requires DownHeapReady(h, prio, n)
    ensures HeapOrdered(SiftDown(h, prio, n), prio)
    decreases |h| - n
  {
    if LeftChild(n) < |h| {
      var c := SmallerChild(h, prio, n);
      if prio(h[c]) < prio(h[n]) {
        DownHeapStep(h, prio, n, c);
        SiftDownOrders(SwapAt(h, c, n), prio, c);
      } else {
        forall i | 0 < i < |h| ensures EdgeOrdered(h, prio, i) {}
      }
    } else {
      forall i | 0 < i < |h| ensures EdgeOrdered(h, prio, i) {
        assert Parent(i) != n;
      }
    }
  }

  /** down_heap from n never touches the slots before n. */
  lemma {:induction false} SiftDownKeepsPrefix(h: seq<nat>, prio: nat -> int, n: nat, j: nat)
    requires j < n && j < |h|
    ensures SiftDown(h, prio, n)[j] == h[j]
    decreases |h| - n
  {
    if LeftChild(n) < |h| {
      var c := SmallerChild(h, prio, n);
      if prio(h[c]) < prio(h[n]) {
        SiftDownKeepsPrefix(SwapAt(h, c, n), prio, c, j);
      }
    }
  }

  /** After down_heap from n, slot n holds a priority no larger than before. */
  lemma SiftDownStartNoLarger(h: seq<nat>, prio: nat -> int, n: nat)
    requires n < |h|
    ensures prio(SiftDown(h, prio, n)[n]) <= prio(h[n])
  {
    if LeftChild(n) < |h| {
      var c := SmallerChild(h, prio, n);
      if prio(h[c]) < prio(h[n]) {
        SiftDownKeepsPrefix(SwapAt(h, c, n), prio, c, n);
      }
    }
  }

  /** Appending a key to a heap leaves it ready for up_heap at the new slot. */
  lemma AppendReady(h: seq<nat>, prio: nat -> int, k: nat)
    requires HeapOrdered(h, prio)
    ensures UpHeapReady(h + [k], prio, |h|)
  {
    var h' := h + [k];
    forall i | 0 < i < |h'| && i != |h|
      ensures EdgeOrdered(h', prio, i)
    {
      assert EdgeOrdered(h, prio, i);
    }
  }

  /** swap_remove at p leaves a heap ready for down_heap at p when the moved key fits under p's parent. */
  lemma SwapRemoveReady(h: seq<nat>, prio: nat -> int, p: nat)
    requires HeapOrdered(h, prio) && p < |h| && MovedFits(h, prio, p)
    ensures DownHeapReady(SwapRemove(h, p), prio, p)
  {
    var h' := SwapRemove(h, p);
    forall i | 0 < i < |h'| && Parent(i) != p
      ensures EdgeOrdered(h', prio, i)
    {
      if i == p {
      } else {
        assert EdgeOrdered(h, prio, i);
      }
    }
    if 0 < p < |h'| {
      forall i | 0 < i < |h'| && Parent(i) == p
        ensures prio(h'[Parent(p)]) <= prio(h'[i])
      {
        assert EdgeOrdered(h, prio, i);
        assert EdgeOrdered(h, prio, p);
      }
    }
  }

  /**
   * remove_index keeps heap order exactly when the key moved into the
   * vacated slot is no smaller than that slot's parent.
   */
  lemma RemoveAtOrderedIff(h: seq<nat>, prio: nat -> int, p: nat)
    requires HeapOrdered(h, prio) && p < |h|
    ensures HeapOrdered(RemoveAt(h, prio, p), prio) <==> MovedFits(h, prio, p)
  {
    var h' := SwapRemove(h, p);
    if MovedFits(h, prio, p) {
      SwapRemoveReady(h, prio, p);
      SiftDownOrders(h', prio, p);
    } else {
      var r := RemoveAt(h, prio, p);
      SiftDownStartNoLarger(h', prio, p);
      SiftDownKeepsPrefix(h', prio, p, Parent(p));
      assert !EdgeOrdered(r, prio, p);
    }
  }

  /** Raising the priority of the key at slot n of a heap leaves it ready for down_heap at n. */
  lemma RaiseReady(h: seq<nat>, before: nat -> int, after: nat -> int, n: nat)
    requires HeapOrdered(h, before) && n < |h|
    requires forall i :: 0 <= i < |h| && i != n ==> after(h[i]) == before(h[i])
    requires after(h[n]) >= before(h[n])
    ensures DownHeapReady(h, after, n)
  {
    forall i | 0 < i < |h| && Parent(i) != n
      ensures EdgeOrdered(h, after, i)
    {
      assert EdgeOrdered(h, before, i);
    }
    if 0 < n {
      forall i | 0 < i < |h| && Parent(i) == n
        ensures after(h[Parent(n)]) <= after(h[i])
      {
        assert EdgeOrdered(h, before, i);
        assert EdgeOrdered(h, before, n);
      }
    }
  }

  /** Lowering the priority of the key at slot n of a heap leaves it ready for up_heap at n. */
  lemma LowerReady(h: seq<nat>, before: nat -> int, after: nat -> int, n: nat)
    requires HeapOrdered(h, before) && n < |h|
    requires forall i :: 0 <= i < |h| && i != n ==> after(h[i]) == before(h[i])
    requires after(h[n]) <= before(h[n])
    ensures UpHeapReady(h, after, n)
  {
    forall i | 0 < i < |h| && i != n
      ensures EdgeOrdered(h, after, i)
    {
      assert EdgeOrdered(h, before, i);
    }
    if 0 < n {
      forall i | 0 < i < |h| && Parent(i) == n
        ensures after(h[Parent(n)]) <= after(h[i])
      {
        assert EdgeOrdered(h, before, i);
        assert EdgeOrdered(h, before, n);
      }
    }
  }

  /** Heap order depends only on the priorities of the keys in the sequence. */
  lemma OrderedFrame(h: seq<nat>, f: nat -> int, g: nat -> int)
    requires forall i :: 0 <= i < |h| ==> f(h[i]) == g(h[i])
    ensures HeapOrdered(h, f) <==> HeapOrdered(h, g)
  {
    if HeapOrdered(h, f) {
      forall i | 0 < i < |h| ensures EdgeOrdered(h, g, i) { assert EdgeOrdered(h, f, i); }
    }
    if HeapOrdered(h, g) {
      forall i | 0 < i < |h| ensures EdgeOrdered(h, f, i) { assert EdgeOrdered(h, g, i); }
    }
  }

  /**
   * pop on the key sequence of an ordered heap: the key taken from slot 0
   * has a minimum priority, and what remains is ordered again.
   */
  lemma PopOrders(h: seq<nat>, prio: nat -> int)
    requires HeapOrdered(h, prio) && |h| > 0
    ensures forall i :: 0 <= i < |h| ==> prio(h[0]) <= prio(h[i])
    ensures HeapOrdered(RemoveAt(h, prio, 0), prio)
  {
    RootIsMinimumEverywhere(h, prio);
    SwapRemoveReady(h, prio, 0);
    SiftDownOrders(SwapRemove(h, 0), prio, 0);
  }

  /** In a heap-ordered sequence slot 0 holds a minimum priority, for every slot at once. */
  lemma RootIsMinimumEverywhere(h: seq<nat>, prio: nat -> int)
    ensures HeapOrdered(h, prio) && |h| > 0 ==> forall i :: 0 <= i < |h| ==> prio(h[0]) <= prio(h[i])
  {
    if HeapOrdered(h, prio) && |h| > 0 {
      forall i | 0 <= i < |h| ensures prio(h[0]) <= prio(h[i]) {
        RootIsMinimum(h, prio, i);
      }
    }
  }

  /** The assignment `prio` except that key x is given priority v. */
  function Override(prio: nat -> int, x: nat, v: int): (r: nat -> int)
    ensures r(x) == v && forall k :: k != x ==> r(k) == prio(k)
  {
    (k: nat) => if k == x then v else prio(k)
  }

  /**
   * remove_index does not always repair the heap.  With each key its own
   * priority, removing slot 3 from the ordered heap h = [1,10,2,11,12,3,4]
   * moves the last key, 4, under 10, and down_heap cannot move it up.
   */
  lemma RemoveAtCounterexample(h: seq<nat>, prio: nat -> int)
    requires h == [1, 10, 2, 11, 12, 3, 4]
    requires forall k :: prio(k) == k
    ensures HeapOrdered(h, prio)
    ensures RemoveAt(h, prio, 3) == [1, 10, 2, 4, 12, 3]
    ensures !HeapOrdered(RemoveAt(h, prio, 3), prio)
  {
    forall i | 0 < i < |h| ensures EdgeOrdered(h, prio, i) {}
    var r := SwapRemove(h, 3);
    assert r == [1, 10, 2, 4, 12, 3];
    assert LeftChild(3) >= |r|;
    assert Parent(3) == 1 && prio(r[1]) == 10 && prio(r[3]) == 4;
    assert !EdgeOrdered(r, prio, 3);
  }
}
