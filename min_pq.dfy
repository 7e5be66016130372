/**
 * The indexed binary min-heap of min_pq_special.py: a bounded array `arr` of
 * item keys kept in heap order, plus the reverse index `keys` from an item's
 * key to its slot, which gives constant-time `contains` and logarithmic
 * `change_key`.  Items are integer keys in [0, capacity]; their priorities
 * live in an array owned by the caller (the shortest-path engine's distances),
 * which the caller may lower before asking the queue to restore its order.
 */
module MinPriorityQueue {
  import opened HeapIndex
  import opened HeapOrder
  import opened HeapKeys
  import opened Outcomes

  /** The priority of every key in `s` is strictly below that of its children. */
  ghost predicate StrictlyOrdered(s: seq<int>, d: seq<int>)
  {
    Prioritised(s, |s|, d) && forall i :: 0 < i < |s| ==> d[s[Parent(i)]] < d[s[i]]
  }

  /** In a strictly ordered sequence a child's priority is above its parent's. */
  lemma StrictChild(s: seq<int>, d: seq<int>, c: int)
    ensures StrictlyOrdered(s, d) && 0 < c < |s| ==> d[s[Parent(c)]] < d[s[c]]
  {
  }

  class MinPQ {
    const capacity: nat
    var numItems: nat
    const arr: array<int>
    const keys: array<int>
    /** The keys that the index marks present although they are not queued. */
    ghost var stale: set<int>

    /**
     * The queue invariant.  Occupied slots hold distinct keys in [0, capacity].
     * The index of a queued key is its slot or NONE (heapify leaves some keys
     * unindexed).  The index of a key that is not queued is NONE or 0: del_min
     * on a one-item queue leaves the removed key indexed at slot 0.
     */
    ghost predicate Valid()
      reads this, arr, keys
    {
      arr.Length == capacity && keys.Length == capacity + 1 && arr != keys &&
      numItems <= capacity && Indexing(arr[..], numItems, keys[..]) &&
      stale == StaleKeys(arr[..], numItems, keys[..])
    }

    /** The queued keys, slot by slot. */
    ghost function Items(): seq<int>
      reads this, arr
      requires numItems <= arr.Length
    {
      arr[..numItems]
    }

    /** Every queued key is indexed at its slot. */
    ghost predicate FullyIndexed()
      reads this, arr, keys
      requires Valid()
    {
      AllIndexed(arr[..], numItems, keys[..])
    }

    /** Heap order over the queued keys by the priorities `d`. */
    ghost predicate Ordered(d: seq<int>)
      reads this, arr
    {
      HeapOrdered(arr[..], numItems, d)
    }

    /** MinPQ(capacity): an empty queue with an empty index. */
    constructor (capacity: nat)
      ensures Valid() && FullyIndexed() && this.capacity == capacity
      ensures Items() == [] && stale == {}
      ensures fresh(arr) && fresh(keys)
    {
      this.capacity := capacity;
      numItems := 0;
      arr := new int[capacity];
      keys := new int[capacity + 1](_ => NONE);
      stale := {};
      new;
      EmptyIndex(arr[..], 0, keys[..]);
    }

    /**
     * MinPQ(arr=a): the queue takes over `a` (capacity == size == a.Length) and
     * heapifies it in place.  The index starts empty and heapify fills it only
     * partially: a key that stays in a leaf slot is never indexed.
     */
    constructor FromArray(a: array<int>, prio: array<int>)
      requires a != prio
      requires forall i :: 0 <= i < a.Length ==> 0 <= a[i] <= a.Length && a[i] < prio.Length
      requires forall i, j :: 0 <= i < j < a.Length ==> a[i] != a[j]
      modifies a
      ensures Valid() && arr == a && capacity == a.Length && numItems == a.Length
      ensures Ordered(prio[..]) && multiset(Items()) == multiset(old(a[..]))
      ensures stale == {} && fresh(keys)
      ensures StrictlyOrdered(old(a[..]), prio[..]) ==>
                arr[..] == old(a[..]) &&
                forall i :: Parent(a.Length - 1) < i < a.Length ==> keys[arr[i]] == NONE
    {
      arr := a;
      numItems := a.Length;
      capacity := a.Length;
      keys := new int[a.Length + 1](_ => NONE);
      stale := {};
      new;
      EmptyIndex(arr[..], numItems, keys[..]);
      assert Items() == arr[..];
      Heapify(prio);
    }

    /**
     * The corrected bulk constructor: index every slot first, then heapify, so
     * that every queued key is indexed.
     */
    constructor FromArrayIndexed(a: array<int>, prio: array<int>)
      requires a != prio
      requires forall i :: 0 <= i < a.Length ==> 0 <= a[i] <= a.Length && a[i] < prio.Length
      requires forall i, j :: 0 <= i < j < a.Length ==> a[i] != a[j]
      modifies a
      ensures Valid() && FullyIndexed() && arr == a && capacity == a.Length && numItems == a.Length
      ensures Ordered(prio[..]) && multiset(Items()) == multiset(old(a[..]))
      ensures stale == {} && fresh(keys)
    {
      arr := a;
      numItems := a.Length;
      capacity := a.Length;
      keys := new int[a.Length + 1](_ => NONE);
      stale := {};
      new;
      EmptyIndex(arr[..], numItems, keys[..]);
      assert Items() == arr[..];
      IndexAll();
      Heapify(prio);
    }

    /** Point the index of every queued key at its slot. */
    method IndexAll()
      requires Valid()
      modifies keys
      ensures Valid() && FullyIndexed()
    {
      var i := 0;
      while i < numItems
        invariant 0 <= i <= numItems && Valid()
        invariant forall j :: 0 <= j < i ==> keys[arr[j]] == j
      {
        IndexSlot(arr[..], numItems, keys[..], i);
        keys[arr[i]] := i;
        i := i + 1;
      }
    }

    /** Swap two occupied slots and re-index both keys (the body of every sift step). */
    method Exchange(i: int, j: int)
      requires Valid() && 0 <= i < numItems && 0 <= j < numItems && i != j
      modifies arr, keys
      ensures Valid() && arr[..] == Swap(old(arr[..]), i, j)
      ensures keys[..] == old(keys[..])[arr[i] := i][arr[j] := j]
      ensures multiset(Items()) == multiset(old(Items()))
      ensures old(FullyIndexed()) ==> FullyIndexed()
    {
      ghost var a := arr[..];
      ghost var ks := keys[..];
      arr[i], arr[j] := arr[j], arr[i];
      keys[arr[i]] := i;
      keys[arr[j]] := j;
      assert arr[..] == Swap(a, i, j);
      assert keys[..] == ks[a[j] := i][a[i] := j];
      SwapIndexing(a, numItems, ks, i, j);
      SwapPermutes(a, i, j, numItems);
      assert Items() == Swap(a, i, j)[..numItems];
    }

    /**
     * shift_up: starting from a sift-up state at idx, restore heap order.
     * Only slots on the path from idx to the root change.
     */
    method ShiftUp(idx: int, prio: array<int>)
      requires Valid() && prio != arr && prio != keys
      requires OrderedAbove(arr[..], numItems, prio[..], idx)
      modifies arr, keys
      ensures Valid() && Ordered(prio[..])
      ensures multiset(Items()) == multiset(old(Items()))
      ensures SameOffPath(old(arr[..]), arr[..], idx)
      ensures old(FullyIndexed()) ==> FullyIndexed()
    {
      var i := idx;
      var p := Parent(i);
      while i > 0 && prio[arr[i]] < prio[arr[p]]
        invariant Valid() && p == Parent(i) && Ancestor(i, idx)
        invariant OrderedAbove(arr[..], numItems, prio[..], i)
        invariant multiset(Items()) == multiset(old(Items()))
        invariant SameOffPath(old(arr[..]), arr[..], idx)
        invariant old(FullyIndexed()) ==> FullyIndexed()
        decreases i
      {
        SiftUpStep(arr[..], numItems, prio[..], i);
        AncestorParent(i, idx);
        SwapOnPath(old(arr[..]), arr[..], idx, i, p);
        Exchange(i, p);
        i := p;
        p := Parent(i);
      }
      SiftUpDone(arr[..], numItems, prio[..], i);
    }

    /**
     * shift_down: starting from a sift-down state at idx within slots
     * [0, end], establish heap order below idx.  Ties with the smaller child
     * are swapped.  Only slots in the subtree of idx change, and a queue
     * already strictly ordered is left exactly as it was.
     */
    method ShiftDown(idx: int, end: int, prio: array<int>)
      requires Valid() && prio != arr && prio != keys && -1 <= end < numItems
      requires OrderedBelow(arr[..], prio[..], idx, idx, end)
      modifies arr, keys
      ensures Valid() && OrderedFrom(arr[..], prio[..], idx, end)
      ensures multiset(Items()) == multiset(old(Items()))
      ensures SameOffSubtree(old(arr[..]), arr[..], idx)
      ensures old(FullyIndexed()) ==> FullyIndexed()
      ensures StrictlyOrdered(old(arr[..numItems]), prio[..]) ==>
                arr[..] == old(arr[..]) && keys[..] == old(keys[..])
    {
      var i := idx;
      while i < end
        invariant Valid() && idx <= i && Ancestor(idx, i)
        invariant OrderedBelow(arr[..], prio[..], idx, i, end)
        invariant multiset(Items()) == multiset(old(Items()))
        invariant SameOffSubtree(old(arr[..]), arr[..], idx)
        invariant old(FullyIndexed()) ==> FullyIndexed()
        invariant StrictlyOrdered(old(arr[..numItems]), prio[..]) ==>
                    i == idx && arr[..] == old(arr[..]) && keys[..] == old(keys[..])
        decreases end - i
      {
        var left := Left(i);
        var right := Right(i);
        var imin := IndexSmaller(arr[..], prio[..], left, right, end);
        if imin > end || prio[arr[i]] < prio[arr[imin]] {
          SiftDownDone(arr[..], prio[..], idx, i, end);
          return;
        }
        StrictChild(old(arr[..numItems]), prio[..], imin);
        SiftDownStep(arr[..], prio[..], idx, i, end, imin);
        AncestorChild(idx, i, imin);
        SwapInSubtree(old(arr[..]), arr[..], idx, i, imin);
        Exchange(i, imin);
        i := imin;
      }
      SiftDownDone(arr[..], prio[..], idx, i, end);
    }

    /**
     * heapify: sift down every non-leaf slot, last first, indexing each as it
     * goes.  On an array that is already strictly ordered nothing moves and
     * the keys in leaf slots keep their index entries.
     */
    method Heapify(prio: array<int>)
      requires Valid() && prio != arr && prio != keys
      requires Prioritised(arr[..], numItems, prio[..])
      modifies arr, keys
      ensures Valid() && Ordered(prio[..])
      ensures multiset(Items()) == multiset(old(Items()))
      ensures old(FullyIndexed()) ==> FullyIndexed()
      ensures StrictlyOrdered(old(arr[..numItems]), prio[..]) ==>
                arr[..] == old(arr[..]) &&
                forall i :: Parent(numItems - 1) < i < numItems ==> keys[arr[i]] == old(keys[arr[i]])
    {
      var end := numItems - 1;
      var idx := Parent(end);
      LeavesOrdered(arr[..], prio[..], end);
      ghost var strict := StrictlyOrdered(arr[..numItems], prio[..]);
      while idx >= 0
        invariant Valid() && -1 <= idx <= Parent(end)
        invariant OrderedFrom(arr[..], prio[..], idx + 1, end)
        invariant multiset(Items()) == multiset(old(Items()))
        invariant old(FullyIndexed()) ==> FullyIndexed()
        invariant strict ==> arr[..] == old(arr[..])
        invariant strict ==> EntriesKept(arr[..], Parent(end), numItems, old(keys[..]), keys[..])
      {
        IndexAndSiftDown(idx, end, prio, old(keys[..]));
        idx := idx - 1;
      }
    }

    /** One round of heapify: index the key in slot idx, then sift it down. */
    method IndexAndSiftDown(idx: int, end: int, prio: array<int>, ghost ks0: seq<int>)
      requires Valid() && prio != arr && prio != keys && end == numItems - 1
      requires 0 <= idx <= Parent(end) && OrderedFrom(arr[..], prio[..], idx + 1, end)
      modifies arr, keys
      ensures Valid() && OrderedFrom(arr[..], prio[..], idx, end)
      ensures multiset(Items()) == multiset(old(Items()))
      ensures old(FullyIndexed()) ==> FullyIndexed()
      ensures StrictlyOrdered(old(arr[..numItems]), prio[..]) && |ks0| == keys.Length &&
              EntriesKept(old(arr[..]), Parent(end), numItems, ks0, old(keys[..])) ==>
                arr[..] == old(arr[..]) && EntriesKept(arr[..], Parent(end), numItems, ks0, keys[..])
    {
      ghost var a, ks := arr[..], keys[..];
      IndexSlot(a, numItems, ks, idx);
      if |ks0| == |ks| && EntriesKept(a, Parent(end), numItems, ks0, ks) {
        IndexSlotKeeps(a, numItems, ks0, ks, idx, Parent(end));
      }
      StartSiftDown(a, prio[..], idx, end);
      keys[arr[idx]] := idx;
      assert arr[..] == a && keys[..] == ks[a[idx] := idx];
      ShiftDown(idx, end, prio);
    }

    /**
     * insert: append the key and sift it up; Full when the queue is full.  A
     * key past the index's last entry is written to the next free slot
     * before the index lookup fails with IndexOutOfRange, and the queue
     * stays as it was.
     */
    method Insert(x: int, prio: array<int>) returns (r: Outcome)
      requires Valid() && prio != arr && prio != keys && Ordered(prio[..])
      requires 0 <= x && (x <= capacity ==> x < prio.Length) && x !in Items()
      modifies this, arr, keys
      ensures Valid() && Ordered(prio[..])
      ensures r == Fail(Full) <==> old(numItems) == capacity
      ensures r == Fail(IndexOutOfRange) <==> old(numItems) < capacity && x > capacity
      ensures r.Fail? ==> r.error == Full || r.error == IndexOutOfRange
      ensures r.Fail? ==> numItems == old(numItems) && Items() == old(Items()) && keys[..] == old(keys[..])
      ensures r == Fail(Full) ==> arr[..] == old(arr[..])
      ensures r == Fail(IndexOutOfRange) ==> arr[..] == old(arr[..])[old(numItems) := x]
      ensures r.Pass? ==> numItems == old(numItems) + 1
      ensures r.Pass? ==> multiset(Items()) == multiset(old(Items())) + multiset{x}
      ensures r.Pass? ==> stale == old(stale) - {x}
      ensures old(FullyIndexed()) ==> FullyIndexed()
    {
      if numItems == capacity {
        return Fail(Full);
      }
      if x > capacity {
        ghost var a := arr[..];
        arr[numItems] := x;
        assert Items() == a[..numItems];
        return Fail(IndexOutOfRange);
      }
      Push(x, prio);
      r := Pass;
    }

    /** The body of insert once there is room: append x and sift it up. */
    method Push(x: int, prio: array<int>)
      requires Valid() && prio != arr && prio != keys && Ordered(prio[..])
      requires 0 <= x <= capacity && x < prio.Length && x !in Items() && numItems < capacity
      modifies this, arr, keys
      ensures Valid() && Ordered(prio[..]) && numItems == old(numItems) + 1
      ensures multiset(Items()) == multiset(old(Items())) + multiset{x}
      ensures stale == old(stale) - {x}
      ensures old(FullyIndexed()) ==> FullyIndexed()
    {
      ghost var a: seq<int>, ks: seq<int>, n: int := arr[..], keys[..], numItems;
      AppendIndexing(a, n, ks, x);
      AppendOrdered(a, n, prio[..], x);
      arr[numItems] := x;
      keys[x] := numItems;
      numItems := numItems + 1;
      stale := stale - {x};
      assert arr[..] == a[n := x] && keys[..] == ks[x := n];
      assert Items() == a[..n] + [x];
      ShiftUp(numItems - 1, prio);
    }

    /**
     * contains, with its range guard corrected to the index's last entry:
     * whether the index marks `key` present.  A key past the index is absent.
     * For a queued key the answer is whether the index points at its slot;
     * for a key that is not queued, whether its index entry is stale.
     */
    method Contains(key: nat) returns (b: bool)
      requires Valid()
      ensures key > capacity ==> !b
      ensures forall i :: 0 <= i < numItems && arr[i] == key ==> (b <==> keys[key] == i)
      ensures key !in Items() ==> (b <==> key in stale)
      ensures FullyIndexed() && key in Items() ==> b
    {
      b := key <= capacity && keys[key] != NONE;
    }

    /**
     * contains as written: the guard admits key == capacity + 1, one past the
     * index's last entry, where the lookup raises IndexError.
     */
    method ContainsAsWritten(key: nat) returns (r: Result<bool>)
      requires Valid()
      ensures r.Err? <==> key == capacity + 1
      ensures r.Err? ==> r.error == IndexOutOfRange
      ensures r.Ok? && key > capacity ==> !r.value
      ensures r.Ok? ==> forall i :: 0 <= i < numItems && arr[i] == key ==> (r.value <==> keys[key] == i)
      ensures r.Ok? && key !in Items() ==> (r.value <==> key in stale)
      ensures FullyIndexed() && key in Items() ==> r == Ok(true)
    {
      if key <= capacity + 1 {
        if key < keys.Length {
          r := Ok(keys[key] != NONE);
        } else {
          r := Err(IndexOutOfRange);
        }
      } else {
        r := Ok(false);
      }
    }

    /**
     * change_key: restore heap order after the caller lowered the priority of
     * `key`, by sifting up from the key's indexed slot.  The presence test is
     * contains as written, so key == capacity + 1 fails with IndexOutOfRange
     * and any other key the index does not mark present with KeyAbsent.
     * Only the path from the key's slot to the root changes.
     */
    method ChangeKey(key: nat, prio: array<int>) returns (r: Outcome)
      requires Valid() && prio != arr && prio != keys
      requires key <= capacity && keys[key] != NONE ==> OrderedAbove(arr[..], numItems, prio[..], keys[key])
      modifies arr, keys
      ensures Valid()
      ensures r == Fail(IndexOutOfRange) <==> key == capacity + 1
      ensures r == Fail(KeyAbsent) <==> key > capacity + 1 || (key <= capacity && old(keys[key]) == NONE)
      ensures r.Fail? ==> r.error == IndexOutOfRange || r.error == KeyAbsent
      ensures r.Fail? ==> arr[..] == old(arr[..]) && keys[..] == old(keys[..])
      ensures r.Pass? ==> Ordered(prio[..]) && SameOffPath(old(arr[..]), arr[..], old(keys[key]))
      ensures multiset(Items()) == multiset(old(Items())) && stale == old(stale)
      ensures old(FullyIndexed()) ==> FullyIndexed()
    {
      var present := ContainsAsWritten(key);
      if present.Err? {
        return Fail(IndexOutOfRange);
      }
      if !present.value {
        return Fail(KeyAbsent);
      }
      var i := keys[key];
      ShiftUp(i, prio);
      r := Pass;
    }

    /**
     * The removal half of del_min: unindex the root's key, move the last key
     * to the root and index it there.
     */
    method TakeRoot() returns (item: int)
      requires Valid() && numItems > 0
      modifies this, arr, keys
      ensures Valid() && item == old(arr[0]) && numItems == old(numItems) - 1
      ensures arr[..] == old(arr[..])[0 := old(arr[..])[numItems]]
      ensures multiset(Items()) == multiset(old(Items())) - multiset{item}
      ensures numItems == 0 ==> stale == old(stale) + {item}
      ensures numItems > 0 ==> stale == old(stale)
      ensures old(FullyIndexed()) ==> FullyIndexed()
    {
      ghost var a, ks, n := arr[..], keys[..], numItems;
      if n == 1 {
        RemoveOnlyIndexing(a, ks);
      } else {
        RemoveRootIndexing(a, n, ks);
      }
      item := arr[0];
      keys[item] := NONE;
      numItems := numItems - 1;
      arr[0] := arr[numItems];
      var k := arr[0];
      keys[k] := 0;
      stale := if n == 1 then stale + {item} else stale;
      assert arr[..] == a[0 := a[n - 1]] && keys[..] == ks[a[0] := NONE][a[n - 1] := 0];
      if n == 1 {
        assert Items() == [];
      }
    }

    /**
     * del_min: remove and return the root, move the last item to the root and
     * sift it down; Empty on an empty queue.  Removing the only item leaves
     * its key indexed at slot 0, so it becomes stale.
     */
    method DelMin(prio: array<int>) returns (r: Result<int>)
      requires Valid() && prio != arr && prio != keys && Ordered(prio[..])
      modifies this, arr, keys
      ensures Valid() && Ordered(prio[..])
      ensures r == Err(Empty) <==> old(numItems) == 0
      ensures r.Err? ==> r.error == Empty
      ensures r.Err? ==> numItems == 0 && arr[..] == old(arr[..]) && keys[..] == old(keys[..])
      ensures r.Ok? ==> r.value == old(arr[0]) && numItems == old(numItems) - 1
      ensures r.Ok? ==> forall i :: 0 <= i < old(numItems) ==> prio[r.value] <= prio[old(arr[i])]
      ensures r.Ok? ==> multiset(Items()) == multiset(old(Items())) - multiset{r.value}
      ensures r.Ok? && numItems == 0 ==> stale == old(stale) + {r.value}
      ensures r.Ok? && numItems > 0 ==> stale == old(stale)
      ensures old(FullyIndexed()) ==> FullyIndexed()
    {
      if numItems == 0 {
        return Err(Empty);
      }
      RootIsLeastAll(arr[..], numItems, prio[..]);
      var item := RemoveRoot(prio);
      r := Ok(item);
    }

    /**
     * Two del_min calls in a row on a queue of at least two items, with the
     * priorities left alone in between: the second result's priority is no
     * lower than the first's.
     */
    method DelMinTwice(prio: array<int>) returns (first: int, second: int)
      requires Valid() && prio != arr && prio != keys && Ordered(prio[..]) && numItems >= 2
      modifies this, arr, keys
      ensures Valid() && Ordered(prio[..]) && numItems == old(numItems) - 2
      ensures first in old(Items()) && second in old(Items())
      ensures 0 <= first < prio.Length && 0 <= second < prio.Length && prio[first] <= prio[second]
    {
      ghost var items0 := Items();
      var r1 := DelMin(prio);
      first := r1.value;
      ghost var items1 := Items();
      assert first == items0[0];
      var r2 := DelMin(prio);
      second := r2.value;
      assert second == items1[0];
      assert second in multiset(items0) by {
        assert second in multiset(items1);
      }
      assert second in items0;
      ghost var k :| 0 <= k < |items0| && items0[k] == second;
    }

    /**
     * min followed by del_min, with the priorities left alone in between:
     * both report the same key, even when several keys tie for least priority.
     */
    method MinThenDelMin(prio: array<int>) returns (peeked: Result<int>, taken: Result<int>)
      requires Valid() && prio != arr && prio != keys && Ordered(prio[..])
      modifies this, arr, keys
      ensures Valid() && Ordered(prio[..])
      ensures peeked == taken
    {
      peeked := Min(prio);
      taken := DelMin(prio);
    }

    /** The non-empty case of del_min: take the root out and sift the moved key down. */
    method RemoveRoot(prio: array<int>) returns (item: int)
      requires Valid() && prio != arr && prio != keys && Ordered(prio[..]) && numItems > 0
      modifies this, arr, keys
      ensures Valid() && Ordered(prio[..])
      ensures item == old(arr[0]) && numItems == old(numItems) - 1
      ensures multiset(Items()) == multiset(old(Items())) - multiset{item}
      ensures numItems == 0 ==> stale == old(stale) + {item}
      ensures numItems > 0 ==> stale == old(stale)
      ensures old(FullyIndexed()) ==> FullyIndexed()
    {
      ghost var a: seq<int>, n: int := arr[..], numItems;
      RemoveRootOrdered(a, n, prio[..]);
      item := TakeRoot();
      assert arr[..] == a[0 := a[n - 1]];
      ShiftDown(0, numItems - 1, prio);
    }

    /** min: the root, whose priority is least; Empty on an empty queue. */
    method Min(prio: array<int>) returns (r: Result<int>)
      requires Valid() && Ordered(prio[..])
      ensures r == Err(Empty) <==> numItems == 0
      ensures r.Err? ==> r.error == Empty
      ensures r.Ok? ==> r.value == arr[0] && r.value in Items()
      ensures r.Ok? ==> forall i :: 0 <= i < numItems ==> prio[r.value] <= prio[arr[i]]
    {
      if numItems == 0 {
        return Err(Empty);
      }
      forall i | 0 <= i < numItems ensures prio[arr[0]] <= prio[arr[i]] {
        RootIsLeast(arr[..], numItems, prio[..], i);
      }
      assert arr[0] == Items()[0];
      r := Ok(arr[0]);
    }

    /** is_empty */
    function IsEmpty(): (b: bool)
      reads this, arr, keys
      requires Valid()
      ensures b <==> Items() == []
    {
      numItems == 0
    }

    /** is_full */
    function IsFull(): (b: bool)
      reads this, arr, keys
      requires Valid()
      ensures b <==> |Items()| == capacity
    {
      numItems == capacity
    }

    /** size */
    function Size(): (s: nat)
      reads this, arr, keys
      requires Valid()
      ensures s == |Items()| && s <= capacity
    {
      numItems
    }
  }

  /**
   * contains as written on a queue of capacity 2: key 3 passes the range
   * guard and the lookup falls off the end of the index.
   */
  method ContainsPastIndex() returns (r: Result<bool>)
    ensures r == Err(IndexOutOfRange)
  {
    var q := new MinPQ(2);
    r := q.ContainsAsWritten(3);
  }

  /**
   * heapify on the keys [0, 1] with priorities [0, 1]: nothing moves, the
   * two-item queue holds key 1 in its leaf slot, and contains(1) answers
   * false, so a change_key on it would raise KeyError.
   */
  method HeapifyMissesLeaf() returns (size: nat, leaf: int, r: Result<bool>)
    ensures size == 2 && leaf == 1 && r == Ok(false)
  {
    var a := new int[2];
    a[0], a[1] := 0, 1;
    var prio := new int[2];
    prio[0], prio[1] := 0, 1;
    assert StrictlyOrdered(a[..], prio[..]);
    var q := new MinPQ.FromArray(a, prio);
    size := q.Size();
    leaf := q.arr[1];
    r := q.ContainsAsWritten(leaf);
  }
}
