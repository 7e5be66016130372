/**
 * Heap order over a sequence of keys whose priorities are given by `d`, the
 * intermediate states of sift-up and sift-down (min_pq_special.py:131-164),
 * and the facts about single sift steps that the queue's methods rely on.
 */
module HeapOrder {
  import opened HeapIndex

  /** Swap the contents of slots i and j. */
  function Swap(a: seq<int>, i: int, j: int): (b: seq<int>)
    requires 0 <= i < |a| && 0 <= j < |a|
    ensures |b| == |a| && b[i] == a[j] && b[j] == a[i]
    ensures forall k :: 0 <= k < |a| && k != i && k != j ==> b[k] == a[k]
  {
    a[i := a[j]][j := a[i]]
  }

  /** A swap inside the first n slots permutes those n slots. */
  lemma SwapPermutes(a: seq<int>, i: int, j: int, n: int)
    requires 0 <= i < n && 0 <= j < n && n <= |a|
    ensures multiset(Swap(a, i, j)[..n]) == multiset(a[..n])
    ensures Swap(a, i, j)[n..] == a[n..]
  {
    assert Swap(a, i, j)[..n] == a[..n][i := a[j]][j := a[i]];
  }

  /** Every key in slots [0, n) has a priority. */
  ghost predicate Prioritised(a: seq<int>, n: int, d: seq<int>)
  {
    0 <= n <= |a| && forall i :: 0 <= i < n ==> 0 <= a[i] < |d|
  }

  /**
   * Heap order on slots [0, end] for every slot whose parent is at lo or
   * beyond: no such slot holds a smaller priority than its parent.
   */
  ghost predicate OrderedFrom(a: seq<int>, d: seq<int>, lo: int, end: int)
  {
    Prioritised(a, end + 1, d) &&
    forall i :: 0 < i <= end && Parent(i) >= lo ==> d[a[Parent(i)]] <= d[a[i]]
  }

  /** Heap order over the n occupied slots. */
  ghost predicate HeapOrdered(a: seq<int>, n: int, d: seq<int>)
  {
    OrderedFrom(a, d, 0, n - 1)
  }

  /**
   * The state sift-up works in: heap order holds except possibly between j
   * and its parent, and j's parent is no larger than j's children.
   */
  ghost predicate OrderedAbove(a: seq<int>, n: int, d: seq<int>, j: int)
  {
    Prioritised(a, n, d) && 0 <= j && (j < n || j == 0) &&
    (forall i :: 0 < i < n && i != j ==> d[a[Parent(i)]] <= d[a[i]]) &&
    (forall i :: 0 < i < n && Parent(i) == j && j > 0 ==> d[a[Parent(j)]] <= d[a[i]])
  }

  /**
   * The state sift-down works in, below slot lo and up to slot end: order holds
   * except possibly between j and its children, and j's parent is no larger
   * than j's children.
   */
  ghost predicate OrderedBelow(a: seq<int>, d: seq<int>, lo: int, j: int, end: int)
  {
    Prioritised(a, end + 1, d) && 0 <= lo <= j && (j == lo || Parent(j) >= lo) &&
    (forall i :: 0 < i <= end && Parent(i) >= lo && Parent(i) != j ==> d[a[Parent(i)]] <= d[a[i]]) &&
    (forall i :: 0 < i <= end && Parent(i) == j && j > lo ==> d[a[Parent(j)]] <= d[a[i]])
  }

  /** In a heap the root has the least priority. */
  lemma {:induction false} RootIsLeast(a: seq<int>, n: int, d: seq<int>, i: int)
    requires HeapOrdered(a, n, d) && 0 <= i < n
    ensures d[a[0]] <= d[a[i]]
    decreases i
  {
    if i > 0 {
      RootIsLeast(a, n, d, Parent(i));
    }
  }

  /** In a heap no key has a smaller priority than the root's. */
  lemma RootIsLeastAll(a: seq<int>, n: int, d: seq<int>)
    requires HeapOrdered(a, n, d) && 0 < n
    ensures forall i :: 0 <= i < n ==> d[a[0]] <= d[a[i]]
  {
    forall i | 0 <= i < n ensures d[a[0]] <= d[a[i]] {
      RootIsLeast(a, n, d, i);
    }
  }

  /** One sift-up step: swapping j with a larger parent moves the gap up. */
  lemma SiftUpStep(a: seq<int>, n: int, d: seq<int>, j: int)
    requires OrderedAbove(a, n, d, j) && 0 < j < n && d[a[j]] < d[a[Parent(j)]]
    ensures OrderedAbove(Swap(a, j, Parent(j)), n, d, Parent(j))
  {
    var p := Parent(j);
    var b := Swap(a, j, p);
    forall i | 0 < i < n && i != p
      ensures d[b[Parent(i)]] <= d[b[i]]
    {
      if i == j {
      } else if Parent(i) == j {
        assert b[i] == a[i];
      } else if Parent(i) == p {
        assert b[i] == a[i];
      } else if Parent(i) != i {
        assert b[Parent(i)] == a[Parent(i)] || Parent(i) == p || Parent(i) == j;
      }
    }
    forall i | 0 < i < n && Parent(i) == p && p > 0
      ensures d[b[Parent(p)]] <= d[b[i]]
    {
      if i == j {
      } else {
        assert b[i] == a[i];
      }
    }
  }

  /** Sift-up stops at the root or below a parent that is no larger. */
  lemma SiftUpDone(a: seq<int>, n: int, d: seq<int>, j: int)
    requires OrderedAbove(a, n, d, j) && (j == 0 || d[a[Parent(j)]] <= d[a[j]])
    ensures HeapOrdered(a, n, d)
  {
  }

  /** One sift-down step: swapping j with its smaller, no larger child moves the gap down. */
  lemma SiftDownStep(a: seq<int>, d: seq<int>, lo: int, j: int, end: int, c: int)
    requires OrderedBelow(a, d, lo, j, end) && end < |a|
    requires c == IndexSmaller(a, d, Left(j), Right(j), end) && c <= end
    requires !(d[a[j]] < d[a[c]])
    ensures OrderedBelow(Swap(a, j, c), d, lo, c, end)
  {
    var b := Swap(a, j, c);
    forall i | 0 < i <= end && Parent(i) >= lo && Parent(i) != c
      ensures d[b[Parent(i)]] <= d[b[i]]
    {
      if i == c {
      } else if i == j {
      } else if Parent(i) == j {
        ChildOfParent(j, i);
        assert b[i] == a[i];
      } else {
        assert b[i] == a[i];
      }
    }
    forall i | 0 < i <= end && Parent(i) == c
      ensures d[b[Parent(c)]] <= d[b[i]]
    {
      assert b[i] == a[i];
    }
  }

  /** Sift-down stops when j has no child up to end or is smaller than the chosen child. */
  lemma SiftDownDone(a: seq<int>, d: seq<int>, lo: int, j: int, end: int)
    requires OrderedBelow(a, d, lo, j, end) && end < |a|
    requires j >= end || IndexSmaller(a, d, Left(j), Right(j), end) > end
          || d[a[j]] < d[a[IndexSmaller(a, d, Left(j), Right(j), end)]]
    ensures OrderedFrom(a, d, lo, end)
  {
    forall i | 0 < i <= end && Parent(i) == j
      ensures d[a[j]] <= d[a[i]]
    {
      ChildOfParent(j, i);
    }
  }

  /** Lowering the priority of the key in slot j leaves a sift-up state at j. */
  lemma LowerPriority(a: seq<int>, n: int, d: seq<int>, j: int, x: int)
    requires HeapOrdered(a, n, d) && 0 <= j < n && x <= d[a[j]]
    requires forall i :: 0 <= i < n && i != j ==> a[i] != a[j]
    ensures OrderedAbove(a, n, d[a[j] := x], j)
  {
    var e := d[a[j] := x];
    forall i | 0 < i < n && Parent(i) == j && j > 0
      ensures e[a[Parent(j)]] <= e[a[i]]
    {
      assert e[a[i]] == d[a[i]] && e[a[Parent(j)]] == d[a[Parent(j)]];
    }
  }

  /** Changing the priority of a key that is not queued leaves heap order intact. */
  lemma PriorityOfAbsent(a: seq<int>, n: int, d: seq<int>, v: int, x: int)
    requires HeapOrdered(a, n, d) && 0 <= v < |d| && v !in a[..n]
    ensures HeapOrdered(a, n, d[v := x])
  {
    forall i | 0 <= i < n ensures a[i] != v {
      assert a[..n][i] == a[i];
    }
  }
  /** insert's starting point: a new key appended after a heap is a sift-up state at its slot. */
  lemma AppendOrdered(a: seq<int>, n: int, d: seq<int>, x: int)
    requires HeapOrdered(a, n, d) && n < |a| && 0 <= x < |d|
    ensures OrderedAbove(a[n := x], n + 1, d, n)
  {
  }

  /** del_min's starting point: moving the last key of a heap to the root is a sift-down state at the root. */
  lemma RemoveRootOrdered(a: seq<int>, n: int, d: seq<int>)
    requires HeapOrdered(a, n, d) && n > 0
    ensures OrderedBelow(a[0 := a[n - 1]], d, 0, 0, n - 2)
  {
  }

  /** heapify's starting point: nothing is required of the slots whose parent is a leaf. */
  lemma LeavesOrdered(a: seq<int>, d: seq<int>, end: int)
    requires Prioritised(a, end + 1, d)
    ensures OrderedFrom(a, d, Parent(end) + 1, end)
  {
  }

  /** heapify's step: order below slot lo+1 is a sift-down state at lo. */
  lemma StartSiftDown(a: seq<int>, d: seq<int>, lo: int, end: int)
    requires OrderedFrom(a, d, lo + 1, end) && 0 <= lo
    ensures OrderedBelow(a, d, lo, lo, end)
  {
  }

  /** `b` agrees with `a` everywhere except on the path from slot j to the root. */
  ghost predicate SameOffPath(a: seq<int>, b: seq<int>, j: int)
  {
    |a| == |b| && forall m :: 0 <= m < |a| && !Ancestor(m, j) ==> a[m] == b[m]
  }

  /** Swapping two slots on the path keeps agreement off the path. */
  lemma SwapOnPath(a: seq<int>, b: seq<int>, j: int, p: int, q: int)
    requires SameOffPath(a, b, j) && 0 <= p < |b| && 0 <= q < |b| && Ancestor(p, j) && Ancestor(q, j)
    ensures SameOffPath(a, Swap(b, p, q), j)
  {
  }

  /** `b` agrees with `a` everywhere outside the subtree rooted at slot j. */
  ghost predicate SameOffSubtree(a: seq<int>, b: seq<int>, j: int)
  {
    |a| == |b| && forall m :: 0 <= m < |a| && !Ancestor(j, m) ==> a[m] == b[m]
  }

  /** Swapping two slots of the subtree keeps agreement outside it. */
  lemma SwapInSubtree(a: seq<int>, b: seq<int>, j: int, p: int, q: int)
    requires SameOffSubtree(a, b, j) && 0 <= p < |b| && 0 <= q < |b| && Ancestor(j, p) && Ancestor(j, q)
    ensures SameOffSubtree(a, Swap(b, p, q), j)
  {
  }
}
