/**
 * The reverse index of the priority queue (min_pq_special.py:21, 26, 42, 56,
 * 91-95, 140-142, 159-162): `ks[k]` is the slot of key k, or NONE.  This
 * module states the invariant the index keeps over the occupied slots and
 * proves that each kind of index update the queue performs preserves it.
 */
module HeapKeys {
  import opened HeapOrder

  /** The index entry of a key that is not indexed (Python's None). */
  const NONE := -1

  /** Queued keys lie in the index's range. */
  ghost predicate InRange(a: seq<int>, n: int, ks: seq<int>)
    requires 0 <= n <= |a|
  {
    forall i :: 0 <= i < n ==> 0 <= a[i] < |ks|
  }

  /** No key is queued twice. */
  ghost predicate Distinct(a: seq<int>, n: int)
    requires 0 <= n <= |a|
  {
    forall i, j :: 0 <= i < j < n ==> a[i] != a[j]
  }

  /** A repetition-free list of keys drawn from [0, m) has at most m entries. */
  lemma {:induction false} Fits(s: seq<int>, m: nat)
    requires Distinct(s, |s|) && forall i :: 0 <= i < |s| ==> 0 <= s[i] < m
    ensures |s| <= m
    decreases m
  {
    if s != [] {
      var y, r := s[|s| - 1], s[..|s| - 1];
      // Rename m - 1, which occurs at most once in r, to y, which does not occur in r.
      var t := seq(|r|, i requires 0 <= i < |r| => if r[i] == m - 1 then y else r[i]);
      forall i, j | 0 <= i < j < |t| ensures t[i] != t[j] {
        assert s[i] != s[j] && s[i] != y && s[j] != y;
      }
      forall i | 0 <= i < |t| ensures 0 <= t[i] < m - 1 {
        assert s[i] != y;
      }
      Fits(t, m - 1);
    }
  }

  /** A repetition-free list of keys from [0, n) that misses some key of [0, n) is shorter than n. */
  lemma RoomFor(s: seq<int>, x: int, n: int)
    requires Distinct(s, |s|) && forall i :: 0 <= i < |s| ==> 0 <= s[i] < n
    requires 0 <= x < n && x !in s
    ensures |s| < n
  {
    Fits(s + [x], n);
  }

  /** A queued key is indexed at its own slot or not at all. */
  ghost predicate SlotsIndexed(a: seq<int>, n: int, ks: seq<int>)
    requires 0 <= n <= |a| && InRange(a, n, ks)
  {
    forall i {:trigger ks[a[i]]} :: 0 <= i < n ==> ks[a[i]] == i || ks[a[i]] == NONE
  }

  /** A key that is not queued is not indexed, or indexed at slot 0. */
  ghost predicate AbsentUnindexed(a: seq<int>, n: int, ks: seq<int>)
    requires 0 <= n <= |a|
  {
    forall k :: 0 <= k < |ks| && k !in a[..n] ==> ks[k] == NONE || ks[k] == 0
  }

  /**
   * The index invariant over the first n slots of `a`.  A queued key may be
   * unindexed because heapify never indexes keys that stay in leaf slots; a
   * key that is not queued may be indexed at slot 0 because del_min on a
   * one-item queue re-indexes the removed key there.
   */
  ghost predicate Indexing(a: seq<int>, n: int, ks: seq<int>)
  {
    0 <= n <= |a| && InRange(a, n, ks) && Distinct(a, n) &&
    SlotsIndexed(a, n, ks) && AbsentUnindexed(a, n, ks)
  }

  /** Every queued key is indexed at its slot. */
  ghost predicate AllIndexed(a: seq<int>, n: int, ks: seq<int>)
    requires Indexing(a, n, ks)
  {
    forall i {:trigger ks[a[i]]} :: 0 <= i < n ==> ks[a[i]] == i
  }

  /** Keys that the index marks present although they are not queued. */
  ghost function StaleKeys(a: seq<int>, n: int, ks: seq<int>): set<int>
    requires 0 <= n <= |a|
  {
    set k | 0 <= k < |ks| && ks[k] != NONE && k !in a[..n]
  }

  /** An index with no entries is a valid index of any distinct in-range keys, and has no stale keys. */
  lemma EmptyIndex(a: seq<int>, n: int, ks: seq<int>)
    requires 0 <= n <= |a| && InRange(a, n, ks) && Distinct(a, n)
    requires forall k :: 0 <= k < |ks| ==> ks[k] == NONE
    ensures Indexing(a, n, ks) && StaleKeys(a, n, ks) == {}
  {
  }

  /** A swap inside the first n slots queues the same keys. */
  lemma SwapMembers(a: seq<int>, n: int, i: int, j: int)
    requires 0 <= i < n && 0 <= j < n && n <= |a|
    ensures forall k :: k in Swap(a, i, j)[..n] <==> k in a[..n]
  {
    SwapPermutes(a, i, j, n);
    var b := Swap(a, i, j);
    forall k ensures k in b[..n] <==> k in a[..n] {
      assert k in b[..n] <==> k in multiset(b[..n]);
      assert k in a[..n] <==> k in multiset(a[..n]);
    }
  }

  /** Swapping two queued slots keeps the queued keys distinct. */
  lemma SwapDistinct(a: seq<int>, n: int, i: int, j: int)
    requires 0 <= n <= |a| && Distinct(a, n) && 0 <= i < n && 0 <= j < n
    ensures Distinct(Swap(a, i, j), n)
  {
  }

  /** Re-indexing both swapped keys at their new slots keeps each queued key at its slot or unindexed. */
  lemma SwapSlots(a: seq<int>, n: int, ks: seq<int>, i: int, j: int)
    requires Indexing(a, n, ks) && 0 <= i < n && 0 <= j < n && i != j
    ensures InRange(Swap(a, i, j), n, ks[a[j] := i][a[i] := j])
    ensures SlotsIndexed(Swap(a, i, j), n, ks[a[j] := i][a[i] := j])
    ensures AllIndexed(a, n, ks) ==> forall m :: 0 <= m < n ==> ks[a[j] := i][a[i] := j][Swap(a, i, j)[m]] == m
  {
    var b := Swap(a, i, j);
    var ks' := ks[a[j] := i][a[i] := j];
    forall m | 0 <= m < n && m != i && m != j
      ensures ks'[b[m]] == ks[a[m]]
    {
      assert b[m] == a[m] && a[m] != a[i] && a[m] != a[j];
    }
  }

  /** Re-indexing both swapped keys leaves the entries of keys that are not queued alone. */
  lemma SwapAbsent(a: seq<int>, n: int, ks: seq<int>, i: int, j: int)
    requires Indexing(a, n, ks) && 0 <= i < n && 0 <= j < n && i != j
    ensures AbsentUnindexed(Swap(a, i, j), n, ks[a[j] := i][a[i] := j])
    ensures StaleKeys(Swap(a, i, j), n, ks[a[j] := i][a[i] := j]) == StaleKeys(a, n, ks)
  {
    var ks' := ks[a[j] := i][a[i] := j];
    SwapMembers(a, n, i, j);
    assert a[..n][i] == a[i] && a[..n][j] == a[j];
    assert forall k :: 0 <= k < |ks| && k !in a[..n] ==> ks'[k] == ks[k];
  }

  /** The index update of one sift step keeps the index invariant and the stale keys. */
  lemma SwapIndexing(a: seq<int>, n: int, ks: seq<int>, i: int, j: int)
    requires Indexing(a, n, ks) && 0 <= i < n && 0 <= j < n && i != j
    ensures Indexing(Swap(a, i, j), n, ks[a[j] := i][a[i] := j])
    ensures StaleKeys(Swap(a, i, j), n, ks[a[j] := i][a[i] := j]) == StaleKeys(a, n, ks)
    ensures AllIndexed(a, n, ks) ==> AllIndexed(Swap(a, i, j), n, ks[a[j] := i][a[i] := j])
  {
    SwapDistinct(a, n, i, j);
    SwapSlots(a, n, ks, i, j);
    SwapAbsent(a, n, ks, i, j);
  }

  /** Indexing a queued key at its own slot keeps the invariant and the stale keys. */
  lemma IndexSlot(a: seq<int>, n: int, ks: seq<int>, i: int)
    requires Indexing(a, n, ks) && 0 <= i < n
    ensures Indexing(a, n, ks[a[i] := i])
    ensures StaleKeys(a, n, ks[a[i] := i]) == StaleKeys(a, n, ks)
    ensures AllIndexed(a, n, ks) ==> AllIndexed(a, n, ks[a[i] := i])
    ensures forall m {:trigger a[m]} :: 0 <= m < n && m != i ==> ks[a[i] := i][a[m]] == ks[a[m]]
  {
    var ks' := ks[a[i] := i];
    assert a[..n][i] == a[i];
    forall m | 0 <= m < n && m != i ensures ks'[a[m]] == ks[a[m]] {
      assert a[m] != a[i];
    }
  }

  /** The keys in slots (lo, n) have the same index entries in `ks` as in `ks0`. */
  ghost predicate EntriesKept(a: seq<int>, lo: int, n: int, ks0: seq<int>, ks: seq<int>)
    requires 0 <= n <= |a| && InRange(a, n, ks0) && |ks| == |ks0|
  {
    forall i :: 0 <= i && lo < i < n ==> ks[a[i]] == ks0[a[i]]
  }

  /** Indexing the key in a slot up to lo keeps the entries of the keys beyond lo. */
  lemma IndexSlotKeeps(a: seq<int>, n: int, ks0: seq<int>, ks: seq<int>, i: int, lo: int)
    requires Indexing(a, n, ks) && 0 <= i <= lo && i < n && |ks0| == |ks|
    requires EntriesKept(a, lo, n, ks0, ks)
    ensures EntriesKept(a, lo, n, ks0, ks[a[i] := i])
  {
    forall m | lo < m < n ensures ks[a[i] := i][a[m]] == ks[a[m]] {
      assert a[m] != a[i];
    }
  }

  /** insert's index update: appending a new key at slot n and indexing it there. */
  lemma AppendIndexing(a: seq<int>, n: int, ks: seq<int>, x: int)
    requires Indexing(a, n, ks) && n < |a| && 0 <= x < |ks| && x !in a[..n]
    ensures Indexing(a[n := x], n + 1, ks[x := n])
    ensures a[n := x][..n + 1] == a[..n] + [x]
    ensures StaleKeys(a[n := x], n + 1, ks[x := n]) == StaleKeys(a, n, ks) - {x}
    ensures AllIndexed(a, n, ks) ==> AllIndexed(a[n := x], n + 1, ks[x := n])
  {
    var b := a[n := x];
    var ks' := ks[x := n];
    assert b[..n + 1] == a[..n] + [x];
    assert forall k :: k in b[..n + 1] <==> k in a[..n] || k == x;
    forall i | 0 <= i < n ensures b[i] == a[i] && a[i] != x {
      assert a[i] == a[..n][i];
    }
  }

  /** del_min on a one-item queue: the removed key stays indexed at slot 0 and becomes stale. */
  lemma RemoveOnlyIndexing(a: seq<int>, ks: seq<int>)
    requires Indexing(a, 1, ks)
    ensures Indexing(a, 0, ks[a[0] := 0])
    ensures StaleKeys(a, 0, ks[a[0] := 0]) == StaleKeys(a, 1, ks) + {a[0]}
  {
    assert a[..0] == [] && a[..1] == [a[0]];
  }

  /** The slots of del_min's result: the last key at the root, then slots 1 to n-2. */
  lemma RemoveRootSlots(a: seq<int>, n: int)
    requires 1 < n <= |a|
    ensures a[0 := a[n - 1]][..n - 1] == [a[n - 1]] + a[1..n - 1]
    ensures a[..n] == [a[0]] + a[1..n - 1] + [a[n - 1]]
    ensures multiset(a[0 := a[n - 1]][..n - 1]) == multiset(a[..n]) - multiset{a[0]}
  {
    assert a[0 := a[n - 1]][..n - 1] == [a[n - 1]] + a[1..n - 1];
    assert a[..n] == [a[0]] + a[1..n - 1] + [a[n - 1]];
  }

  /**
   * del_min on a queue of n > 1 keys: the root key is unindexed, the last key
   * moves to the root and is indexed there.
   */
  lemma RemoveRootIndexing(a: seq<int>, n: int, ks: seq<int>)
    requires Indexing(a, n, ks) && n > 1
    ensures Indexing(a[0 := a[n - 1]], n - 1, ks[a[0] := NONE][a[n - 1] := 0])
    ensures multiset(a[0 := a[n - 1]][..n - 1]) == multiset(a[..n]) - multiset{a[0]}
    ensures StaleKeys(a[0 := a[n - 1]], n - 1, ks[a[0] := NONE][a[n - 1] := 0]) == StaleKeys(a, n, ks)
    ensures a[0] !in a[0 := a[n - 1]][..n - 1] && a[0] !in StaleKeys(a, n, ks)
    ensures AllIndexed(a, n, ks) ==> AllIndexed(a[0 := a[n - 1]], n - 1, ks[a[0] := NONE][a[n - 1] := 0])
  {
    var m := n - 1;
    var b := a[0 := a[m]];
    var ks' := ks[a[0] := NONE][a[m] := 0];
    RemoveRootSlots(a, n);
    assert forall k :: k in b[..m] <==> k in a[..n] && k != a[0];
    forall i | 0 < i < m ensures b[i] == a[i] && a[i] != a[0] && a[i] != a[m] {
    }
  }
}
