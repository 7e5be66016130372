/**
 * Slot arithmetic of the array-embedded binary tree (min_pq_special.py:166-207):
 * the parent and children of a slot, the ancestor relation, and the choice of
 * the smaller child used when sifting down.
 */
module HeapIndex {

  /** index_parent: Python's floor division, so the root's parent is -1. */
  function Parent(i: int): (p: int)
    ensures i > 0 ==> 0 <= p < i
    ensures i == 0 ==> p == -1
  {
    (i - 1) / 2
  }

  /** index_left */
  function Left(i: int): (c: int)
    ensures i >= 0 ==> i < c && Parent(c) == i
  {
    i * 2 + 1
  }

  /** index_right */
  function Right(i: int): (c: int)
    ensures i >= 0 ==> c == Left(i) + 1 && Parent(c) == i
  {
    i * 2 + 2
  }

  /** A slot whose parent is p is one of p's two children. */
  lemma ChildOfParent(p: int, c: int)
    requires p >= 0 && c > 0 && Parent(c) == p
    ensures c == Left(p) || c == Right(p)
  {
  }

  /** `j` lies on the path from slot `i` up to the root (i itself included). */
  ghost predicate Ancestor(j: int, i: int)
    decreases i
  {
    i >= 0 && (j == i || (i > 0 && Ancestor(j, Parent(i))))
  }

  /** Only slots on the root path come before a slot; the root is on every path. */
  lemma {:induction false} AncestorBounds(j: int, i: int)
    ensures Ancestor(j, i) ==> 0 <= j <= i
    ensures i >= 0 ==> Ancestor(0, i)
    decreases i
  {
    if i > 0 {
      AncestorBounds(j, Parent(i));
    }
  }

  /** The parent of a slot on the root path of `i` is on that path too. */
  lemma {:induction false} AncestorParent(j: int, i: int)
    requires Ancestor(j, i) && j > 0
    ensures Ancestor(Parent(j), i)
    decreases i
  {
    if j != i {
      AncestorParent(j, Parent(i));
    }
  }

  /** A child of a slot in the subtree of `j` is in that subtree too. */
  lemma AncestorChild(j: int, i: int, c: int)
    requires Ancestor(j, i) && c > 0 && Parent(c) == i
    ensures Ancestor(j, c)
  {
  }

  /**
   * index_smaller: the child that a sift-down step compares with.  It answers
   * `left` whenever either child lies past `end` (so an answer past `end` means
   * "no child"); otherwise the strictly smaller child, with ties going right.
   * Children are compared by the priorities `d` of the keys in `a`.
   */
  function IndexSmaller(a: seq<int>, d: seq<int>, left: int, right: int, end: int): (m: int)
    requires 0 <= left && 0 <= right && end < |a|
    requires forall i :: 0 <= i <= end ==> 0 <= a[i] < |d|
    ensures m == left || m == right
    ensures m > end <==> left > end
    ensures left <= end < right ==> m == left
    ensures m <= end ==> d[a[m]] <= d[a[left]]
    ensures m <= end && right <= end ==> d[a[m]] <= d[a[right]]
    ensures left <= end && right <= end && d[a[left]] == d[a[right]] ==> m == right
  {
    if left > end || right > end then left
    else if d[a[left]] < d[a[right]] then left
    else right
  }
}
