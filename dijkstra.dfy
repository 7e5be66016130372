/**
 * The shortest-path engine of dijkstra_sp.py.  A vertex is identified with its
 * key: the fields of the Vertex stored at key k (whether it exists, its value,
 * its `edges` row, `dist` and `predecessor`) are entry k of the engine's arrays.
 * A run drives the indexed min-heap with the distances array as priorities.
 */
module Dijkstra {
  import opened Outcomes
  import opened Graph
  import opened HeapOrder
  import opened HeapKeys
  import opened MinPriorityQueue

  /** A predecessor of None. */
  const NIL := -1

  /** What get_vertex hands back: one vertex's fields. */
  datatype Vertex = Vertex(key: int, val: string, edges: Row, dist: int, predecessor: Option<int>)

  /** Relaxing the edge c - v lowers v's distance in d. */
  ghost predicate Improves(e: seq<Row>, d: seq<int>, c: int, v: int)
    requires Square(e) && |d| == |e| && 0 <= c < |e| && 0 <= v < |e|
  {
    e[c][v].Some? && d[v] > d[c] + e[c][v].value
  }

  /**
   * The distances d1 and predecessors p1 after relax(c) from d0 and p0: every
   * neighbour that the edge from c improves now goes through c, and nothing
   * else changes.
   */
  ghost predicate RelaxedFrom(e: seq<Row>, d0: seq<int>, d1: seq<int>, p0: seq<int>, p1: seq<int>, c: int)
    requires Square(e) && |d0| == |e| && |d1| == |e| && |p0| == |e| && |p1| == |e| && 0 <= c < |e|
  {
    forall v :: 0 <= v < |e| ==>
      if Improves(e, d0, c, v) then d1[v] == d0[c] + e[c][v].value && p1[v] == c
      else d1[v] == d0[v] && p1[v] == p0[v]
  }

  /**
   * The invariant of a run at any start state.  `rank` numbers the settled
   * vertices (those del_min has returned) in the order they were settled;
   * `items` are the queued vertices.  No settled vertex is queued, every
   * settled distance is at most every queued one, and no edge out of a
   * settled vertex can still lower a distance.
   */
  ghost predicate Frontier(e: seq<Row>, d: seq<int>, items: seq<int>, rank: map<int, nat>)
    requires Square(e) && |d| == |e|
  {
    (forall u :: u in rank ==> 0 <= u < |e| && rank[u] < |rank|) &&
    (forall x :: x in items ==> 0 <= x < |e| && x !in rank) &&
    (forall u, x :: u in rank && x in items ==> d[u] <= d[x]) &&
    (forall u, v :: u in rank && 0 <= v < |e| && e[u][v].Some? ==> d[v] <= d[u] + e[u][v].value)
  }

  /** v reached its distance over the edge from its predecessor, which was settled before it. */
  ghost predicate Linked(e: seq<Row>, d: seq<int>, p: seq<int>, rank: map<int, nat>, v: int)
    requires Square(e) && |d| == |e| && |p| == |e| && 0 <= v < |e|
  {
    0 <= p[v] < |e| && p[v] in rank && e[p[v]][v].Some? && d[v] == d[p[v]] + e[p[v]][v].value &&
    (v in rank ==> rank[p[v]] < rank[v])
  }

  /**
   * The further invariant of a run that started from the reset state: every
   * vertex with a finite distance is settled or queued, and every one but the
   * source hangs off a settled predecessor.
   */
  ghost predicate Tree(e: seq<Row>, d: seq<int>, p: seq<int>, s: int, items: seq<int>, rank: map<int, nat>)
    requires Square(e) && |d| == |e| && |p| == |e|
  {
    (forall v :: 0 <= v < |e| && d[v] < INF ==> v in rank || v in items) &&
    (forall v {:trigger Linked(e, d, p, rank, v)} :: 0 <= v < |e| && v != s && d[v] < INF ==> Linked(e, d, p, rank, v))
  }

  /** The state a run from the reset state ends in. */
  ghost predicate Solved(e: seq<Row>, d: seq<int>, p: seq<int>, s: int, rank: map<int, nat>)
    requires Square(e) && |d| == |e| && |p| == |e|
  {
    Relaxed(e, d) &&
    (forall v :: 0 <= v < |e| && d[v] < INF ==> v in rank) &&
    (forall v {:trigger Linked(e, d, p, rank, v)} :: 0 <= v < |e| && v != s && d[v] < INF ==> Linked(e, d, p, rank, v))
  }

  /** A key occurs at most once in a repetition-free list. */
  lemma {:induction false} Once(s: seq<int>, x: int)
    requires Distinct(s, |s|)
    ensures multiset(s)[x] <= 1
  {
    if s != [] {
      var r := s[..|s| - 1];
      assert s == r + [s[|s| - 1]];
      Once(r, x);
      if s[|s| - 1] == x {
        assert x !in r;
      }
    }
  }

  /** Distances only went down from d0 to d, and a vertex other than s whose distance stayed kept its predecessor. */
  ghost predicate Lowered(d0: seq<int>, p0: seq<int>, d: seq<int>, p: seq<int>, s: int)
  {
    |d| == |d0| && |p| == |d0| && |p0| == |d0| &&
    forall v :: 0 <= v < |d0| ==> d[v] <= d0[v] && (v != s && d[v] == d0[v] ==> p[v] == p0[v])
  }

  /** Lowering in two steps is lowering in one. */
  lemma LoweredTrans(d0: seq<int>, p0: seq<int>, d1: seq<int>, p1: seq<int>, d2: seq<int>, p2: seq<int>, s: int)
    requires Lowered(d0, p0, d1, p1, s) && Lowered(d1, p1, d2, p2, s)
    ensures Lowered(d0, p0, d2, p2, s)
  {
  }

  /** Removing one copy of c from a repetition-free list removes c. */
  lemma TakenOut(items0: seq<int>, items1: seq<int>, c: int)
    requires Distinct(items0, |items0|) && multiset(items1) == multiset(items0) - multiset{c}
    ensures forall x :: x in items1 <==> x in items0 && x != c
  {
    Once(items0, c);
    forall x ensures x in items1 <==> x in items0 && x != c {
      assert x in items1 <==> x in multiset(items1);
      assert x in items0 <==> x in multiset(items0);
    }
  }

  /**
   * Settling c and relaxing its edges keeps the frontier invariant, with c
   * given the next rank.
   */
  lemma SettleFrontier(e: seq<Row>, d0: seq<int>, d1: seq<int>, p0: seq<int>, p1: seq<int>,
                       items0: seq<int>, items2: seq<int>, rank: map<int, nat>, c: int)
    requires Square(e) && NonNegative(e) && |d0| == |e| && |d1| == |e| && |p0| == |e| && |p1| == |e|
    requires Frontier(e, d0, items0, rank) && c in items0
    requires forall x :: x in items0 ==> d0[c] <= d0[x]
    requires RelaxedFrom(e, d0, d1, p0, p1, c)
    requires forall x :: x in items2 <==> (x in items0 && x != c) || (0 <= x < |e| && Improves(e, d0, c, x))
    ensures Frontier(e, d1, items2, rank[c := |rank|])
    ensures forall u :: u in rank[c := |rank|] ==> d1[u] == d0[u] && p1[u] == p0[u]
  {
    var rank' := rank[c := |rank|];
    assert c !in rank;
    forall u | u in rank' ensures d0[u] <= d0[c] && d1[u] == d0[u] && p1[u] == p0[u] {
    }
    forall x | x in items2 ensures 0 <= x < |e| && x !in rank' && d1[x] >= d0[c] {
      if x in items0 && x != c {
      } else {
        assert Improves(e, d0, c, x);
      }
    }
    forall u, v | u in rank' && 0 <= v < |e| && e[u][v].Some?
      ensures d1[v] <= d1[u] + e[u][v].value
    {
      if u == c {
        assert Improves(e, d0, c, v) || d0[v] <= d0[c] + e[c][v].value;
      }
    }
  }

  /**
   * From the reset state the tree invariant survives the same step: an
   * improved vertex hangs off c, every other finite vertex keeps its settled
   * predecessor, and c itself is linked to one settled before it.
   */
  lemma SettleTree(e: seq<Row>, d0: seq<int>, d1: seq<int>, p0: seq<int>, p1: seq<int>, s: int,
                   items0: seq<int>, items2: seq<int>, rank: map<int, nat>, c: int)
    requires Square(e) && NonNegative(e) && |d0| == |e| && |d1| == |e| && |p0| == |e| && |p1| == |e|
    requires Frontier(e, d0, items0, rank) && Tree(e, d0, p0, s, items0, rank) && c in items0
    requires forall x :: x in items0 ==> d0[c] <= d0[x]
    requires RelaxedFrom(e, d0, d1, p0, p1, c)
    requires forall x :: x in items2 <==> (x in items0 && x != c) || (0 <= x < |e| && Improves(e, d0, c, x))
    ensures Tree(e, d1, p1, s, items2, rank[c := |rank|])
  {
    var rank' := rank[c := |rank|];
    forall v | 0 <= v < |e| && d1[v] < INF ensures v in rank' || v in items2 {
      if !Improves(e, d0, c, v) {
        assert d1[v] == d0[v];
      }
    }
    forall v | 0 <= v < |e| && v != s && d1[v] < INF ensures Linked(e, d1, p1, rank', v) {
      if Improves(e, d0, c, v) {
      } else {
        var u := p0[v];
        assert Linked(e, d0, p0, rank, v);
        assert !Improves(e, d0, c, u) by {
          assert d0[u] <= d0[c];
        }
      }
    }
  }

  /**
   * When the queue has drained after a run from the reset state, no edge can
   * lower a distance: unsettled vertices are still at sys.maxsize.
   */
  lemma Drained(e: seq<Row>, d: seq<int>, p: seq<int>, s: int, rank: map<int, nat>)
    requires Square(e) && NonNegative(e) && |d| == |e| && |p| == |e|
    requires forall v :: 0 <= v < |e| ==> d[v] <= INF
    requires Frontier(e, d, [], rank) && Tree(e, d, p, s, [], rank)
    ensures Solved(e, d, p, s, rank)
  {
    forall u: int, v: int | 0 <= u < |e| && 0 <= v < |e| && e[u][v].Some? ensures d[v] <= d[u] + e[u][v].value {
      if u !in rank {
        assert d[u] >= INF;
      }
    }
  }

  /**
   * After a solved run, a finite vertex other than the source is settled and
   * steps back over an edge to a predecessor settled before it, whose
   * distance is its own less that edge's weight.
   */
  lemma StepBack(e: seq<Row>, d: seq<int>, p: seq<int>, s: int, rank: map<int, nat>, v: int)
    requires Square(e) && |d| == |e| && |p| == |e| && Solved(e, d, p, s, rank)
    requires 0 <= v < |e| && v != s && d[v] < INF
    ensures v in rank && 0 <= p[v] < |e| && p[v] in rank && rank[p[v]] < rank[v]
    ensures e[p[v]][v].Some? && d[v] == d[p[v]] + e[p[v]][v].value
  {
    assert Linked(e, d, p, rank, v);
  }

  /**
   * The predecessor walk has stopped at a vertex without predecessor, on a
   * path to a finite vertex: that vertex is the source, and the hops
   * collected add up to the path's weight.
   */
  lemma Arrived(e: seq<Row>, vs: seq<string>, d: seq<int>, p: seq<int>, s: int, rank: map<int, nat>,
                chain: seq<int>, path: seq<Hop>)
    requires Square(e) && Symmetric(e) && NonNegative(e) && |vs| == |e| && |d| == |e| && |p| == |e|
    requires Solved(e, d, p, s, rank) && IsPath(e, chain) && p[chain[0]] == NIL
    requires path == Trail(e, vs, chain) && d[chain[0]] + PathWeight(e, chain) < INF
    ensures chain[0] == s && Total(path) == PathWeight(e, chain)
  {
    PathWeightNonNegative(e, chain);
    assert !Linked(e, d, p, rank, chain[0]);
    TrailWeight(e, vs, chain);
  }

  /**
   * relax(c) part way through: of the neighbours in `seen`, those the edge
   * from c improves go through c, and every other vertex is untouched; the
   * queue gained exactly the improved neighbours in `seen`.
   */
  ghost predicate RelaxedOn(e: seq<Row>, d0: seq<int>, d: seq<int>, p0: seq<int>, p: seq<int>,
                            items0: seq<int>, items: seq<int>, c: int, seen: set<int>)
    requires Square(e) && |d0| == |e| && |d| == |e| && |p0| == |e| && |p| == |e| && 0 <= c < |e|
  {
    (forall v :: 0 <= v < |e| ==>
      if v in seen && Improves(e, d0, c, v) then d[v] == d0[c] + e[c][v].value && p[v] == c
      else d[v] == d0[v] && p[v] == p0[v]) &&
    (forall x :: x in items <==> x in items0 || (x in seen && 0 <= x < |e| && Improves(e, d0, c, x)))
  }

  /** Handling one more neighbour v of c keeps RelaxedOn, with v now seen. */
  lemma RelaxStep(e: seq<Row>, d0: seq<int>, d: seq<int>, d': seq<int>, p0: seq<int>, p: seq<int>, p': seq<int>,
                  items0: seq<int>, items: seq<int>, items': seq<int>, c: int, seen: set<int>, v: int, w: int)
    requires Square(e) && |d0| == |e| && |d| == |e| && |p0| == |e| && |p| == |e| && 0 <= c < |e|
    requires RelaxedOn(e, d0, d, p0, p, items0, items, c, seen) && d[c] == d0[c]
    requires 0 <= v < |e| && v !in seen && e[c][v] == Some(w)
    requires d[v] > d[c] + w ==>
      d' == d[v := d[c] + w] && p' == p[v := c] && forall x :: x in items' <==> x in items || x == v
    requires d[v] <= d[c] + w ==> d' == d && p' == p && items' == items
    ensures |d'| == |e| && |p'| == |e|
    ensures RelaxedOn(e, d0, d', p0, p', items0, items', c, seen + {v})
  {
    assert d[v] == d0[v];
  }

  /**
   * The neighbours of a sorted edge list visited before position i; the next
   * one has not been visited yet.
   */
  ghost predicate SeenUpTo(es: seq<(int, int)>, i: int, seen: set<int>)
    requires 0 <= i <= |es|
  {
    (forall x :: x in seen ==> 0 < i && x <= es[i - 1].0) &&
    (forall j :: 0 <= j < i ==> es[j].0 in seen)
  }

  /** In a key-sorted edge list the next neighbour is not yet seen. */
  lemma SeenNext(es: seq<(int, int)>, i: int, seen: set<int>)
    requires 0 <= i < |es| && SeenUpTo(es, i, seen)
    requires forall a, b :: 0 <= a < b < |es| ==> es[a].0 < es[b].0
    ensures es[i].0 !in seen && SeenUpTo(es, i + 1, seen + {es[i].0})
  {
    forall x | x in seen ensures x < es[i].0 {
      assert x <= es[i - 1].0;
    }
  }

  /** Once every neighbour of c has been seen, relax(c) is complete. */
  lemma RelaxDone(e: seq<Row>, d0: seq<int>, d: seq<int>, p0: seq<int>, p: seq<int>,
                  items0: seq<int>, items: seq<int>, c: int, seen: set<int>)
    requires Square(e) && |d0| == |e| && |d| == |e| && |p0| == |e| && |p| == |e| && 0 <= c < |e|
    requires RelaxedOn(e, d0, d, p0, p, items0, items, c, seen)
    requires forall v :: 0 <= v < |e| && e[c][v].Some? ==> v in seen
    ensures RelaxedFrom(e, d0, d, p0, p, c)
    ensures forall x :: x in items <==> x in items0 || (0 <= x < |e| && Improves(e, d0, c, x))
  {
  }

  /** The graph: one Vertex per present key, an adjacency row per key, and the per-run state. */
  class DijkstraSP {
    const numVertices: nat
    var numEdges: nat
    const present: array<bool>
    const vals: array<string>
    const edges: array<Row>
    const dist: array<int>
    const pred: array<int>

    /**
     * Keys run over [0, numVertices].  Edges join present vertices and are
     * recorded in both rows.  Distances lie in [0, sys.maxsize], a vertex at
     * sys.maxsize has no predecessor, and an absent key holds reset state.
     */
    ghost predicate Valid()
      reads this, present, vals, edges, dist, pred
    {
      present.Length == numVertices + 1 && vals.Length == numVertices + 1 &&
      edges.Length == numVertices + 1 && dist.Length == numVertices + 1 &&
      pred.Length == numVertices + 1 && dist != pred &&
      Square(edges[..]) && Symmetric(edges[..]) &&
      (forall u, v :: 0 <= u <= numVertices && 0 <= v <= numVertices && edges[u][v].Some? ==> present[u]) &&
      (forall v :: 0 <= v <= numVertices ==> 0 <= dist[v] <= INF && NIL <= pred[v] <= numVertices) &&
      (forall v :: 0 <= v <= numVertices && dist[v] == INF ==> pred[v] == NIL) &&
      (forall v :: 0 <= v <= numVertices && !present[v] ==> dist[v] == INF)
    }

    /** Every vertex is in its reset state. */
    ghost predicate Reset()
      reads this, dist, pred
      requires dist.Length == numVertices + 1 && pred.Length == numVertices + 1
    {
      forall v :: 0 <= v <= numVertices ==> dist[v] == INF && pred[v] == NIL
    }

    /**
     * The queue of a run: indexed in full, in heap order by the distances,
     * holding keys of vertices only, with room for every vertex.
     */
    ghost predicate Queue(q: MinPQ)
      reads this, dist, pred, q, q.arr, q.keys
    {
      q.Valid() && q.FullyIndexed() && q.capacity == numVertices + 1 &&
      q.arr != dist && q.arr != pred && q.keys != dist && q.keys != pred &&
      dist.Length == numVertices + 1 && q.Ordered(dist[..]) &&
      (forall x :: x in q.Items() ==> 0 <= x <= numVertices) &&
      (forall u :: u in q.stale ==> 0 <= u <= numVertices)
    }

    /** DijkstraSP(num_vertices=...): a graph with no vertices and no edges. */
    constructor (numVertices: nat)
      ensures Valid() && Reset() && this.numVertices == numVertices && numEdges == 0
      ensures forall k :: 0 <= k <= numVertices ==> !present[k] && edges[k] == seq(numVertices + 1, _ => None)
      ensures fresh(present) && fresh(vals) && fresh(edges) && fresh(dist) && fresh(pred)
    {
      this.numVertices := numVertices;
      numEdges := 0;
      present := new bool[numVertices + 1](_ => false);
      vals := new string[numVertices + 1](_ => "");
      edges := new Row[numVertices + 1](_ => seq(numVertices + 1, _ => None));
      dist := new int[numVertices + 1](_ => INF);
      pred := new int[numVertices + 1](_ => NIL);
    }

    /**
     * add_vertex: a fresh vertex at an unused key, with no edges and reset
     * distance and predecessor; nothing else changes.
     */
    method AddVertex(key: int, val: string)
      requires Valid() && 0 <= key <= numVertices && !present[key]
      modifies present, vals, edges, dist, pred
      ensures Valid() && present[key] && vals[key] == val
      ensures edges[key] == seq(numVertices + 1, _ => None) && dist[key] == INF && pred[key] == NIL
      ensures forall k :: 0 <= k <= numVertices && k != key ==>
        present[k] == old(present[k]) && vals[k] == old(vals[k]) && edges[k] == old(edges[k]) &&
        dist[k] == old(dist[k]) && pred[k] == old(pred[k])
      ensures Reset() <==> old(Reset())
    {
      assert edges[key] == seq(numVertices + 1, _ => None);
      present[key] := true;
      vals[key] := val;
      edges[key] := seq(numVertices + 1, _ => None);
      dist[key] := INF;
      pred[key] := NIL;
      assert edges[..] == old(edges[..]);
    }

    /**
     * get_vertex: the vertex at a key, or None; its fields are the key's
     * entries, its row agrees with its neighbours' rows, and its distance and
     * predecessor agree.
     */
    function GetVertex(key: int): (r: Option<Vertex>)
      reads this, present, vals, edges, dist, pred
      requires Valid() && 0 <= key <= numVertices
      ensures r.None? <==> !present[key]
      ensures r.Some? ==> r.value.key == key && r.value.val == vals[key] && r.value.edges == edges[key] && r.value.dist == dist[key]
      ensures r.Some? ==> (r.value.predecessor.None? <==> pred[key] == NIL)
      ensures r.Some? && r.value.predecessor.Some? ==> r.value.predecessor.value == pred[key]
      ensures r.Some? ==> |r.value.edges| == numVertices + 1
      ensures r.Some? ==> 0 <= r.value.dist <= INF && (r.value.dist == INF ==> r.value.predecessor.None?)
      ensures r.Some? ==> forall v :: 0 <= v <= numVertices && r.value.edges[v].Some? ==> present[v] && edges[v][key] == r.value.edges[v]
    {
      if !present[key] then None
      else
        assert forall v :: 0 <= v <= numVertices ==> edges[..][key][v] == edges[..][v][key];
        Some(Vertex(key, vals[key], edges[key], dist[key], if pred[key] == NIL then None else Some(pred[key])))
    }

    /**
     * Vertex.get_edge: the weight of the edge from vertex u to key k, if any;
     * the same edge is recorded in k's row.
     */
    function GetEdge(u: int, k: int): (r: Option<int>)
      reads this, present, vals, edges, dist, pred
      requires Valid() && 0 <= u <= numVertices && 0 <= k <= numVertices
      ensures r == edges[k][u]
      ensures r.Some? ==> present[u] && present[k]
    {
      assert edges[..][u][k] == edges[..][k][u];
      edges[u][k]
    }

    /**
     * Vertex.get_edges: the (neighbour key, weight) pairs of vertex u, each an
     * edge of both endpoints, in increasing key order, and all of them.
     */
    function GetEdges(u: int): (es: seq<(int, int)>)
      reads this, present, vals, edges, dist, pred
      requires Valid() && 0 <= u <= numVertices
      ensures forall j :: 0 <= j < |es| ==> (0 <= es[j].0 <= numVertices && present[es[j].0] &&
        GetEdge(u, es[j].0) == Some(es[j].1) && GetEdge(es[j].0, u) == Some(es[j].1))
      ensures forall i, j :: 0 <= i < j < |es| ==> es[i].0 < es[j].0
      ensures forall v :: 0 <= v <= numVertices && edges[u][v].Some? ==> (v, edges[u][v].value) in es
    {
      var es := Edges(edges[u]);
      assert forall j :: 0 <= j < |es| ==> edges[..][u][es[j].0] == edges[..][es[j].0][u];
      es
    }

    /**
     * add_edge: record the edge in both endpoints' rows with the same weight,
     * replacing any earlier weight, and count one more edge either way.
     */
    method AddEdge(org: int, dest: int, weight: int)
      requires Valid() && 0 <= org <= numVertices && 0 <= dest <= numVertices
      requires present[org] && present[dest]
      modifies this, edges
      ensures Valid() && numEdges == old(numEdges) + 1
      ensures forall u, v :: 0 <= u <= numVertices && 0 <= v <= numVertices ==>
        edges[u][v] == if (u == org && v == dest) || (u == dest && v == org) then Some(weight) else old(edges[u][v])
    {
      edges[org] := edges[org][dest := Some(weight)];
      edges[dest] := edges[dest][org := Some(weight)];
      numEdges := numEdges + 1;
      forall u, v | 0 <= u <= numVertices && 0 <= v <= numVertices
        ensures edges[u][v] == if (u == org && v == dest) || (u == dest && v == org) then Some(weight) else old(edges[u][v])
      {
      }
    }

    /** reset_vertices: every vertex back to distance sys.maxsize and no predecessor. */
    method ResetVertices()
      requires Valid()
      modifies dist, pred
      ensures Valid() && Reset()
    {
      for k := 0 to numVertices + 1
        invariant Valid()
        invariant forall j :: 0 <= j < k ==> dist[j] == INF && pred[j] == NIL
      {
        if present[k] {
          dist[k] := INF;
          pred[k] := NIL;
        }
      }
    }

    /**
     * relax(current): for each neighbour of c in key order whose distance the
     * edge from c lowers, take the lower distance and c as predecessor, then
     * lower its priority if it is queued and queue it otherwise.  Neither
     * change_key nor insert can fail here.
     */
    method Relax(c: int, q: MinPQ)
      requires Valid() && NonNegative(edges[..]) && 0 <= c <= numVertices && Queue(q)
      requires forall u :: u in q.stale ==> dist[u] <= dist[c]
      modifies dist, pred, q, q.arr, q.keys
      ensures Valid() && Queue(q) && q.stale == old(q.stale)
      ensures RelaxedFrom(edges[..], old(dist[..]), dist[..], old(pred[..]), pred[..], c)
      ensures forall x :: x in q.Items() <==>
        x in old(q.Items()) || (0 <= x <= numVertices && Improves(edges[..], old(dist[..]), c, x))
    {
      ghost var e, d0, p0, items0 := edges[..], dist[..], pred[..], q.Items();
      var es := GetEdges(c);
      ghost var seen: set<int> := {};
      var i := 0;
      while i < |es|
        invariant 0 <= i <= |es| && Valid() && Queue(q) && q.stale == old(q.stale)
        invariant dist[c] == d0[c] && forall u :: u in q.stale ==> dist[u] <= dist[c]
        invariant SeenUpTo(es, i, seen)
        invariant RelaxedOn(e, d0, dist[..], p0, pred[..], items0, q.Items(), c, seen)
      {
        var (v, w) := es[i];
        SeenNext(es, i, seen);
        RelaxEdge(c, q, v, w, d0, p0, items0, seen);
        seen := seen + {v};
        i := i + 1;
      }
      forall v | 0 <= v <= numVertices && e[c][v].Some? ensures v in seen {
        var j :| 0 <= j < |es| && es[j] == (v, e[c][v].value);
      }
      RelaxDone(e, d0, dist[..], p0, pred[..], items0, q.Items(), c, seen);
    }

    /** The loop body of relax for the neighbour v of c across an edge of weight w. */
    method RelaxEdge(c: int, q: MinPQ, v: int, w: int,
                     ghost d0: seq<int>, ghost p0: seq<int>, ghost items0: seq<int>, ghost seen: set<int>)
      requires Valid() && NonNegative(edges[..]) && 0 <= c <= numVertices && Queue(q)
      requires |d0| == numVertices + 1 && |p0| == numVertices + 1 && dist[c] == d0[c]
      requires RelaxedOn(edges[..], d0, dist[..], p0, pred[..], items0, q.Items(), c, seen)
      requires 0 <= v <= numVertices && v !in seen && edges[c][v] == Some(w)
      requires forall u :: u in q.stale ==> dist[u] <= dist[c]
      modifies dist, pred, q, q.arr, q.keys
      ensures Valid() && Queue(q) && q.stale == old(q.stale) && dist[c] == d0[c]
      ensures forall u :: u in q.stale ==> dist[u] <= dist[c]
      ensures RelaxedOn(edges[..], d0, dist[..], p0, pred[..], items0, q.Items(), c, seen + {v})
    {
      ghost var d, p, items := dist[..], pred[..], q.Items();
      if dist[v] > dist[c] + w {
        RelaxOne(c, q, v, w);
      }
      RelaxStep(edges[..], d0, d, dist[..], p0, p, pred[..], items0, items, q.Items(), c, seen, v, w);
    }

    /**
     * dijkstra_sp(source): give the source distance 0 and no predecessor,
     * queue it in a fresh queue with room for every vertex, and settle queued
     * vertices in order of distance, relaxing the edges of each.  From any
     * start state this terminates without a queue error, only ever lowers
     * distances, and leaves no edge out of a settled vertex that could lower
     * one.  From the reset state it leaves every edge relaxed and every
     * reached vertex linked to a predecessor settled before it (`rank` is the
     * settle order).
     */
    method DijkstraSp(s: int) returns (ghost rank: map<int, nat>)
      requires Valid() && NonNegative(edges[..]) && 0 <= s <= numVertices && present[s]
      modifies dist, pred
      ensures Valid() && dist[s] == 0 && pred[s] == NIL
      ensures Lowered(old(dist[..]), old(pred[..]), dist[..], pred[..], s)
      ensures Frontier(edges[..], dist[..], [], rank)
      ensures old(Reset()) ==> Solved(edges[..], dist[..], pred[..], s, rank)
    {
      ghost var fromReset := Reset();
      ghost var d0, p0 := dist[..], pred[..];
      var q := Start(s);
      rank := map[];
      while !q.IsEmpty()
        invariant Running(q, s, rank, fromReset, d0, p0)
        decreases numVertices + 1 - |rank|
      {
        SetFits(rank.Keys, numVertices + 1);
        rank := Settle(q, s, rank, fromReset, d0, p0);
      }
      if fromReset {
        Drained(edges[..], dist[..], pred[..], s, rank);
      }
    }

    /**
     * The invariant of the run from source s: the queue's and the engine's
     * own invariants, the source at distance 0, the frontier between settled
     * and queued vertices, distances only lowered since d0, and, for a run
     * from the reset state, the predecessor tree.
     */
    ghost predicate Running(q: MinPQ, s: int, rank: map<int, nat>, fromReset: bool, d0: seq<int>, p0: seq<int>)
      reads this, present, vals, edges, dist, pred, q, q.arr, q.keys
    {
      Valid() && Queue(q) && 0 <= s <= numVertices && dist[s] == 0 && pred[s] == NIL &&
      Frontier(edges[..], dist[..], q.Items(), rank) && q.stale <= rank.Keys &&
      Lowered(d0, p0, dist[..], pred[..], s) &&
      (fromReset ==> Tree(edges[..], dist[..], pred[..], s, q.Items(), rank))
    }

    /**
     * The start of dijkstra_sp: the source at distance 0 with no predecessor,
     * alone in a fresh queue of capacity num_vertices + 1.
     */
    method Start(s: int) returns (q: MinPQ)
      requires Valid() && 0 <= s <= numVertices && present[s]
      modifies dist, pred
      ensures fresh(q) && fresh(q.arr) && fresh(q.keys)
      ensures Valid() && Queue(q) && q.stale == {} && forall x :: x in q.Items() <==> x == s
      ensures dist[s] == 0 && pred[s] == NIL
      ensures Lowered(old(dist[..]), old(pred[..]), dist[..], pred[..], s)
      ensures old(Reset()) ==> Tree(edges[..], dist[..], pred[..], s, q.Items(), map[])
    {
      q := new MinPQ(numVertices + 1);
      pred[s] := NIL;
      dist[s] := 0;
      assert q.Ordered(dist[..]);
      Add(q, dist, s, dist[..]);
      forall x ensures x in q.Items() <==> x == s {
        assert x in q.Items() <==> x in multiset(q.Items());
      }
    }

    /** One round of the run: del_min, then relax the vertex it returns, which is settled next. */
    method Settle(q: MinPQ, s: int, ghost rank: map<int, nat>, ghost fromReset: bool, ghost d0: seq<int>, ghost p0: seq<int>)
      returns (ghost rank': map<int, nat>)
      requires Running(q, s, rank, fromReset, d0, p0) && NonNegative(edges[..]) && q.Items() != []
      modifies dist, pred, q, q.arr, q.keys
      ensures Running(q, s, rank', fromReset, d0, p0) && |rank'| == |rank| + 1
    {
      ghost var e, d1, p1, items1 := edges[..], dist[..], pred[..], q.Items();
      var c := Pop(q, dist);
      assert Queue(q);
      Relax(c, q);
      SettleFrontier(e, d1, dist[..], p1, pred[..], items1, q.Items(), rank, c);
      if fromReset {
        SettleTree(e, d1, dist[..], p1, pred[..], s, items1, q.Items(), rank, c);
      }
      LoweredTrans(d0, p0, d1, p1, dist[..], pred[..], s);
      rank' := rank[c := |rank|];
    }

    /**
     * shortest_path(source, dest) on reset vertices: run dijkstra_sp from the
     * source, then walk the predecessors back from dest.  The distance is at
     * most the weight of every path from source to dest; when it is finite,
     * the hops are those of a path from source to dest of exactly that
     * weight, listed from dest back to the source, and their weights add up
     * to it; when dest is unreachable, or is the source itself, no hop is
     * reported.  `chain` is that path.
     */
    method ShortestPath(s: int, t: int) returns (d: int, path: seq<Hop>, ghost chain: seq<int>)
      requires Valid() && NonNegative(edges[..]) && Reset()
      requires 0 <= s <= numVertices && present[s] && 0 <= t <= numVertices && present[t]
      modifies dist, pred
      ensures Valid() && d == dist[t] && 0 <= d <= INF
      ensures forall p :: IsPath(edges[..], p) && p[0] == s && p[|p| - 1] == t ==> d <= PathWeight(edges[..], p)
      ensures d < INF ==>
        IsPath(edges[..], chain) && chain[0] == s && chain[|chain| - 1] == t &&
        PathWeight(edges[..], chain) == d && path == Trail(edges[..], vals[..], chain) && Total(path) == d
      ensures d == INF || s == t ==> path == []
    {
      var rank := DijkstraSp(s);
      d := dist[t];
      path, chain := WalkBack(s, t, rank);
      forall p | IsPath(edges[..], p) && p[0] == s && p[|p| - 1] == t
        ensures d <= PathWeight(edges[..], p)
      {
        PathBound(edges[..], dist[..], p);
      }
    }

    /**
     * One query of the interactive loop: reset_vertices, then
     * shortest_path(source, dest).  Whatever earlier queries left behind, the
     * answer is the least path weight from source to dest, with the hops of
     * a path of that weight when dest is reachable.
     */
    method Query(s: int, t: int) returns (d: int, path: seq<Hop>, ghost chain: seq<int>)
      requires Valid() && NonNegative(edges[..])
      requires 0 <= s <= numVertices && present[s] && 0 <= t <= numVertices && present[t]
      modifies dist, pred
      ensures Valid() && 0 <= d <= INF
      ensures forall p :: IsPath(edges[..], p) && p[0] == s && p[|p| - 1] == t ==> d <= PathWeight(edges[..], p)
      ensures d < INF ==>
        IsPath(edges[..], chain) && chain[0] == s && chain[|chain| - 1] == t &&
        PathWeight(edges[..], chain) == d && path == Trail(edges[..], vals[..], chain) && Total(path) == d
      ensures d == INF || s == t ==> path == []
    {
      ResetVertices();
      d, path, chain := ShortestPath(s, t);
    }

    /**
     * Two queries for the same source and destination in a row, as the
     * interactive loop would run them: the second distance equals the first,
     * although the first query left its distances and predecessors behind.
     */
    method RepeatQuery(s: int, t: int) returns (d1: int, d2: int)
      requires Valid() && NonNegative(edges[..])
      requires 0 <= s <= numVertices && present[s] && 0 <= t <= numVertices && present[t]
      modifies dist, pred
      ensures Valid() && d1 == d2
    {
      var path1, path2;
      ghost var chain1, chain2;
      d1, path1, chain1 := Query(s, t);
      d2, path2, chain2 := Query(s, t);
      if d1 < INF || d2 < INF {
        assert d1 < INF ==> d2 <= PathWeight(edges[..], chain1);
        assert d2 < INF ==> d1 <= PathWeight(edges[..], chain2);
      }
    }

    /**
     * The loop of shortest_path after a finished run from s: follow
     * predecessors back from t, collecting for each edge the predecessor's
     * value, the vertex's value and the weight get_edge reports.  The hops
     * are those of a path from s to t whose weight is t's distance, unless t
     * is unreached or is s, when there are none.
     */
    method WalkBack(s: int, t: int, ghost rank: map<int, nat>) returns (path: seq<Hop>, ghost chain: seq<int>)
      requires Valid() && NonNegative(edges[..]) && 0 <= s <= numVertices && 0 <= t <= numVertices
      requires dist[s] == 0 && pred[s] == NIL && Solved(edges[..], dist[..], pred[..], s, rank)
      ensures dist[t] < INF ==>
        IsPath(edges[..], chain) && chain[0] == s && chain[|chain| - 1] == t &&
        PathWeight(edges[..], chain) == dist[t] && path == Trail(edges[..], vals[..], chain) && Total(path) == dist[t]
      ensures dist[t] == INF || s == t ==> path == []
    {
      ghost var e, vs, d, p := edges[..], vals[..], dist[..], pred[..];
      path := [];
      chain := [t];
      var cur := t;
      while pred[cur] != NIL
        invariant 0 <= cur <= numVertices && IsPath(e, chain) && chain[0] == cur && chain[|chain| - 1] == t
        invariant path == Trail(e, vs, chain) && d[cur] + PathWeight(e, chain) == d[t]
        invariant d[t] == INF || t == s ==> cur == t && path == []
        decreases if cur in rank then rank[cur] + 1 else 0
      {
        var u := pred[cur];
        StepBack(e, d, p, s, rank, cur);
        var w := GetEdge(cur, u).value;
        path := path + [(vals[u], vals[cur], w)];
        Prepend(e, vs, chain, u);
        chain := [u] + chain;
        cur := u;
      }
      if d[t] < INF {
        Arrived(e, vs, d, p, s, rank, chain, path);
      }
    }

    /** One improving edge of relax: update v and lower or add its queue entry. */
    method RelaxOne(c: int, q: MinPQ, v: int, w: int)
      requires Valid() && NonNegative(edges[..]) && 0 <= c <= numVertices && Queue(q)
      requires 0 <= v <= numVertices && edges[c][v] == Some(w) && dist[v] > dist[c] + w
      requires forall u :: u in q.stale ==> dist[u] <= dist[c]
      modifies dist, pred, q, q.arr, q.keys
      ensures Valid() && Queue(q) && q.stale == old(q.stale)
      ensures dist[..] == old(dist[..])[v := old(dist[c]) + w] && pred[..] == old(pred[..])[v := c]
      ensures forall x :: x in q.Items() <==> x in old(q.Items()) || x == v
    {
      ghost var d0 := dist[..];
      assert edges[..][v][c] == edges[..][c][v];
      dist[v] := dist[c] + w;
      pred[v] := c;
      Requeue(q, dist, v, d0);
    }
  }

  /** del_min on a non-empty queue: the queued key of least priority, now out of the queue. */
  method Pop(q: MinPQ, dist: array<int>) returns (c: int)
    requires q.Valid() && q.FullyIndexed() && q.arr != dist && q.keys != dist
    requires q.Ordered(dist[..]) && q.Items() != []
    modifies q, q.arr, q.keys
    ensures q.Valid() && q.FullyIndexed() && q.Ordered(dist[..])
    ensures c in old(q.Items()) && forall x :: x in old(q.Items()) ==> dist[c] <= dist[x]
    ensures forall x :: x in q.Items() <==> x in old(q.Items()) && x != c
    ensures q.stale <= old(q.stale) + {c}
  {
    ghost var items0 := q.Items();
    var r := q.DelMin(dist);
    c := r.value;
    assert Distinct(items0, |items0|);
    TakenOut(items0, q.Items(), c);
  }

  /**
   * The queue side of relax once v's priority has been lowered in `dist`:
   * change_key if contains(v) says v is queued, insert otherwise.  Neither can
   * fail: a stale index entry is never for v, and the queue has room for
   * every key in [0, |dist|).
   */
  method Requeue(q: MinPQ, dist: array<int>, v: int, ghost d0: seq<int>)
    requires q.Valid() && q.FullyIndexed() && q.arr != dist && q.keys != dist
    requires q.capacity == dist.Length && q.Ordered(d0) && |d0| == dist.Length
    requires 0 <= v < dist.Length && dist[..] == d0[v := dist[v]] && dist[v] <= d0[v]
    requires v !in q.stale && forall x :: x in q.Items() ==> 0 <= x < dist.Length
    modifies q, q.arr, q.keys
    ensures q.Valid() && q.FullyIndexed() && q.Ordered(dist[..]) && q.stale == old(q.stale)
    ensures forall x :: x in q.Items() <==> x in old(q.Items()) || x == v
  {
    ghost var items0 := q.Items();
    var found := q.ContainsAsWritten(v);
    if found.value {
      Lower(q, dist, v, d0);
    } else {
      Add(q, dist, v, d0);
    }
    forall x ensures x in q.Items() <==> x in items0 || x == v {
      assert x in q.Items() <==> x in multiset(q.Items());
      assert x in items0 <==> x in multiset(items0);
    }
  }

  /** change_key on a queued v whose priority went down: it cannot fail. */
  method Lower(q: MinPQ, dist: array<int>, v: int, ghost d0: seq<int>)
    requires q.Valid() && q.FullyIndexed() && q.arr != dist && q.keys != dist
    requires q.Ordered(d0) && |d0| == dist.Length
    requires 0 <= v < dist.Length && dist[..] == d0[v := dist[v]] && dist[v] <= d0[v]
    requires v in q.Items()
    modifies q.arr, q.keys
    ensures q.Valid() && q.FullyIndexed() && q.Ordered(dist[..]) && q.stale == old(q.stale)
    ensures multiset(q.Items()) == multiset(old(q.Items()))
  {
    ghost var a, ks := q.arr[..], q.keys[..];
    ghost var j :| 0 <= j < q.numItems && a[j] == v;
    assert ks[a[j]] == j;
    assert Distinct(a, q.numItems);
    LowerPriority(a, q.numItems, d0, j, dist[v]);
    assert d0[a[j] := dist[v]] == dist[..];
    var r := q.ChangeKey(v, dist);
    assert r == Pass;
  }

  /** insert of a v that is not queued: the queue has room for it. */
  method Add(q: MinPQ, dist: array<int>, v: int, ghost d0: seq<int>)
    requires q.Valid() && q.FullyIndexed() && q.arr != dist && q.keys != dist
    requires q.capacity == dist.Length && q.Ordered(d0) && |d0| == dist.Length
    requires 0 <= v < dist.Length && dist[..] == d0[v := dist[v]]
    requires v !in q.Items() && forall x :: x in q.Items() ==> 0 <= x < dist.Length
    modifies q, q.arr, q.keys
    ensures q.Valid() && q.FullyIndexed() && q.Ordered(dist[..]) && q.stale == old(q.stale) - {v}
    ensures multiset(q.Items()) == multiset(old(q.Items())) + multiset{v}
  {
    PriorityOfAbsent(q.arr[..], q.numItems, d0, v, dist[v]);
    assert Distinct(q.Items(), |q.Items()|);
    RoomFor(q.Items(), v, dist.Length);
    assert q.numItems < q.capacity;
    var r := q.Insert(v, dist);
    assert r == Pass;
  }

  /** The road between two places of the map below, if any: 1-2 at 100, 2-3 at 200, 1-3 at 400. */
  function Road(u: int, v: int): Option<int>
  {
    if (u == 1 && v == 2) || (u == 2 && v == 1) then Some(100)
    else if (u == 2 && v == 3) || (u == 3 && v == 2) then Some(200)
    else if (u == 1 && v == 3) || (u == 3 && v == 1) then Some(400)
    else None
  }

  /** The rows of the road map. */
  function RoadRows(): (e: seq<Row>)
    ensures |e| == 4 && Square(e) && Symmetric(e) && NonNegative(e)
    ensures forall u, v :: 0 <= u < 4 && 0 <= v < 4 ==> e[u][v] == Road(u, v)
  {
    seq(4, u => seq(4, v => Road(u, v)))
  }

  /**
   * Over the road map, a distance that bounds every path from 1 to 3 below
   * and is the weight of one of them is 300: every path weighs at least 300,
   * and the one through 2 weighs exactly that.
   */
  lemma RoadAnswer(d: int, chain: seq<int>)
    requires forall p :: IsPath(RoadRows(), p) && p[0] == 1 && p[|p| - 1] == 3 ==> d <= PathWeight(RoadRows(), p)
    requires d < INF ==> IsPath(RoadRows(), chain) && chain[0] == 1 && chain[|chain| - 1] == 3 && PathWeight(RoadRows(), chain) == d
    ensures d == 300
  {
    RoadVia();
    RoadBound(chain);
  }

  /** The road from 1 to 3 through 2 weighs 300. */
  lemma RoadVia()
    ensures IsPath(RoadRows(), [1, 2, 3]) && PathWeight(RoadRows(), [1, 2, 3]) == 300
  {
    var e: seq<Row> := RoadRows();
    var via := [1, 2, 3];
    assert IsPath(e, via);
    assert PathWeight(e, via[2..]) == 0;
  }

  /** Every path from 1 to 3 over the road map weighs at least 300. */
  lemma RoadBound(p: seq<int>)
    requires IsPath(RoadRows(), p) && p[0] == 1 && p[|p| - 1] == 3
    ensures PathWeight(RoadRows(), p) >= 300
  {
    var e: seq<Row> := RoadRows();
    // Potentials that no edge can lower.
    var bound := [0, 0, 100, 300];
    forall u: int, v: int | 0 <= u < |e| && 0 <= v < |e| && e[u][v].Some?
      ensures bound[v] <= bound[u] + e[u][v].value
    {
      assert e[u][v] == Road(u, v);
    }
    PathBound(e, bound, p);
  }

  /**
   * Los Angeles (1), Bakersfield (2) and San Francisco (3) added with
   * add_vertex, then joined with add_edge.
   */
  method BuildRoadMap() returns (g: DijkstraSP)
    ensures g.Valid() && g.numVertices == 3 && g.edges[..] == RoadRows()
    ensures g.present[1] && g.present[3]
    ensures fresh(g.present) && fresh(g.vals) && fresh(g.edges) && fresh(g.dist) && fresh(g.pred)
  {
    g := new DijkstraSP(3);
    g.AddVertex(1, "Los Angeles");
    g.AddVertex(2, "Bakersfield");
    g.AddVertex(3, "San Francisco");
    g.AddEdge(1, 2, 100);
    g.AddEdge(2, 3, 200);
    g.AddEdge(1, 3, 400);
    forall u | 0 <= u <= 3 ensures g.edges[u] == RoadRows()[u] {
      assert |g.edges[u]| == 4;
    }
  }

  /** A query from Los Angeles to San Francisco goes through Bakersfield, at 300. */
  method RoadMap() returns (d: int)
    ensures d == 300
  {
    var g := BuildRoadMap();
    var path;
    ghost var chain;
    d, path, chain := g.Query(1, 3);
    RoadAnswer(d, chain);
  }
}
