/**
 * The adjacency structure of dijkstra_sp.py as values: one row per vertex,
 * indexed by neighbour key, holding the weight of the edge to that neighbour
 * or nothing.  Paths, their weights, the triangle inequality that a finished
 * relaxation leaves behind, and the destination-to-source list of hops that
 * `shortest_path` reports.
 */
module Graph {
  import opened Outcomes

  /** sys.maxsize, the distance of a vertex no run has reached. */
  const INF: int := 0x7FFF_FFFF_FFFF_FFFF

  /** A vertex's `edges` list: entry k is the weight of the edge to vertex k, if any. */
  type Row = seq<Option<int>>

  /** One reported hop: the predecessor's value, the vertex's value, the edge weight. */
  type Hop = (string, string, int)

  /**
   * Vertex.get_edges: the (neighbour key, weight) pairs of the non-empty
   * entries of a row, in increasing neighbour-key order.
   */
  function Edges(row: Row): (es: seq<(int, int)>)
    ensures forall j :: 0 <= j < |es| ==> 0 <= es[j].0 < |row| && row[es[j].0] == Some(es[j].1)
    ensures forall i, j :: 0 <= i < j < |es| ==> es[i].0 < es[j].0
    ensures forall v :: 0 <= v < |row| && row[v].Some? ==> (v, row[v].value) in es
  {
    if row == [] then []
    else
      var last := |row| - 1;
      Edges(row[..last]) + if row[last].Some? then [(last, row[last].value)] else []
  }

  /** Every row has one entry per vertex. */
  ghost predicate Square(e: seq<Row>)
  {
    forall u :: 0 <= u < |e| ==> |e[u]| == |e|
  }

  /** Each undirected edge is recorded with the same weight in both endpoints' rows. */
  ghost predicate Symmetric(e: seq<Row>)
    requires Square(e)
  {
    forall u, v :: 0 <= u < |e| && 0 <= v < |e| ==> e[u][v] == e[v][u]
  }

  /** No edge has a negative weight. */
  ghost predicate NonNegative(e: seq<Row>)
    requires Square(e)
  {
    forall u, v :: 0 <= u < |e| && 0 <= v < |e| && e[u][v].Some? ==> e[u][v].value >= 0
  }

  /** A walk p[0], p[1], ... along edges of the graph. */
  ghost predicate IsPath(e: seq<Row>, p: seq<int>)
    requires Square(e)
  {
    |p| >= 1 && (forall i :: 0 <= i < |p| ==> 0 <= p[i] < |e|) &&
    forall i :: 0 <= i < |p| - 1 ==> e[p[i]][p[i + 1]].Some?
  }

  /** The sum of the edge weights along a path. */
  ghost function PathWeight(e: seq<Row>, p: seq<int>): int
    requires Square(e) && IsPath(e, p)
    decreases |p|
  {
    if |p| == 1 then 0 else e[p[0]][p[1]].value + PathWeight(e, p[1..])
  }

  /** Along a path of non-negative edges the weight never drops below zero. */
  lemma {:induction false} PathWeightNonNegative(e: seq<Row>, p: seq<int>)
    requires Square(e) && NonNegative(e) && IsPath(e, p)
    ensures PathWeight(e, p) >= 0
    decreases |p|
  {
    if |p| > 1 {
      PathWeightNonNegative(e, p[1..]);
    }
  }

  /** No edge can lower any distance in `d`: the state a finished relaxation leaves. */
  ghost predicate Relaxed(e: seq<Row>, d: seq<int>)
    requires Square(e) && |d| == |e|
  {
    forall u, v :: 0 <= u < |e| && 0 <= v < |e| && e[u][v].Some? ==> d[v] <= d[u] + e[u][v].value
  }

  /**
   * Once no edge can lower a distance, the distance at the end of any path is
   * at most the distance at its start plus the path's weight.
   */
  lemma {:induction false} PathBound(e: seq<Row>, d: seq<int>, p: seq<int>)
    requires Square(e) && |d| == |e| && Relaxed(e, d) && IsPath(e, p)
    ensures d[p[|p| - 1]] <= d[p[0]] + PathWeight(e, p)
    decreases |p|
  {
    if |p| > 1 {
      var rest := p[1..];
      assert IsPath(e, rest);
      PathBound(e, d, rest);
      assert rest[|rest| - 1] == p[|p| - 1];
    }
  }

  /**
   * The hops `shortest_path` collects for a path p[0] .. p[m], walking back
   * from p[m]: hop i joins p[m-1-i] to p[m-i], with the weight read from the
   * later vertex's row.
   */
  ghost function Trail(e: seq<Row>, vals: seq<string>, p: seq<int>): (h: seq<Hop>)
    requires Square(e) && Symmetric(e) && IsPath(e, p) && |vals| == |e|
    ensures |h| == |p| - 1
    decreases |p|
  {
    if |p| == 1 then []
    else
      assert IsPath(e, p[1..]);
      Trail(e, vals, p[1..]) + [(vals[p[0]], vals[p[1]], e[p[1]][p[0]].value)]
  }

  /** Putting u in front of a path along the edge from u to its first vertex. */
  lemma Prepend(e: seq<Row>, vals: seq<string>, p: seq<int>, u: int)
    requires Square(e) && Symmetric(e) && IsPath(e, p) && |vals| == |e|
    requires 0 <= u < |e| && e[u][p[0]].Some?
    ensures IsPath(e, [u] + p) && PathWeight(e, [u] + p) == e[u][p[0]].value + PathWeight(e, p)
    ensures Trail(e, vals, [u] + p) == Trail(e, vals, p) + [(vals[u], vals[p[0]], e[p[0]][u].value)]
  {
    assert ([u] + p)[1..] == p;
  }

  /** The sum of the weights of a list of hops. */
  function Total(h: seq<Hop>): int
  {
    if h == [] then 0 else Total(h[..|h| - 1]) + h[|h| - 1].2
  }

  /** The hops of a path add up to the path's weight. */
  lemma {:induction false} TrailWeight(e: seq<Row>, vals: seq<string>, p: seq<int>)
    requires Square(e) && Symmetric(e) && IsPath(e, p) && |vals| == |e|
    ensures Total(Trail(e, vals, p)) == PathWeight(e, p)
    decreases |p|
  {
    if |p| > 1 {
      assert IsPath(e, p[1..]);
      TrailWeight(e, vals, p[1..]);
      var h := Trail(e, vals, p);
      assert h[..|h| - 1] == Trail(e, vals, p[1..]);
    }
  }

  /** The hops of a path name its vertices from the last back to the first. */
  lemma {:induction false} TrailHops(e: seq<Row>, vals: seq<string>, p: seq<int>, i: int)
    requires Square(e) && Symmetric(e) && IsPath(e, p) && |vals| == |e| && 0 <= i < |p| - 1
    ensures var m := |p| - 1;
      Trail(e, vals, p)[i] == (vals[p[m - 1 - i]], vals[p[m - i]], e[p[m - i]][p[m - 1 - i]].value)
    decreases |p|
  {
    assert IsPath(e, p[1..]);
    if i < |p| - 2 {
      TrailHops(e, vals, p[1..], i);
    }
  }

  /** A set of keys drawn from [0, m) has at most m members. */
  lemma {:induction false} SetFits(s: set<int>, m: nat)
    requires forall x :: x in s ==> 0 <= x < m
    ensures |s| <= m
    decreases m
  {
    if m > 0 {
      var t := s - {m - 1};
      SetFits(t, m - 1);
      if m - 1 in s {
        assert s == t + {m - 1};
      } else {
        assert s == t;
      }
    } else {
      assert forall x :: x !in s;
      assert s == {};
    }
  }
}
