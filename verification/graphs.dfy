/** Directed graphs with real edge weights, as the shortest-path solvers see
    them: each vertex lists its outgoing edges, and a vertex with no entry has
    none. Paths are sequences of edges, each leaving where the previous one
    arrived. */
module Graphs {
  import opened Sequences

  /** A weighted directed edge. Weights are reals: IEEE double rounding is not modelled. */
  datatype Edge<V> = Edge(from: V, to: V, weight: real)

  /** Every edge listed for a vertex leaves that vertex, as `neighbors` promises. */
  predicate WellFormed<V>(g: map<V, seq<Edge<V>>>) {
    forall v, i :: v in g && 0 <= i < |g[v]| ==> g[v][i].from == v
  }

  /** An adjacency-list graph. */
  type Graph<V> = g: map<V, seq<Edge<V>>> | WellFormed(g) witness map[]

  /** `neighbors(v)`: the outgoing edges of `v`, none when `v` has no entry. */
  function Neighbors<V>(g: Graph<V>, v: V): (r: seq<Edge<V>>)
    ensures forall e :: e in r ==> e.from == v
    ensures v !in g ==> r == []
  {
    if v in g then g[v] else []
  }

  /** Every vertex that has an entry or is the target of an edge; a finite set. */
  function Vertices<V(!new)>(g: Graph<V>): (r: set<V>)
    ensures forall v, e :: e in Neighbors(g, v) ==> v in r && e.to in r
  {
    g.Keys + (set v, e | v in g && e in g[v] :: e.to)
  }

  /** `p` is a path of graph edges from `x` to `y`; the empty path joins a vertex to itself. */
  predicate IsPath<V>(g: Graph<V>, p: seq<Edge<V>>, x: V, y: V) {
    if |p| == 0 then x == y
    else
      && p[0].from == x && p[|p| - 1].to == y
      && (forall i :: 0 <= i < |p| ==> p[i] in Neighbors(g, p[i].from))
      && (forall i :: 0 <= i < |p| - 1 ==> p[i].to == p[i + 1].from)
  }

  ghost predicate Reaches<V(!new)>(g: Graph<V>, x: V, y: V) {
    exists p :: IsPath(g, p, x, y)
  }

  /** No non-empty path returns to where it started. */
  ghost predicate Acyclic<V(!new)>(g: Graph<V>) {
    forall p, x :: IsPath(g, p, x, x) ==> |p| == 0
  }

  /** Total weight of a path. */
  function Weight<V>(p: seq<Edge<V>>): real {
    if |p| == 0 then 0.0 else Weight(p[..|p| - 1]) + p[|p| - 1].weight
  }

  /** Every edge of `p` leaves a vertex of `d`. */
  predicate SourcesIn<V>(p: seq<Edge<V>>, d: set<V>) {
    forall j :: 0 <= j < |p| ==> p[j].from in d
  }

  lemma EmptyPath<V(!new)>(g: Graph<V>, x: V)
    ensures IsPath(g, [], x, x) && Reaches(g, x, x)
  {
    assert IsPath(g, [], x, x);
  }

  /** Extending a path by an edge out of its end. */
  lemma PathAppend<V>(g: Graph<V>, p: seq<Edge<V>>, x: V, y: V, e: Edge<V>)
    requires IsPath(g, p, x, y) && e in Neighbors(g, y)
    ensures IsPath(g, p + [e], x, e.to)
    ensures Weight(p + [e]) == Weight(p) + e.weight
  {
    var q := p + [e];
    assert q[..|q| - 1] == p;
    forall i | 0 <= i < |q| ensures q[i] in Neighbors(g, q[i].from) {
      if i == |p| {
        assert q[i] == e;
      } else {
        assert q[i] == p[i];
      }
    }
  }

  /** A non-empty path is a shorter path followed by one edge. */
  lemma PathInit<V>(g: Graph<V>, p: seq<Edge<V>>, x: V, y: V)
    requires IsPath(g, p, x, y) && |p| > 0
    ensures IsPath(g, p[..|p| - 1], x, p[|p| - 1].from)
    ensures p[|p| - 1] in Neighbors(g, p[|p| - 1].from) && p[|p| - 1].to == y
    ensures Weight(p) == Weight(p[..|p| - 1]) + p[|p| - 1].weight
  {
    var q := p[..|p| - 1];
    if |q| > 0 {
      assert q[|q| - 1].to == p[|p| - 1].from;
      assert forall i :: 0 <= i < |q| ==> q[i] == p[i];
    }
  }

  /** Every suffix of a path is a path from its first edge's source. */
  lemma PathSuffix<V>(g: Graph<V>, p: seq<Edge<V>>, x: V, y: V, j: int)
    requires IsPath(g, p, x, y) && 0 <= j < |p|
    ensures IsPath(g, p[j..], p[j].from, y)
  {
    var q := p[j..];
    assert forall i :: 0 <= i < |q| ==> q[i] == p[j + i];
  }

  lemma PathConcat<V>(g: Graph<V>, p: seq<Edge<V>>, q: seq<Edge<V>>, x: V, y: V, z: V)
    requires IsPath(g, p, x, y) && IsPath(g, q, y, z)
    ensures IsPath(g, p + q, x, z)
  {
    var r := p + q;
    if |p| > 0 && |q| > 0 {
      forall i | 0 <= i < |r| ensures r[i] in Neighbors(g, r[i].from) {
        if i < |p| { assert r[i] == p[i]; } else { assert r[i] == q[i - |p|]; }
      }
      forall i | 0 <= i < |r| - 1 ensures r[i].to == r[i + 1].from {
        if i < |p| - 1 {
          assert r[i] == p[i] && r[i + 1] == p[i + 1];
        } else if i == |p| - 1 {
          assert r[i] == p[i] && r[i + 1] == q[0];
        } else {
          assert r[i] == q[i - |p|] && r[i + 1] == q[i - |p| + 1];
        }
      }
    } else if |p| == 0 {
      assert r == q;
    } else {
      assert r == p;
    }
  }

  lemma ReachesTrans<V(!new)>(g: Graph<V>, x: V, y: V, z: V)
    requires Reaches(g, x, y) && Reaches(g, y, z)
    ensures Reaches(g, x, z)
  {
    var p :| IsPath(g, p, x, y);
    var q :| IsPath(g, q, y, z);
    PathConcat(g, p, q, x, y, z);
  }

  /** An edge out of a reached vertex reaches its target. */
  lemma ReachesStep<V(!new)>(g: Graph<V>, x: V, y: V, e: Edge<V>)
    requires Reaches(g, x, y) && e in Neighbors(g, y)
    ensures Reaches(g, x, e.to)
  {
    var p :| IsPath(g, p, x, y);
    PathAppend(g, p, x, y, e);
  }

  /** In an acyclic graph no edge leads back to a vertex that reaches its source. */
  lemma NoBackEdge<V(!new)>(g: Graph<V>, u: V, e: Edge<V>)
    requires Acyclic(g) && e in Neighbors(g, u)
    ensures !Reaches(g, e.to, u)
  {
    if p :| IsPath(g, p, e.to, u) {
      PathAppend(g, p, e.to, u, e);
    }
  }
}
