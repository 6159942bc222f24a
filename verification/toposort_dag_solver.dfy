/** Single-source shortest paths on a directed acyclic graph: a depth-first
    search lists the vertices reachable from the start in postorder, the
    reversed list is a topological order, and relaxing every outgoing edge of
    each vertex in that order settles all distances in one pass. */
module ToposortDAGSolver {
  import opened Results
  import opened Sequences
  import opened Graphs

  /** The state of `dfsPostOrder`: the visited set and the postorder list. */
  datatype Search<V> = Search(visited: set<V>, post: seq<V>)

  /** Visited but not yet finished: the vertices on the recursion stack. */
  function Active<V>(s: Search<V>): set<V> {
    s.visited - Members(s.post)
  }

  /** Finished vertices are visited, and none is finished twice. */
  predicate WellKept<V(==)>(s: Search<V>) {
    Members(s.post) <= s.visited && Distinct(s.post)
  }

  /** `r` continues `s`: it keeps the visited set and the postorder, and the
      vertices it newly visits are exactly the ones it newly finishes. */
  predicate Extends<V>(s: Search<V>, r: Search<V>) {
    && s.visited <= r.visited
    && |s.post| <= |r.post| && r.post[..|s.post|] == s.post
    && r.visited - s.visited == Members(r.post[|s.post|..])
  }

  /** Every vertex finished between `s` and `r` had all its successors visited. */
  predicate SuccessorsVisited<V>(g: Graph<V>, s: Search<V>, r: Search<V>) {
    forall i, e :: |s.post| <= i < |r.post| && e in Neighbors(g, r.post[i]) ==> e.to in r.visited
  }

  /** Every edge out of a vertex finished between `s` and `r` leads to a vertex
      finished earlier, or else to one from which the vertex is reachable
      (a back edge, closing a cycle). */
  ghost predicate EdgesPointBack<V(!new)>(g: Graph<V>, s: Search<V>, r: Search<V>) {
    forall i, e :: |s.post| <= i < |r.post| && e in Neighbors(g, r.post[i]) ==>
      e.to in r.post[..i] || Reaches(g, e.to, r.post[i])
  }

  /** Every vertex visited between `s` and `r` is reachable from `x`. */
  ghost predicate ReachedFrom<V(!new)>(g: Graph<V>, x: V, s: Search<V>, r: Search<V>) {
    forall y :: y in r.visited - s.visited ==> Reaches(g, x, y)
  }

  /** Every vertex on the recursion stack reaches `v`. */
  ghost predicate StackReaches<V(!new)>(g: Graph<V>, s: Search<V>, v: V) {
    forall x :: x in Active(s) ==> Reaches(g, x, v)
  }

  /** `dfsPostOrder(graph, v, visited, result)`: mark `v`, search from each
      unvisited target of its edges in list order, then append `v`. */
  function Dfs<V(!new)>(g: Graph<V>, v: V, s: Search<V>): (r: Search<V>)
    requires v !in s.visited && WellKept(s)
    ensures Extends(s, r) && WellKept(r) && Active(r) == Active(s)
    ensures v in r.visited && |r.post| > |s.post| && r.post[|r.post| - 1] == v
    ensures SuccessorsVisited(g, s, r)
    ensures ReachedFrom(g, v, s, r)
    ensures StackReaches(g, s, v) ==> EdgesPointBack(g, s, r)
    decreases |(Vertices(g) + {v}) - s.visited|, 0, 0
  {
    var s0 := Search(s.visited + {v}, s.post);
    FewerUnvisited(Vertices(g), v, s.visited);
    var s1 := DfsEdges(g, v, 0, s0);
    var r := Search(s1.visited, s1.post + [v]);
    FinishVertex(g, v, s, s0, s1, r);
    r
  }

  /** The loop of `dfsPostOrder` over the edges of `u` from the `k`-th on. */
  function DfsEdges<V(!new)>(g: Graph<V>, u: V, k: nat, s: Search<V>): (r: Search<V>)
    requires k <= |Neighbors(g, u)|
    requires u in Active(s) && WellKept(s)
    ensures Extends(s, r) && WellKept(r) && Active(r) == Active(s)
    ensures forall j :: k <= j < |Neighbors(g, u)| ==> Neighbors(g, u)[j].to in r.visited
    ensures SuccessorsVisited(g, s, r)
    ensures ReachedFrom(g, u, s, r)
    ensures StackReaches(g, s, u) ==> EdgesPointBack(g, s, r)
    decreases |Vertices(g) - s.visited|, 1, |Neighbors(g, u)| - k
  {
    if k == |Neighbors(g, u)| then
      assert s.post[|s.post|..] == [];
      s
    else
      var w := Neighbors(g, u)[k].to;
      if w in s.visited then
        DfsEdges(g, u, k + 1, s)
      else
        assert Vertices(g) + {w} == Vertices(g);
        var s1 := Dfs(g, w, s);
        NoMoreUnvisited(Vertices(g), s.visited, s1.visited);
        var r := DfsEdges(g, u, k + 1, s1);
        ChildThenRest(g, u, k, s, s1, r);
        r
  }

  lemma FewerUnvisited<V>(all: set<V>, v: V, visited: set<V>)
    requires v !in visited
    ensures |all - (visited + {v})| < |(all + {v}) - visited|
  {
    var a, b := all - (visited + {v}), (all + {v}) - visited;
    assert b == a + {v} && v !in a;
  }

  lemma NoMoreUnvisited<V>(all: set<V>, a: set<V>, b: set<V>)
    requires a <= b
    ensures |all - b| <= |all - a|
  {
    var x, y := all - b, all - a;
    assert y == x + (y - x);
  }

  /** Finishing `v` after searching its edges keeps every promise of `Dfs`. */
  lemma FinishVertex<V(!new)>(g: Graph<V>, v: V, s: Search<V>, s0: Search<V>, s1: Search<V>, r: Search<V>)
    requires v !in s.visited && WellKept(s)
    requires s0 == Search(s.visited + {v}, s.post)
    requires Extends(s0, s1) && WellKept(s1) && Active(s1) == Active(s0)
    requires forall j :: 0 <= j < |Neighbors(g, v)| ==> Neighbors(g, v)[j].to in s1.visited
    requires SuccessorsVisited(g, s0, s1)
    requires ReachedFrom(g, v, s0, s1)
    requires StackReaches(g, s0, v) ==> EdgesPointBack(g, s0, s1)
    requires r == Search(s1.visited, s1.post + [v])
    ensures Extends(s, r) && WellKept(r) && Active(r) == Active(s)
    ensures v in r.visited && |r.post| > |s.post| && r.post[|r.post| - 1] == v
    ensures SuccessorsVisited(g, s, r)
    ensures ReachedFrom(g, v, s, r)
    ensures StackReaches(g, s, v) ==> EdgesPointBack(g, s, r)
  {
    FinishKeepsSearch(v, s, s0, s1, r);
    FinishSuccessors(g, v, s, s1, r);
    forall y | y in r.visited - s.visited ensures Reaches(g, v, y) {
      if y == v {
        EmptyPath(g, v);
      }
    }
    if StackReaches(g, s, v) {
      EmptyPath(g, v);
      assert StackReaches(g, s0, v);
      FinishPointsBack(g, v, s, s0, s1, r);
    }
  }

  lemma FinishKeepsSearch<V>(v: V, s: Search<V>, s0: Search<V>, s1: Search<V>, r: Search<V>)
    requires v !in s.visited && WellKept(s)
    requires s0 == Search(s.visited + {v}, s.post)
    requires Extends(s0, s1) && WellKept(s1) && Active(s1) == Active(s0)
    requires r == Search(s1.visited, s1.post + [v])
    ensures Extends(s, r) && WellKept(r) && Active(r) == Active(s)
    ensures v in r.visited && |r.post| > |s.post| && r.post[|r.post| - 1] == v
  {
    var n := |s.post|;
    assert v in Active(s0);
    assert v !in Members(s1.post);
    AppendMembers(s1.post, v);
    AppendDistinct(s1.post, v);
    assert Active(r) == Active(s1) - {v};
    assert v !in Members(s.post);
    assert Active(s0) - {v} == Active(s);
    assert r.post[..n] == s.post by {
      assert r.post[..n] == s1.post[..n];
    }
    assert r.post[n..] == s1.post[n..] + [v];
    AppendMembers(s1.post[n..], v);
  }

  lemma FinishSuccessors<V>(g: Graph<V>, v: V, s: Search<V>, s1: Search<V>, r: Search<V>)
    requires |s.post| <= |s1.post|
    requires forall j :: 0 <= j < |Neighbors(g, v)| ==> Neighbors(g, v)[j].to in s1.visited
    requires SuccessorsVisited(g, s, s1)
    requires r == Search(s1.visited, s1.post + [v])
    ensures SuccessorsVisited(g, s, r)
  {
    forall i, e | |s.post| <= i < |r.post| && e in Neighbors(g, r.post[i]) ensures e.to in r.visited {
      if i < |s1.post| {
        assert r.post[i] == s1.post[i];
      } else {
        var j :| 0 <= j < |Neighbors(g, v)| && Neighbors(g, v)[j] == e;
      }
    }
  }

  lemma FinishPointsBack<V(!new)>(g: Graph<V>, v: V, s: Search<V>, s0: Search<V>, s1: Search<V>, r: Search<V>)
    requires StackReaches(g, s, v) && StackReaches(g, s0, v)
    requires s0 == Search(s.visited + {v}, s.post)
    requires |s.post| <= |s1.post| && Active(s1) == Active(s0)
    requires forall j :: 0 <= j < |Neighbors(g, v)| ==> Neighbors(g, v)[j].to in s1.visited
    requires EdgesPointBack(g, s0, s1)
    requires r == Search(s1.visited, s1.post + [v])
    ensures EdgesPointBack(g, s, r)
  {
    forall i, e | |s.post| <= i < |r.post| && e in Neighbors(g, r.post[i])
      ensures e.to in r.post[..i] || Reaches(g, e.to, r.post[i])
    {
      if i < |s1.post| {
        assert r.post[i] == s1.post[i] && r.post[..i] == s1.post[..i];
      } else {
        assert r.post[..i] == s1.post;
        var j :| 0 <= j < |Neighbors(g, v)| && Neighbors(g, v)[j] == e;
        if e.to !in Members(s1.post) {
          assert e.to in Active(s0);
        }
      }
    }
  }

  /** A search from the `k`-th target followed by the rest of the loop keeps
      every promise of the loop. */
  lemma ChildThenRest<V(!new)>(g: Graph<V>, u: V, k: nat, s: Search<V>, s1: Search<V>, r: Search<V>)
    requires k < |Neighbors(g, u)|
    requires u in Active(s) && WellKept(s)
    requires Neighbors(g, u)[k].to !in s.visited
    requires Extends(s, s1) && WellKept(s1) && Active(s1) == Active(s)
    requires Neighbors(g, u)[k].to in s1.visited
    requires SuccessorsVisited(g, s, s1)
    requires ReachedFrom(g, Neighbors(g, u)[k].to, s, s1)
    requires StackReaches(g, s, Neighbors(g, u)[k].to) ==> EdgesPointBack(g, s, s1)
    requires Extends(s1, r) && WellKept(r) && Active(r) == Active(s1)
    requires forall j :: k + 1 <= j < |Neighbors(g, u)| ==> Neighbors(g, u)[j].to in r.visited
    requires SuccessorsVisited(g, s1, r)
    requires ReachedFrom(g, u, s1, r)
    requires StackReaches(g, s1, u) ==> EdgesPointBack(g, s1, r)
    ensures Extends(s, r)
    ensures forall j :: k <= j < |Neighbors(g, u)| ==> Neighbors(g, u)[j].to in r.visited
    ensures SuccessorsVisited(g, s, r)
    ensures ReachedFrom(g, u, s, r)
    ensures StackReaches(g, s, u) ==> EdgesPointBack(g, s, r)
  {
    var e := Neighbors(g, u)[k];
    var n, n1 := |s.post|, |s1.post|;
    assert r.post[..n] == s.post by {
      assert r.post[..n] == r.post[..n1][..n];
    }
    assert r.post[n..] == s1.post[n..] + r.post[n1..] by {
      assert r.post == r.post[..n1] + r.post[n1..];
    }
    assert Members(r.post[n..]) == Members(s1.post[n..]) + Members(r.post[n1..]);
    forall i, f | n <= i < |r.post| && f in Neighbors(g, r.post[i]) ensures f.to in r.visited {
      if i < n1 {
        assert r.post[i] == s1.post[i];
      }
    }
    EmptyPath(g, u);
    assert Reaches(g, u, e.to) by {
      ReachesStep(g, u, u, e);
    }
    forall y | y in r.visited - s.visited ensures Reaches(g, u, y) {
      if y in s1.visited - s.visited {
        ReachesTrans(g, u, e.to, y);
      }
    }
    if StackReaches(g, s, u) {
      forall x | x in Active(s) ensures Reaches(g, x, e.to) {
        ReachesStep(g, x, u, e);
      }
      forall i, f | n <= i < |r.post| && f in Neighbors(g, r.post[i])
        ensures f.to in r.post[..i] || Reaches(g, f.to, r.post[i])
      {
        if i < n1 {
          assert r.post[i] == s1.post[i] && r.post[..i] == s1.post[..i];
        }
      }
    }
  }

  /** The postorder the constructor computes from `start`. */
  function PostOrder<V(!new)>(g: Graph<V>, start: V): seq<V> {
    Dfs(g, start, Search({}, [])).post
  }

  /** The order in which the constructor relaxes the vertices' edges. */
  function RelaxOrder<V(!new)>(g: Graph<V>, start: V): seq<V> {
    Reverse(PostOrder(g, start))
  }

  /** The search from the start lists each vertex reachable from it exactly
      once, the start last, every vertex after all its successors except
      along back edges; on an acyclic graph there are none. */
  lemma PostOrderFacts<V(!new)>(g: Graph<V>, start: V)
    ensures var post := PostOrder(g, start);
      && Distinct(post) && |post| > 0 && post[|post| - 1] == start
      && (forall x :: x in post <==> Reaches(g, start, x))
      && (forall i, e :: 0 <= i < |post| && e in Neighbors(g, post[i]) ==> e.to in post)
      && (Acyclic(g) ==> forall i, e :: 0 <= i < |post| && e in Neighbors(g, post[i]) ==> e.to in post[..i])
  {
    var s := Search({}, []);
    var r := Dfs(g, start, s);
    var post := r.post;
    assert post[0..] == post;
    assert r.visited == Members(post);
    forall x | Reaches(g, start, x) ensures x in post {
      var p :| IsPath(g, p, start, x);
      ClosedUnderEdges(g, Members(post), p, start, x);
    }
    if Acyclic(g) {
      assert StackReaches(g, s, start);
      forall i, e | 0 <= i < |post| && e in Neighbors(g, post[i]) ensures e.to in post[..i] {
        NoBackEdge(g, post[i], e);
      }
    }
  }

  /** A vertex set that holds a path's origin and every successor of its
      members holds the path's end. */
  lemma {:induction false} ClosedUnderEdges<V>(g: Graph<V>, d: set<V>, p: seq<Edge<V>>, x: V, y: V)
    requires IsPath(g, p, x, y) && x in d
    requires forall v, e :: v in d && e in Neighbors(g, v) ==> e.to in d
    ensures y in d
    decreases |p|
  {
    if |p| > 0 {
      PathInit(g, p, x, y);
      ClosedUnderEdges(g, d, p[..|p| - 1], x, p[|p| - 1].from);
    }
  }

  /** The start comes first, no vertex twice, exactly the reachable vertices,
      and every edge leads forward. */
  ghost predicate TopologicalFromStart<V(!new)>(g: Graph<V>, start: V, order: seq<V>) {
    && |order| > 0 && order[0] == start && Distinct(order)
    && (forall x :: x in order <==> Reaches(g, start, x))
    && Forward(g, order)
  }

  /** Every edge out of a listed vertex leads to a vertex listed later. */
  predicate Forward<V(==)>(g: Graph<V>, order: seq<V>) {
    forall x, e :: x in order && e in Neighbors(g, x) ==> e.to in order && IndexOf(order, x) < IndexOf(order, e.to)
  }

  /** Reversing the postorder of an acyclic graph gives a topological order. */
  lemma ReversedPostOrderIsTopological<V(!new)>(g: Graph<V>, start: V)
    requires Acyclic(g)
    ensures TopologicalFromStart(g, start, RelaxOrder(g, start))
  {
    PostOrderFacts(g, start);
    ReverseFinishOrder(g, start, PostOrder(g, start));
  }

  lemma ReverseFinishOrder<V(!new)>(g: Graph<V>, start: V, post: seq<V>)
    requires Distinct(post) && |post| > 0 && post[|post| - 1] == start
    requires forall x :: x in post <==> Reaches(g, start, x)
    requires forall i, e :: 0 <= i < |post| && e in Neighbors(g, post[i]) ==> e.to in post[..i]
    ensures TopologicalFromStart(g, start, Reverse(post))
  {
    ReverseKeepsMembers(post);
    ReverseEdgesForward(g, post);
    var order := Reverse(post);
    forall x, e | x in order && e in Neighbors(g, x)
      ensures e.to in order && IndexOf(order, x) < IndexOf(order, e.to)
    {
      var a := IndexOf(order, x);
      var k :| 0 <= k < |order[a + 1..]| && order[a + 1..][k] == e.to;
      IndexOfDistinct(order, a + 1 + k);
    }
  }

  lemma ReverseKeepsMembers<V>(post: seq<V>)
    ensures forall x :: x in Reverse(post) <==> x in post
    ensures Distinct(post) ==> Distinct(Reverse(post))
  {
    var order := Reverse(post);
    var n := |post|;
    forall x | x in post ensures x in order {
      var i :| 0 <= i < n && post[i] == x;
      assert order[n - 1 - i] == x;
    }
    if Distinct(post) {
      forall i, j | 0 <= i < j < n ensures order[i] != order[j] {
        assert order[i] == post[n - 1 - i] && order[j] == post[n - 1 - j];
      }
    }
  }

  lemma ReverseEdgesForward<V>(g: Graph<V>, post: seq<V>)
    requires forall i, e :: 0 <= i < |post| && e in Neighbors(g, post[i]) ==> e.to in post[..i]
    ensures forall a, e :: 0 <= a < |post| && e in Neighbors(g, Reverse(post)[a]) ==>
              e.to in Reverse(post)[a + 1..]
  {
    var order := Reverse(post);
    forall a, e | 0 <= a < |post| && e in Neighbors(g, order[a])
      ensures e.to in order[a + 1..]
    {
      ReverseEdgeForward(g, post, order, a, e);
    }
  }

  lemma ReverseEdgeForward<V>(g: Graph<V>, post: seq<V>, order: seq<V>, a: int, e: Edge<V>)
    requires forall i, e :: 0 <= i < |post| && e in Neighbors(g, post[i]) ==> e.to in post[..i]
    requires Reversed(post, order) && 0 <= a < |post| && e in Neighbors(g, order[a])
    ensures e.to in order[a + 1..]
  {
    var i := |post| - 1 - a;
    assert order[a] == post[i];
    LaterInReverse(post, order, a, e.to);
  }

  /** `order` is `post` back to front. */
  predicate Reversed<V(==)>(post: seq<V>, order: seq<V>) {
    |order| == |post| && forall i :: 0 <= i < |post| ==> order[i] == post[|post| - 1 - i]
  }

  /** What comes before position `|post| - 1 - a` of `post` comes after
      position `a` of its reversal. */
  lemma LaterInReverse<V>(post: seq<V>, order: seq<V>, a: int, x: V)
    requires Reversed(post, order) && 0 <= a < |post|
    requires x in post[..|post| - 1 - a]
    ensures x in order[a + 1..]
  {
    var c :| 0 <= c < |post| - 1 - a && post[..|post| - 1 - a][c] == x;
    var b := |post| - 1 - c;
    assert order[a + 1..][b - a - 1] == order[b];
  }

  /** Position of a vertex in a list. */
  function IndexOf<V(==)>(s: seq<V>, x: V): (i: nat)
    requires x in s
    ensures i < |s| && s[i] == x
  {
    if s[0] == x then 0 else 1 + IndexOf(s[1..], x)
  }

  lemma IndexOfDistinct<V>(s: seq<V>, i: int)
    requires Distinct(s) && 0 <= i < |s|
    ensures IndexOf(s, s[i]) == i
  {
  }

  /** Along a path, positions in a topological order strictly increase. */
  lemma {:induction false} PathClimbs<V(!new)>(g: Graph<V>, order: seq<V>, p: seq<Edge<V>>, x: V, y: V)
    requires Forward(g, order)
    requires x in order && IsPath(g, p, x, y)
    ensures y in order && IndexOf(order, x) <= IndexOf(order, y)
    ensures forall j :: 0 <= j < |p| ==> p[j].from in order && IndexOf(order, p[j].from) < IndexOf(order, y)
    decreases |p|
  {
    if |p| > 0 {
      var q, e := p[..|p| - 1], p[|p| - 1];
      PathInit(g, p, x, y);
      PathClimbs(g, order, q, x, e.from);
      forall j | 0 <= j < |p| ensures p[j].from in order && IndexOf(order, p[j].from) < IndexOf(order, y) {
        if j < |q| {
          assert p[j] == q[j];
        }
      }
    }
  }

  /** The solver's two maps: best known distance from the start, and the
      edge that achieved it (`None` for the start, Java's `null`). */
  datatype Solver<V> = Solver(distTo: map<V, real>, edgeTo: map<V, Option<Edge<V>>>)

  /** The constructor's first four lines: only the start is known, at distance 0. */
  function Init<V>(start: V): Solver<V> {
    Solver(map[start := 0.0], map[start := None])
  }

  /** Relaxing `e` strictly improves the distance of its target; a target not
      yet in `distTo` counts as infinitely far. */
  predicate Shorter<V>(st: Solver<V>, e: Edge<V>)
    requires e.from in st.distTo
  {
    e.to !in st.distTo || st.distTo[e.from] + e.weight < st.distTo[e.to]
  }

  /** No known distance is lost or increased. */
  predicate NoWorse<V>(st: Solver<V>, r: Solver<V>) {
    forall v :: v in st.distTo ==> v in r.distTo && r.distTo[v] <= st.distTo[v]
  }

  /** `relax(edge)`. Unboxing the missing `distTo.get(from)` throws. */
  function Relax<V>(st: Solver<V>, e: Edge<V>): (r: Result<Solver<V>>)
    ensures r.Err? <==> e.from !in st.distTo
    ensures r.Err? ==> r.error == NullPointer
    ensures r.Ok? ==> NoWorse(st, r.value)
    ensures r.Ok? ==> e.to in r.value.distTo && r.value.distTo[e.to] <= st.distTo[e.from] + e.weight
    ensures r.Ok? && Shorter(st, e) ==>
              && r.value.distTo == st.distTo[e.to := st.distTo[e.from] + e.weight]
              && r.value.edgeTo == st.edgeTo[e.to := Some(e)]
    ensures r.Ok? && !Shorter(st, e) ==> r.value == st
  {
    if e.from !in st.distTo then Err(NullPointer)
    else
      var newDist := st.distTo[e.from] + e.weight;
      if e.to !in st.distTo || newDist < st.distTo[e.to] then
        Ok(Solver(st.distTo[e.to := newDist], st.edgeTo[e.to := Some(e)]))
      else Ok(st)
  }

  /** The inner loop: relax `es[k..]` in order, stopping at the first throw. */
  function RelaxEdges<V>(st: Solver<V>, es: seq<Edge<V>>, k: nat): (r: Result<Solver<V>>)
    requires k <= |es|
    ensures (forall j :: k <= j < |es| ==> es[j].from in st.distTo) ==> r.Ok?
    ensures r.Ok? ==> NoWorse(st, r.value)
    ensures r.Ok? ==> forall j :: k <= j < |es| && es[j].from in st.distTo ==>
              es[j].to in r.value.distTo && r.value.distTo[es[j].to] <= st.distTo[es[j].from] + es[j].weight
    decreases |es| - k
  {
    if k == |es| then Ok(st)
    else
      match Relax(st, es[k])
      case Err(err) => Err(err)
      case Ok(st1) =>
        var r := RelaxEdges(st1, es, k + 1);
        RelaxedEdgesStay(st, st1, r, es, k);
        r
  }

  lemma RelaxedEdgesStay<V>(st: Solver<V>, st1: Solver<V>, r: Result<Solver<V>>, es: seq<Edge<V>>, k: nat)
    requires k < |es| && Relax(st, es[k]) == Ok(st1)
    requires r.Ok? ==> NoWorse(st1, r.value)
    requires r.Ok? ==> forall j :: k + 1 <= j < |es| && es[j].from in st1.distTo ==>
              es[j].to in r.value.distTo && r.value.distTo[es[j].to] <= st1.distTo[es[j].from] + es[j].weight
    ensures r.Ok? ==> forall j :: k <= j < |es| && es[j].from in st.distTo ==>
              es[j].to in r.value.distTo && r.value.distTo[es[j].to] <= st.distTo[es[j].from] + es[j].weight
  {
    if r.Ok? {
      forall j | k <= j < |es| && es[j].from in st.distTo
        ensures es[j].to in r.value.distTo && r.value.distTo[es[j].to] <= st.distTo[es[j].from] + es[j].weight
      {
        if j > k {
          assert es[j].from in st1.distTo;
        }
      }
    }
  }

  /** The outer loop: relax every edge of `order[i..]`, vertex by vertex. */
  function RelaxAll<V>(g: Graph<V>, st: Solver<V>, order: seq<V>, i: nat): (r: Result<Solver<V>>)
    requires i <= |order|
    ensures r.Ok? ==> NoWorse(st, r.value)
    decreases |order| - i
  {
    if i == |order| then Ok(st)
    else
      match RelaxEdges(st, Neighbors(g, order[i]), 0)
      case Err(err) => Err(err)
      case Ok(st1) => RelaxAll(g, st1, order, i + 1)
  }

  /** The constructor: search, reverse, relax. */
  function Solve<V(!new)>(g: Graph<V>, start: V): (r: Result<Solver<V>>)
    ensures r.Ok? ==> start in r.value.distTo && r.value.distTo[start] <= 0.0
  {
    RelaxAll(g, Init(start), RelaxOrder(g, start), 0)
  }

  /** `edgeTo` never leads back to where it came from: along every recorded
      edge the rank strictly falls. */
  predicate Ranked<V>(edgeTo: map<V, Option<Edge<V>>>, rank: map<V, nat>) {
    forall v :: v in edgeTo && edgeTo[v].Some? ==>
      v in rank && edgeTo[v].value.from in rank && rank[edgeTo[v].value.from] < rank[v]
  }

  /** `solution(goal)`: follow the recorded edges back from the goal to a
      vertex with none, and list the vertices from there to the goal. Java's
      loop runs forever on a cyclic chain; the rank says there is none. */
  function Solution<V>(st: Solver<V>, goal: V, ghost rank: map<V, nat>): (path: seq<V>)
    requires Ranked(st.edgeTo, rank)
    ensures |path| > 0 && path[|path| - 1] == goal
    ensures path[0] !in st.edgeTo || st.edgeTo[path[0]].None?
    ensures forall j :: 1 <= j < |path| ==>
              path[j] in st.edgeTo && st.edgeTo[path[j]].Some? && st.edgeTo[path[j]].value.from == path[j - 1]
    ensures (goal !in st.edgeTo || st.edgeTo[goal].None?) <==> path == [goal]
    decreases if goal in rank then rank[goal] else 0
  {
    if goal in st.edgeTo && st.edgeTo[goal].Some? then
      var prev := Solution(st, st.edgeTo[goal].value.from, rank);
      prev + [goal]
    else [goal]
  }

  /** The vertices among the first `d` of the order: those processed. */
  function Processed<V(==)>(order: seq<V>, d: nat): set<V> {
    set x | x in order && IndexOf(order, x) < d
  }

  /** The recorded edge of `v` is a graph edge into `v` from a known vertex,
      and `v`'s distance is that vertex's distance plus the edge's weight. */
  ghost predicate Step<V(!new)>(g: Graph<V>, st: Solver<V>, v: V) {
    && v in st.edgeTo && st.edgeTo[v].Some?
    && var e := st.edgeTo[v].value;
    && e.to == v && e in Neighbors(g, e.from)
    && e.from in st.distTo && v in st.distTo
    && st.distTo[v] == st.distTo[e.from] + e.weight
  }

  /** A step whose source is processed and comes earlier in the order than `v`. */
  ghost predicate Linked<V(!new)>(g: Graph<V>, order: seq<V>, d: nat, st: Solver<V>, v: V) {
    && Step(g, st, v)
    && var e := st.edgeTo[v].value;
    && e.from in order && v in order
    && IndexOf(order, e.from) < d && IndexOf(order, e.from) < IndexOf(order, v)
  }

  /** The start at distance 0 with no edge, every other known vertex a step. */
  ghost predicate Chained<V(!new)>(g: Graph<V>, start: V, st: Solver<V>) {
    && start in st.distTo && st.distTo[start] == 0.0
    && start in st.edgeTo && st.edgeTo[start] == None
    && st.distTo.Keys == st.edgeTo.Keys
    && (forall v :: v in st.edgeTo && v != start ==> Step(g, st, v))
  }

  lemma SettledChained<V(!new)>(g: Graph<V>, start: V, order: seq<V>, d: nat, st: Solver<V>)
    requires Settled(g, start, order, d, st)
    ensures Chained(g, start, st)
  {
    forall v | v in st.edgeTo && v != start ensures Step(g, st, v) {
      assert Linked(g, order, d, st, v);
    }
  }

  /** The solver state once the first `d` vertices of the order have been
      processed: the start at distance 0 with no edge, every other known
      vertex linked. */
  ghost predicate Settled<V(!new)>(g: Graph<V>, start: V, order: seq<V>, d: nat, st: Solver<V>) {
    && start in st.distTo && st.distTo[start] == 0.0
    && start in st.edgeTo && st.edgeTo[start] == None
    && st.distTo.Keys == st.edgeTo.Keys
    && (forall v :: v in st.distTo ==> v in order)
    && (forall v :: v in st.edgeTo && v != start ==> Linked(g, order, d, st, v))
  }

  /** Every path from the start whose edges all leave processed vertices is
      no shorter than the known distance of its end. */
  ghost predicate Bounded<V(!new)>(g: Graph<V>, start: V, order: seq<V>, d: nat, st: Solver<V>) {
    forall v, p :: IsPath(g, p, start, v) && SourcesIn(p, Processed(order, d)) ==>
      v in st.distTo && st.distTo[v] <= Weight(p)
  }

  lemma NoWorseKeepsBounded<V(!new)>(g: Graph<V>, start: V, order: seq<V>, d: nat, st: Solver<V>, r: Solver<V>)
    requires Bounded(g, start, order, d, st) && NoWorse(st, r)
    ensures Bounded(g, start, order, d, r)
  {
  }

  /** Relaxing an edge of the vertex being processed keeps the state settled:
      the edge leads forward, so no processed vertex's distance moves. */
  lemma RelaxKeepsSettled<V(!new)>(g: Graph<V>, start: V, order: seq<V>, u: V, st: Solver<V>, e: Edge<V>)
    requires Forward(g, order) && |order| > 0 && order[0] == start
    requires u in order && e in Neighbors(g, u) && u in st.distTo
    requires Settled(g, start, order, IndexOf(order, u) + 1, st)
    ensures Relax(st, e).Ok? && Settled(g, start, order, IndexOf(order, u) + 1, Relax(st, e).value)
  {
    var d := IndexOf(order, u) + 1;
    var w := e.to;
    assert IndexOf(order, start) == 0;
    assert w != start && w != u;
    if Shorter(st, e) {
      var r := Relax(st, e).value;
      assert Linked(g, order, d, r, w);
      forall v | v in r.edgeTo && v != start && v != w ensures Linked(g, order, d, r, v) {
        LinkedElsewhere(g, order, d, st, r, v, w);
      }
    }
  }

  /** A vertex linked through a processed vertex stays linked when only an
      unprocessed vertex's entries change. */
  lemma LinkedElsewhere<V(!new)>(g: Graph<V>, order: seq<V>, d: nat, st: Solver<V>, r: Solver<V>, v: V, w: V)
    requires Linked(g, order, d, st, v) && v != w
    requires w in order && d <= IndexOf(order, w)
    requires forall x :: x != w ==> (x in r.distTo <==> x in st.distTo) && (x in r.edgeTo <==> x in st.edgeTo)
    requires forall x :: x != w && x in st.distTo ==> r.distTo[x] == st.distTo[x]
    requires forall x :: x != w && x in st.edgeTo ==> r.edgeTo[x] == st.edgeTo[x]
    ensures Linked(g, order, d, r, v)
  {
  }

  /** The inner loop over the edges of `u` never throws and keeps the state
      settled: every edge leaves the known vertex `u` and leads forward. */
  lemma {:induction false} RelaxEdgesOnDag<V(!new)>(g: Graph<V>, start: V, order: seq<V>, u: V, k: nat, st: Solver<V>)
    requires Forward(g, order) && |order| > 0 && order[0] == start
    requires u in order && k <= |Neighbors(g, u)| && u in st.distTo
    requires Settled(g, start, order, IndexOf(order, u) + 1, st)
    ensures RelaxEdges(st, Neighbors(g, u), k).Ok?
    ensures Settled(g, start, order, IndexOf(order, u) + 1, RelaxEdges(st, Neighbors(g, u), k).value)
    decreases |Neighbors(g, u)| - k
  {
    var es := Neighbors(g, u);
    if k < |es| {
      RelaxKeepsSettled(g, start, order, u, st, es[k]);
      var st1 := Relax(st, es[k]).value;
      RelaxEdgesOnDag(g, start, order, u, k + 1, st1);
    }
  }

  /** The targets of the first `k` edges sit no farther than `d0` plus the edge. */
  predicate WithinReach<V>(es: seq<Edge<V>>, k: nat, st: Solver<V>, d0: real)
    requires k <= |es|
  {
    forall j :: 0 <= j < k ==> es[j].to in st.distTo && st.distTo[es[j].to] <= d0 + es[j].weight
  }

  /** Processing `u` extends the bound to paths leaving `u`: such a path's
      last edge leaves `u` after a prefix through earlier vertices only. */
  lemma BoundedStep<V(!new)>(g: Graph<V>, start: V, order: seq<V>, u: V, st: Solver<V>, r: Solver<V>)
    requires Forward(g, order) && |order| > 0 && order[0] == start && u in order
    requires Bounded(g, start, order, IndexOf(order, u), st) && Bounded(g, start, order, IndexOf(order, u), r)
    requires u in st.distTo
    requires WithinReach(Neighbors(g, u), |Neighbors(g, u)|, r, st.distTo[u])
    ensures Bounded(g, start, order, IndexOf(order, u) + 1, r)
  {
    var i := IndexOf(order, u);
    forall v: V, p: seq<Edge<V>> | IsPath(g, p, start, v) && SourcesIn(p, Processed(order, i + 1))
      ensures v in r.distTo && r.distTo[v] <= Weight(p)
    {
      if |p| > 0 {
        LastEdgeStep(g, start, order, u, st, r, p, v);
      }
    }
  }

  lemma LastEdgeStep<V(!new)>(g: Graph<V>, start: V, order: seq<V>, u: V, st: Solver<V>, r: Solver<V>, p: seq<Edge<V>>, v: V)
    requires Forward(g, order) && |order| > 0 && order[0] == start && u in order
    requires Bounded(g, start, order, IndexOf(order, u), st) && Bounded(g, start, order, IndexOf(order, u), r)
    requires u in st.distTo
    requires WithinReach(Neighbors(g, u), |Neighbors(g, u)|, r, st.distTo[u])
    requires |p| > 0 && IsPath(g, p, start, v) && SourcesIn(p, Processed(order, IndexOf(order, u) + 1))
    ensures v in r.distTo && r.distTo[v] <= Weight(p)
  {
    var i := IndexOf(order, u);
    var q, e := p[..|p| - 1], p[|p| - 1];
    PathInit(g, p, start, v);
    var x := e.from;
    assert x in Processed(order, i + 1);
    assert IndexOf(order, start) == 0;
    PathClimbs(g, order, q, start, x);
    assert SourcesIn(q, Processed(order, i)) by {
      forall j | 0 <= j < |q| ensures q[j].from in Processed(order, i) {
      }
    }
    if x == u {
      var j :| 0 <= j < |Neighbors(g, u)| && Neighbors(g, u)[j] == e;
    } else {
      assert IndexOf(order, x) != i;
      assert SourcesIn(p, Processed(order, i)) by {
        forall j | 0 <= j < |p| ensures p[j].from in Processed(order, i) {
          if j < |q| { assert p[j] == q[j]; }
        }
      }
    }
  }

  /** By the time a vertex is processed, every path to it runs through
      processed vertices only, so it already has a distance. */
  lemma ReachedWhenProcessed<V(!new)>(g: Graph<V>, start: V, order: seq<V>, i: nat, st: Solver<V>)
    requires TopologicalFromStart(g, start, order) && i < |order|
    requires Bounded(g, start, order, i, st)
    ensures IndexOf(order, order[i]) == i
    ensures order[i] in st.distTo
  {
    var u := order[i];
    IndexOfDistinct(order, i);
    assert Reaches(g, start, u);
    var p: seq<Edge<V>> :| IsPath(g, p, start, u);
    assert IndexOf(order, start) == 0;
    PathClimbs(g, order, p, start, u);
    assert SourcesIn(p, Processed(order, i));
  }

  /** Recorded edges settled for the first `i` vertices stay settled for `i + 1`. */
  lemma SettledGrows<V(!new)>(g: Graph<V>, start: V, order: seq<V>, i: nat, st: Solver<V>)
    requires i < |order|
    requires Settled(g, start, order, i, st)
    ensures Settled(g, start, order, i + 1, st)
  {
    forall v | v in st.edgeTo && v != start ensures Linked(g, order, i + 1, st, v) {
      assert Linked(g, order, i, st, v);
    }
  }

  /** Processing one vertex in topological order. */
  lemma ProcessVertex<V(!new)>(g: Graph<V>, start: V, order: seq<V>, i: nat, st: Solver<V>)
    requires TopologicalFromStart(g, start, order) && i < |order|
    requires Settled(g, start, order, i, st) && Bounded(g, start, order, i, st)
    ensures RelaxEdges(st, Neighbors(g, order[i]), 0).Ok?
    ensures Settled(g, start, order, i + 1, RelaxEdges(st, Neighbors(g, order[i]), 0).value)
    ensures Bounded(g, start, order, i + 1, RelaxEdges(st, Neighbors(g, order[i]), 0).value)
  {
    var u := order[i];
    ReachedWhenProcessed(g, start, order, i, st);
    SettledGrows(g, start, order, i, st);
    RelaxEdgesOnDag(g, start, order, u, 0, st);
    var r := RelaxEdges(st, Neighbors(g, u), 0).value;
    NoWorseKeepsBounded(g, start, order, i, st, r);
    assert WithinReach(Neighbors(g, u), |Neighbors(g, u)|, r, st.distTo[u]);
    BoundedStep(g, start, order, u, st, r);
  }

  lemma {:induction false} RelaxAllOnDag<V(!new)>(g: Graph<V>, start: V, order: seq<V>, i: nat, st: Solver<V>)
    requires TopologicalFromStart(g, start, order) && i <= |order|
    requires Settled(g, start, order, i, st) && Bounded(g, start, order, i, st)
    ensures RelaxAll(g, st, order, i).Ok?
    ensures Settled(g, start, order, |order|, RelaxAll(g, st, order, i).value)
    ensures Bounded(g, start, order, |order|, RelaxAll(g, st, order, i).value)
    decreases |order| - i
  {
    if i < |order| {
      ProcessVertex(g, start, order, i, st);
      var st1 := RelaxEdges(st, Neighbors(g, order[i]), 0).value;
      RelaxAllOnDag(g, start, order, i + 1, st1);
    }
  }

  /** The constructor never throws on an acyclic graph, and ends settled and
      bounded over every path. */
  lemma SolveOnDag<V(!new)>(g: Graph<V>, start: V)
    requires Acyclic(g)
    ensures TopologicalFromStart(g, start, RelaxOrder(g, start))
    ensures Solve(g, start).Ok?
    ensures Settled(g, start, RelaxOrder(g, start), |RelaxOrder(g, start)|, Solve(g, start).value)
    ensures Bounded(g, start, RelaxOrder(g, start), |RelaxOrder(g, start)|, Solve(g, start).value)
  {
    var order := RelaxOrder(g, start);
    ReversedPostOrderIsTopological(g, start);
    InitSettledBounded(g, start, order);
    RelaxAllOnDag(g, start, order, 0, Init(start));
  }

  /** Before any vertex is processed the state is settled, and the only path
      leaving no unprocessed vertex is the empty one, of weight 0. */
  lemma InitSettledBounded<V(!new)>(g: Graph<V>, start: V, order: seq<V>)
    requires |order| > 0 && order[0] == start
    ensures Settled(g, start, order, 0, Init(start)) && Bounded(g, start, order, 0, Init(start))
  {
    var st := Init(start);
    forall v: V, p: seq<Edge<V>> | IsPath(g, p, start, v) && SourcesIn(p, Processed(order, 0))
      ensures v in st.distTo && st.distTo[v] <= Weight(p)
    {
      if |p| > 0 {
        assert false;
      }
    }
  }

  /** Vertex positions in the relaxation order, as a map. */
  function Rank<V(==)>(order: seq<V>): map<V, nat> {
    map x | x in Members(order) :: IndexOf(order, x)
  }

  /** On an acyclic graph the constructor succeeds, knows a distance for
      exactly the vertices reachable from the start, gives the start 0, and
      every known distance is at most the weight of any path to the vertex;
      the recorded edges rank-descend, so `solution` terminates. */
  lemma ShortestDistances<V(!new)>(g: Graph<V>, start: V)
    requires Acyclic(g)
    ensures Solve(g, start).Ok?
    ensures Solve(g, start).value.distTo[start] == 0.0
    ensures forall v :: v in Solve(g, start).value.distTo <==> Reaches(g, start, v)
    ensures forall v, p :: IsPath(g, p, start, v) ==>
              v in Solve(g, start).value.distTo && Solve(g, start).value.distTo[v] <= Weight(p)
    ensures Ranked(Solve(g, start).value.edgeTo, Rank(RelaxOrder(g, start)))
  {
    SolveOnDag(g, start);
    var order := RelaxOrder(g, start);
    var st := Solve(g, start).value;
    EveryPathCounted(g, start, order, st);
    forall v | Reaches(g, start, v) ensures v in st.distTo {
      var p: seq<Edge<V>> :| IsPath(g, p, start, v);
    }
    forall v | v in st.edgeTo && st.edgeTo[v].Some?
      ensures v in Rank(order) && st.edgeTo[v].value.from in Rank(order)
      ensures Rank(order)[st.edgeTo[v].value.from] < Rank(order)[v]
    {
      assert v != start;
      assert Linked(g, order, |order|, st, v);
    }
  }

  /** Once the whole order is processed, the bound covers every path from the start. */
  lemma EveryPathCounted<V(!new)>(g: Graph<V>, start: V, order: seq<V>, st: Solver<V>)
    requires TopologicalFromStart(g, start, order)
    requires Bounded(g, start, order, |order|, st)
    ensures forall v, p :: IsPath(g, p, start, v) ==> v in st.distTo && st.distTo[v] <= Weight(p)
  {
    assert IndexOf(order, start) == 0;
    forall v: V, p: seq<Edge<V>> | IsPath(g, p, start, v) ensures v in st.distTo && st.distTo[v] <= Weight(p) {
      PathClimbs(g, order, p, start, v);
      assert SourcesIn(p, Processed(order, |order|));
    }
  }

  /** The recorded edges met by `solution(v)`, in path order. */
  ghost function WalkEdges<V>(st: Solver<V>, v: V, rank: map<V, nat>): (p: seq<Edge<V>>)
    requires Ranked(st.edgeTo, rank)
    ensures |p| == |Solution(st, v, rank)| - 1
    decreases if v in rank then rank[v] else 0
  {
    if v in st.edgeTo && st.edgeTo[v].Some? then
      WalkEdges(st, st.edgeTo[v].value.from, rank) + [st.edgeTo[v].value]
    else []
  }

  /** The walk's `j`-th edge is the one recorded for the `j + 1`-th vertex of `solution`. */
  lemma {:induction false} WalkEdgesRecorded<V>(st: Solver<V>, v: V, rank: map<V, nat>)
    requires Ranked(st.edgeTo, rank)
    ensures forall j :: 0 <= j < |WalkEdges(st, v, rank)| ==>
              st.edgeTo[Solution(st, v, rank)[j + 1]] == Some(WalkEdges(st, v, rank)[j])
    decreases if v in rank then rank[v] else 0
  {
    if v in st.edgeTo && st.edgeTo[v].Some? {
      var u := st.edgeTo[v].value.from;
      WalkEdgesRecorded(st, u, rank);
      var prev, path := WalkEdges(st, u, rank), Solution(st, u, rank);
      assert WalkEdges(st, v, rank) == prev + [st.edgeTo[v].value];
      assert Solution(st, v, rank) == path + [v];
      forall j | 0 <= j < |prev| + 1
        ensures st.edgeTo[(path + [v])[j + 1]] == Some((prev + [st.edgeTo[v].value])[j])
      {
        if j < |prev| {
          assert (path + [v])[j + 1] == path[j + 1];
          assert (prev + [st.edgeTo[v].value])[j] == prev[j];
        }
      }
    }
  }

  /** Walking the recorded edges back from a known vertex reaches the start
      along a path of graph edges whose weight is the vertex's distance. */
  lemma {:induction false} WalkIsPath<V(!new)>(g: Graph<V>, start: V, st: Solver<V>, v: V, rank: map<V, nat>)
    requires Chained(g, start, st) && Ranked(st.edgeTo, rank)
    requires v in st.distTo
    ensures Solution(st, v, rank)[0] == start
    ensures IsPath(g, WalkEdges(st, v, rank), start, v)
    ensures Weight(WalkEdges(st, v, rank)) == st.distTo[v]
    decreases if v in rank then rank[v] else 0
  {
    if v == start {
      EmptyPath(g, start);
    } else {
      assert Step(g, st, v);
      var e := st.edgeTo[v].value;
      var prev := WalkEdges(st, e.from, rank);
      assert WalkEdges(st, v, rank) == prev + [e];
      assert Solution(st, v, rank) == Solution(st, e.from, rank) + [v];
      WalkIsPath(g, start, st, e.from, rank);
      PathAppend(g, prev, start, e.from, e);
    }
  }

  /** What `solution(goal)` promises: for a goal never reached, just `[goal]`;
      for a reached goal, the vertices of a shortest path from the start,
      joined by the recorded edges. */
  ghost predicate ShortestSolution<V(!new)>(g: Graph<V>, start: V, st: Solver<V>, goal: V, rank: map<V, nat>)
    requires Ranked(st.edgeTo, rank)
  {
    var path := Solution(st, goal, rank);
    && (goal !in st.distTo ==> path == [goal])
    && (goal in st.distTo ==>
          && path[0] == start
          && exists p :: && IsPath(g, p, start, goal) && Weight(p) == st.distTo[goal]
                         && |p| == |path| - 1
                         && (forall j :: 0 <= j < |p| ==> st.edgeTo[path[j + 1]] == Some(p[j]))
                         && (forall q :: IsPath(g, q, start, goal) ==> Weight(p) <= Weight(q)))
  }

  /** From a chained state that bounds every path, the walk back from any
      goal is what `solution` promises. */
  lemma ShortestWalk<V(!new)>(g: Graph<V>, start: V, st: Solver<V>, goal: V, rank: map<V, nat>)
    requires Chained(g, start, st) && Ranked(st.edgeTo, rank)
    requires forall q :: IsPath(g, q, start, goal) ==> goal in st.distTo && st.distTo[goal] <= Weight(q)
    ensures ShortestSolution(g, start, st, goal, rank)
  {
    if goal in st.distTo {
      WalkIsPath(g, start, st, goal, rank);
      WalkEdgesRecorded(st, goal, rank);
      var p := WalkEdges(st, goal, rank);
      assert IsPath(g, p, start, goal) && Weight(p) == st.distTo[goal];
    }
  }

  lemma SolvedChained<V(!new)>(g: Graph<V>, start: V)
    requires Acyclic(g)
    ensures Solve(g, start).Ok? && Chained(g, start, Solve(g, start).value)
  {
    SolveOnDag(g, start);
    SettledChained(g, start, RelaxOrder(g, start), |RelaxOrder(g, start)|, Solve(g, start).value);
  }

  /** On an acyclic graph `solution` keeps its promise for every goal. */
  lemma SolutionIsShortestPath<V(!new)>(g: Graph<V>, start: V, goal: V, rank: map<V, nat>)
    requires Acyclic(g)
    requires Solve(g, start).Ok? && Ranked(Solve(g, start).value.edgeTo, rank)
    ensures ShortestSolution(g, start, Solve(g, start).value, goal, rank)
  {
    SolvedChained(g, start);
    ShortestDistances(g, start);
    ShortestWalk(g, start, Solve(g, start).value, goal, rank);
  }
}
