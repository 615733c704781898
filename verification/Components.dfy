/** Topological sort and Kosaraju's strongly connected components over the depth-first search. */
module Components {
  import opened Reachability
  import opened Graph

  /** The finishing order of a search started from every vertex in turn. */
  ghost predicate GlobalOrder(g: Adj, L: seq<nat>) {
    && Distinct(L) && Elements(L) <= Vertices(g)
    && ClosedInto(g, L, Elements(L))
    && FinishOrder(g, L)
  }

  lemma NextRoot(g: Adj, L: seq<nat>, N: seq<nat>, root: nat)
    requires GlobalOrder(g, L) && SearchResult(g, Elements(L), N, root)
    ensures GlobalOrder(g, L + N) && root in L + N
  {
    assert Elements(L + N) == Elements(L) + Elements(N);
    DistinctAppend(L, N);
    FinishOrderAppend(g, L, N);
  }

  method FinishingOrder(g: Adj, visited: array<bool>) returns (order: seq<nat>)
    requires WellFormed(g) && visited.Length == |g|
    requires Marked(visited[..]) == {}
    modifies visited
    ensures GlobalOrder(g, order) && Elements(order) == Vertices(g)
  {
    order := [];
    var i := 0;
    while i < |g|
      invariant i <= |g| && GlobalOrder(g, order) && Marked(visited[..]) == Elements(order)
      invariant forall v: nat :: v < i ==> v in order
    {
      ghost var L, N := order, [];
      order, N := Dfs(g, visited, order, i);
      NextRoot(g, L, N, i);
      assert Elements(L + N) == Elements(L) + Elements(N);
      i := i + 1;
    }
  }

  /** Cycles through more than one vertex are absent. */
  ghost predicate OnlySelfLoops(g: Adj) {
    forall u: nat, v: nat :: u < |g| && v < |g| && Mutual(g, u, v) ==> u == v
  }

  ghost predicate SuccessorsFirst(g: Adj, order: seq<nat>) {
    forall i, j :: 0 <= i < |order| && 0 <= j < |order| && Edge(g, order[i], order[j]) ==> j <= i
  }

  lemma FinishOrderIsTopological(g: Adj, order: seq<nat>)
    requires GlobalOrder(g, order) && Elements(order) == Vertices(g) && OnlySelfLoops(g)
    ensures SuccessorsFirst(g, order)
  {
    forall i, j | 0 <= i < |order| && 0 <= j < |order| && Edge(g, order[i], order[j])
      ensures j <= i
    {
      if i < j {
        var u, w := order[i], order[j];
        var S := Elements(order[..j + 1]);
        assert order[..j + 1][i] == u && order[..j + 1][j] == w;
        ReachRefl(g, S, w);
        ReachStep(g, S, u, w, w);
        assert ReachIn(g, Elements(order[..j + 1]), u, order[j]);
        assert Reach(g, order[j], u);
        assert u in Elements(order) && w in Elements(order);
        ReachMonotone(g, S, Vertices(g), u, w);
        assert Mutual(g, u, w);
      }
    }
  }

  lemma {:induction false} PathDescends(g: Adj, order: seq<nat>, p: seq<nat>, a: nat, b: nat, i: nat, j: nat)
    requires SuccessorsFirst(g, order) && Elements(order) == Vertices(g) && Distinct(order)
    requires Path(g, Vertices(g), p, a, b)
    requires i < |order| && order[i] == a && j < |order| && order[j] == b
    ensures j <= i
    decreases |p|
  {
    if |p| > 1 {
      var q := p[1..];
      forall k | 1 <= k < |q|
        ensures Link(g, q, k)
      {
        assert Link(g, p, k + 1);
      }
      assert Path(g, Vertices(g), q, p[1], b);
      assert p[1] in Elements(order);
      var m :| 0 <= m < |order| && order[m] == p[1];
      assert Link(g, p, 1);
      PathDescends(g, order, q, p[1], b, m, j);
    }
  }

  lemma TopologicalIsAcyclic(g: Adj, order: seq<nat>)
    requires Distinct(order) && Elements(order) == Vertices(g) && SuccessorsFirst(g, order)
    ensures OnlySelfLoops(g)
  {
    forall u: nat, v: nat | u < |g| && v < |g| && Mutual(g, u, v)
      ensures u == v
    {
      assert u in Elements(order) && v in Elements(order);
      var i :| 0 <= i < |order| && order[i] == u;
      var j :| 0 <= j < |order| && order[j] == v;
      var p :| Path(g, Vertices(g), p, u, v);
      var q :| Path(g, Vertices(g), q, v, u);
      PathDescends(g, order, p, u, v, i, j);
      PathDescends(g, order, q, v, u, j, i);
    }
  }

  /** The recursive cycle test. It marks a vertex visited together with visiting and tests
      visited first, so it never reports a cycle. */
  method HasCycleFrom(g: Adj, visited: array<bool>, visiting: array<bool>, curr: nat) returns (found: bool)
    requires WellFormed(g) && curr < |g| && visited.Length == |g| && visiting.Length == |g| && visited != visiting
    requires forall v :: 0 <= v < |g| && visiting[v] ==> visited[v]
    modifies visited, visiting
    ensures !found
    ensures forall v :: 0 <= v < |g| && visiting[v] ==> visited[v]
    ensures Marked(old(visited[..])) <= Marked(visited[..])
    decreases Vertices(g) - Marked(visited[..])
  {
    if visited[curr] {
      return false;
    }
    if visiting[curr] {
      return true;
    }
    visited[curr] := true;
    visiting[curr] := true;
    assert Marked(visited[..]) == Marked(old(visited[..])) + {curr};
    var k := 0;
    while k < |g[curr]|
      invariant k <= |g[curr]|
      invariant forall v :: 0 <= v < |g| && visiting[v] ==> visited[v]
      invariant Marked(old(visited[..])) + {curr} <= Marked(visited[..])
    {
      found := HasCycleFrom(g, visited, visiting, g[curr][k]);
      if found {
        return true;
      }
      k := k + 1;
    }
    visiting[curr] := false;
    return false;
  }

  /** The guard of the topological sort accepts every graph, cyclic or not. */
  method IsAcyclic(g: Adj) returns (acyclic: bool)
    requires WellFormed(g)
    ensures acyclic
  {
    var visited := new bool[|g|](i => false);
    var visiting := new bool[|g|](i => false);
    var i := 0;
    while i < |g|
      invariant i <= |g|
      invariant forall v :: 0 <= v < |g| && visiting[v] ==> visited[v]
    {
      var found := HasCycleFrom(g, visited, visiting, i);
      if found {
        return false;
      }
      i := i + 1;
    }
    return true;
  }

  /** A permutation of the vertices, with every successor before its predecessors exactly when
      the graph has no cycles but self-loops. */
  method TopologicalSort(g: Adj) returns (order: seq<nat>)
    requires WellFormed(g)
    ensures Distinct(order) && Elements(order) == Vertices(g)
    ensures SuccessorsFirst(g, order) <==> OnlySelfLoops(g)
  {
    var acyclic := IsAcyclic(g);
    assert acyclic;
    var visited := new bool[|g|](i => false);
    order := FinishingOrder(g, visited);
    if OnlySelfLoops(g) {
      FinishOrderIsTopological(g, order);
    }
    if SuccessorsFirst(g, order) {
      TopologicalIsAcyclic(g, order);
    }
  }

  /** The graph with every edge turned round, built edge by edge. */
  method Reverse(g: Adj) returns (r: Adj)
    requires WellFormed(g)
    ensures Reversed(g, r) && WellFormed(r)
  {
    var edges := new AdjacencyList(|g|);
    var i := 0;
    while i < |g|
      invariant i <= |g| && |edges.lists| == |g|
      invariant forall u: nat, v: nat :: Edge(edges.lists, v, u) <==> u < i && Edge(g, u, v)
    {
      var k := 0;
      while k < |g[i]|
        invariant i < |g| && k <= |g[i]| && |edges.lists| == |g|
        invariant forall u: nat, v: nat ::
            Edge(edges.lists, v, u) <==> (u < i && Edge(g, u, v)) || (u == i && v in g[i][..k])
      {
        edges.SetEdge(g[i][k], i);
        assert g[i][..k + 1] == g[i][..k] + [g[i][k]];
        k := k + 1;
      }
      assert g[i][..k] == g[i];
      i := i + 1;
    }
    r := edges.lists;
    forall u, k | 0 <= u < |r| && 0 <= k < |r[u]|
      ensures r[u][k] < |r|
    {
      assert Edge(r, u, r[u][k]);
    }
  }

  /** c is exactly the set of vertices that u and it reach each other with, listed once. */
  ghost predicate IsComponent(g: Adj, c: seq<nat>) {
    && c != [] && Distinct(c) && Elements(c) <= Vertices(g)
    && forall u: nat, w: nat :: u in c && w < |g| ==> (w in c <==> Mutual(g, u, w))
  }

  /** Components found so far: V is their union, and no edge enters V from outside. */
  ghost predicate PartialComponents(g: Adj, comps: seq<seq<nat>>, V: set<nat>) {
    && (forall i :: 0 <= i < |comps| ==> IsComponent(g, comps[i]) && Elements(comps[i]) <= V)
    && (forall v :: v in V ==> InSome(comps, v))
    && (forall u: nat, w: nat :: Edge(g, u, w) && w in V ==> u in V)
    && (forall i, j :: 0 <= i < j < |comps| ==> Elements(comps[i]) !! Elements(comps[j]))
    && (forall i, j :: 0 <= i < j < |comps| ==> NoEdges(g, comps[j], comps[i]))
  }

  ghost predicate InSome(comps: seq<seq<nat>>, v: nat) {
    exists i :: 0 <= i < |comps| && v in comps[i]
  }

  ghost predicate NoEdges(g: Adj, from: seq<nat>, to: seq<nat>) {
    forall u: nat, w: nat :: u in from && w in to ==> !Edge(g, u, w)
  }

  /** Nothing outside an edge-closed V reaches into it. */
  lemma {:induction false} ReachesInto(g: Adj, V: set<nat>, p: seq<nat>, a: nat, b: nat)
    requires Path(g, Vertices(g), p, a, b) && b in V
    requires forall u: nat, w: nat :: Edge(g, u, w) && w in V ==> u in V
    ensures forall i :: 0 <= i < |p| ==> p[i] in V
    decreases |p|
  {
    if |p| > 1 {
      var q := p[..|p| - 1];
      var c := q[|q| - 1];
      assert Link(g, p, |p| - 1);
      forall k | 1 <= k < |q|
        ensures Link(g, q, k)
      {
        assert Link(g, p, k);
      }
      assert Path(g, Vertices(g), q, a, c);
      ReachesInto(g, V, q, a, c);
      assert forall i :: 0 <= i < |q| ==> p[i] == q[i];
    }
  }

  /** The second search, from the last unvisited vertex of the finishing order, collects exactly
      its component. */
  lemma SecondSearch(g: Adj, r: Adj, order: seq<nat>, i: nat, V: set<nat>, L: seq<nat>)
    requires GlobalOrder(g, order) && Elements(order) == Vertices(g) && Reversed(g, r)
    requires i < |order| && order[i] !in V
    requires forall k :: i < k < |order| ==> order[k] in V
    requires forall u: nat, w: nat :: Edge(g, u, w) && w in V ==> u in V
    requires SearchResult(r, V, L, order[i])
    ensures IsComponent(g, L)
  {
    var v := order[i];
    assert v in Elements(order);
    forall w | w in L
      ensures Mutual(g, v, w)
    {
      ReachReversed(g, r, Elements(L), v, w);
      assert Elements(L) <= Elements(order[..i + 1]) by {
        forall x | x in L
          ensures x in order[..i + 1]
        {
          assert x in Elements(L) && x in Elements(order);
          var k :| 0 <= k < |order| && order[k] == x;
          assert k <= i;
          assert order[..i + 1][k] == x;
        }
      }
      ReachMonotone(g, Elements(L), Elements(order[..i + 1]), w, v);
      assert Reach(g, order[i], w);
      ReachMonotone(g, Elements(L), Vertices(g), w, v);
    }
    forall w: nat | w < |g| && Mutual(g, v, w)
      ensures w in L
    {
      MutualFound(g, r, V, L, v, w);
    }
    forall u: nat, w: nat | u in L && w < |g|
      ensures w in L <==> Mutual(g, u, w)
    {
      MutualTransitive(g, v, u, w);
    }
  }

  lemma MutualTransitive(g: Adj, v: nat, u: nat, w: nat)
    requires Mutual(g, v, u)
    ensures Mutual(g, v, w) <==> Mutual(g, u, w)
  {
    if Mutual(g, v, w) {
      ReachTrans(g, Vertices(g), u, v, w);
      ReachTrans(g, Vertices(g), w, v, u);
    }
    if Mutual(g, u, w) {
      ReachTrans(g, Vertices(g), v, u, w);
      ReachTrans(g, Vertices(g), w, u, v);
    }
  }

  lemma MutualFound(g: Adj, r: Adj, V: set<nat>, L: seq<nat>, v: nat, w: nat)
    requires Reversed(g, r) && v < |g| && v !in V && Mutual(g, v, w)
    requires forall a: nat, b: nat :: Edge(g, a, b) && b in V ==> a in V
    requires SearchResult(r, V, L, v)
    ensures w in L
  {
    var p :| Path(g, Vertices(g), p, w, v);
    var q :| Path(g, Vertices(g), q, v, w);
    if exists k :: 0 <= k < |p| && p[k] in V {
      var k :| 0 <= k < |p| && p[k] in V;
      var p0 := p[..k + 1];
      forall m | 1 <= m < |p0|
        ensures Link(g, p0, m)
      {
        assert Link(g, p, m);
      }
      assert Path(g, Vertices(g), p0, w, p[k]);
      ReachesInto(g, V, p0, w, p[k]);
      assert w == p0[0] && w in V;
      ReachesInto(g, V, q, v, w);
      assert false;
    }
    BackwardFound(g, r, V, L, p, w, v, |p| - 1);
  }

  lemma {:induction false} BackwardFound(g: Adj, r: Adj, V: set<nat>, L: seq<nat>, p: seq<nat>, w: nat, v: nat, k: nat)
    requires Reversed(g, r) && SearchResult(r, V, L, v) && v !in V
    requires Path(g, Vertices(g), p, w, v) && forall m :: 0 <= m < |p| ==> p[m] !in V
    requires k < |p| && p[k] in L
    ensures w in L
    decreases k
  {
    if k > 0 {
      assert Link(g, p, k);
      assert Edge(r, p[k], p[k - 1]);
      assert p[k - 1] in V + Elements(L);
      BackwardFound(g, r, V, L, p, w, v, k - 1);
    }
  }

  lemma ComponentAdded(g: Adj, r: Adj, comps: seq<seq<nat>>, V: set<nat>, L: seq<nat>, root: nat)
    requires PartialComponents(g, comps, V) && IsComponent(g, L) && Reversed(g, r)
    requires SearchResult(r, V, L, root)
    ensures PartialComponents(g, comps + [L], V + Elements(L))
  {
    var cs, W := comps + [L], V + Elements(L);
    forall v | v in W
      ensures InSome(cs, v)
    {
      if v in V {
        var i :| 0 <= i < |comps| && v in comps[i];
        assert v in cs[i];
      } else {
        assert v in cs[|comps|];
      }
    }
    forall u: nat, w: nat | Edge(g, u, w) && w in W
      ensures u in W
    {
      assert Edge(r, w, u);
    }
    forall i, j | 0 <= i < j < |cs|
      ensures Elements(cs[i]) !! Elements(cs[j]) && NoEdges(g, cs[j], cs[i])
    {
      if j == |comps| {
        assert Elements(comps[i]) <= V;
        forall u: nat, w: nat | u in L && w in comps[i]
          ensures !Edge(g, u, w)
        {
          assert w in Elements(comps[i]) && u in Elements(L);
        }
      }
    }
  }

  /** Step 3: searches of the reversed graph, from the last finished vertex to the first. */
  method SearchReversed(g: Adj, r: Adj, order: seq<nat>, visited: array<bool>)
    returns (comps: seq<seq<nat>>, ghost V: set<nat>)
    requires WellFormed(r) && Reversed(g, r) && visited.Length == |g|
    requires GlobalOrder(g, order) && Elements(order) == Vertices(g)
    requires Marked(visited[..]) == {}
    modifies visited
    ensures PartialComponents(g, comps, V) && Elements(order) <= V
  {
    comps, V := [], {};
    var i := |order|;
    while i > 0
      invariant 0 <= i <= |order| && V == Marked(visited[..])
      invariant PartialComponents(g, comps, V)
      invariant forall k :: i <= k < |order| ==> order[k] in V
    {
      i := i - 1;
      assert order[i] in Elements(order);
      var scc;
      ghost var L;
      scc, L := Dfs(r, visited, [], order[i]);
      assert scc == L;
      if |scc| > 0 {
        SecondSearch(g, r, order, i, V, L);
        ComponentAdded(g, r, comps, V, L, order[i]);
        comps := comps + [scc];
      } else {
        assert Elements(L) == {};
      }
      V := V + Elements(L);
    }
  }

  /** Kosaraju's algorithm. The lists are the strongly connected components, each vertex in
      exactly one of them, and every edge goes from a component to itself or to a later one. */
  method StronglyConnectedComponents(g: Adj) returns (comps: seq<seq<nat>>)
    requires WellFormed(g)
    ensures forall i :: 0 <= i < |comps| ==> IsComponent(g, comps[i])
    ensures forall v: nat :: v < |g| ==> InSome(comps, v)
    ensures forall i, j :: 0 <= i < j < |comps| ==> Elements(comps[i]) !! Elements(comps[j])
    ensures forall i, j :: 0 <= i < j < |comps| ==> NoEdges(g, comps[j], comps[i])
  {
    var visited := new bool[|g|](i => false);
    var order := FinishingOrder(g, visited);
    var r := Reverse(g);
    forall k | 0 <= k < visited.Length {
      visited[k] := false;
    }
    ghost var V;
    comps, V := SearchReversed(g, r, order, visited);
    assert forall v: nat :: v < |g| ==> v in Elements(order);
  }

  /** Two vertices share a list exactly when each reaches the other. */
  lemma ShareListIffMutual(g: Adj, comps: seq<seq<nat>>, u: nat, w: nat)
    requires forall i :: 0 <= i < |comps| ==> IsComponent(g, comps[i])
    requires forall v: nat :: v < |g| ==> InSome(comps, v)
    requires u < |g| && w < |g|
    ensures (exists i :: 0 <= i < |comps| && u in comps[i] && w in comps[i]) <==> Mutual(g, u, w)
  {
    assert InSome(comps, u);
    var i :| 0 <= i < |comps| && u in comps[i];
    assert w in comps[i] <==> Mutual(g, u, w);
  }
}
