/** The graph of components, the order in which a function's blocks are printed, and the cycle
    test that guards the topological sort. */
module Condensation {
  import opened Reachability
  import opened Graph
  import opened Components

  /** The component list of a graph, as StronglyConnectedComponents returns it. */
  ghost predicate IsSccList(g: Adj, comps: seq<seq<nat>>) {
    && (forall i :: 0 <= i < |comps| ==> IsComponent(g, comps[i]))
    && (forall v: nat :: v < |g| ==> InSome(comps, v))
    && (forall i, j :: 0 <= i < j < |comps| ==> Elements(comps[i]) !! Elements(comps[j]))
    && (forall i, j :: 0 <= i < j < |comps| ==> NoEdges(g, comps[j], comps[i]))
  }

  /** Component index of each vertex. */
  ghost predicate IndexOf(comps: seq<seq<nat>>, index: map<nat, nat>) {
    && (forall v :: v in index ==> index[v] < |comps| && v in comps[index[v]])
    && (forall i, v :: 0 <= i < |comps| && v in comps[i] ==> v in index)
  }

  method ComponentIndex(g: Adj, comps: seq<seq<nat>>) returns (index: map<nat, nat>)
    requires IsSccList(g, comps)
    ensures IndexOf(comps, index)
  {
    index := map[];
    var i := 0;
    while i < |comps|
      invariant i <= |comps|
      invariant forall v :: v in index ==> index[v] < i && v in comps[index[v]]
      invariant forall k, v :: 0 <= k < i && v in comps[k] ==> v in index
    {
      var k := 0;
      while k < |comps[i]|
        invariant i < |comps| && k <= |comps[i]|
        invariant forall v :: v in index ==> index[v] <= i && v in comps[index[v]]
        invariant forall m, v :: 0 <= m < i && v in comps[m] ==> v in index
        invariant forall m :: 0 <= m < k ==> comps[i][m] in index
      {
        index := index[comps[i][k] := i];
        k := k + 1;
      }
      i := i + 1;
    }
  }

  /** An edge of g from a vertex of a to a vertex of b. */
  ghost predicate Crosses(g: Adj, a: seq<nat>, b: seq<nat>) {
    exists u, w :: u in a && w in b && Edge(g, u, w)
  }

  lemma IndexUnique(g: Adj, comps: seq<seq<nat>>, index: map<nat, nat>, i: nat, v: nat)
    requires IsSccList(g, comps) && IndexOf(comps, index)
    requires i < |comps| && v in comps[i]
    ensures v in index && index[v] == i
  {
    assert v in Elements(comps[i]) && v in Elements(comps[index[v]]);
  }

  /** The graph of components: an edge for every edge of g between (or inside) components. */
  method SccGraph(comps: seq<seq<nat>>, g: Adj) returns (cg: Adj)
    requires WellFormed(g) && IsSccList(g, comps)
    ensures |cg| == |comps| && WellFormed(cg)
    ensures forall i: nat, j: nat :: Edge(cg, i, j) <==> i < |comps| && j < |comps| && Crosses(g, comps[i], comps[j])
  {
    var index := ComponentIndex(g, comps);
    var edges := new AdjacencyList(|comps|);
    var i := 0;
    while i < |comps|
      invariant i <= |comps| && |edges.lists| == |comps|
      invariant forall a: nat, b: nat :: Edge(edges.lists, a, b) <==> a < i && b < |comps| && Crosses(g, comps[a], comps[b])
    {
      var k := 0;
      assert comps[i][..0] == [];
      while k < |comps[i]|
        invariant i < |comps| && k <= |comps[i]| && |edges.lists| == |comps|
        invariant forall a: nat, b: nat :: Edge(edges.lists, a, b) <==>
            b < |comps| && ((a < i && Crosses(g, comps[a], comps[b])) || (a == i && Crosses(g, comps[i][..k], comps[b])))
      {
        OutEdges(comps, g, index, edges, i, k);
        k := k + 1;
      }
      assert comps[i][..k] == comps[i];
      i := i + 1;
    }
    cg := edges.lists;
    forall u, k | 0 <= u < |cg| && 0 <= k < |cg[u]|
      ensures cg[u][k] < |cg|
    {
      assert Edge(cg, u, cg[u][k]);
    }
  }

  /** The edges contributed by the k-th vertex of component i. */
  method OutEdges(comps: seq<seq<nat>>, g: Adj, index: map<nat, nat>, edges: AdjacencyList, i: nat, k: nat)
    requires WellFormed(g) && IsSccList(g, comps) && IndexOf(comps, index)
    requires i < |comps| && k < |comps[i]| && |edges.lists| == |comps|
    modifies edges
    ensures |edges.lists| == |comps|
    ensures forall a: nat, b: nat :: Edge(edges.lists, a, b) <==>
        Edge(old(edges.lists), a, b) || (a == i && b < |comps| && Crosses(g, [comps[i][k]], comps[b]))
  {
    var v := comps[i][k];
    assert v in Elements(comps[i]);
    var m := 0;
    while m < |g[v]|
      invariant v < |g| && m <= |g[v]| && |edges.lists| == |comps|
      invariant forall a: nat, b: nat :: Edge(edges.lists, a, b) <==>
          Edge(old(edges.lists), a, b) || (a == i && exists x :: 0 <= x < m && g[v][x] in index && index[g[v][x]] == b)
    {
      assert InSome(comps, g[v][m]);
      edges.SetEdge(i, index[g[v][m]]);
      m := m + 1;
    }
    forall b: nat | b < |comps|
      ensures Crosses(g, [v], comps[b]) <==> exists x :: 0 <= x < |g[v]| && g[v][x] in index && index[g[v][x]] == b
    {
      CrossesByIndex(g, comps, index, v, b);
    }
  }

  lemma CrossesByIndex(g: Adj, comps: seq<seq<nat>>, index: map<nat, nat>, v: nat, b: nat)
    requires IsSccList(g, comps) && IndexOf(comps, index) && v < |g| && b < |comps|
    ensures Crosses(g, [v], comps[b]) <==> exists x :: 0 <= x < |g[v]| && g[v][x] in index && index[g[v][x]] == b
  {
    if Crosses(g, [v], comps[b]) {
      var u, w :| u in [v] && w in comps[b] && Edge(g, u, w);
      var x :| 0 <= x < |g[v]| && g[v][x] == w;
      IndexUnique(g, comps, index, b, w);
    }
    if x :| 0 <= x < |g[v]| && g[v][x] in index && index[g[v][x]] == b {
      assert v in [v] && Edge(g, v, g[v][x]);
    }
  }

  lemma {:induction false} EdgesAscend(g: Adj, p: seq<nat>, a: nat, b: nat)
    requires forall u: nat, v: nat :: Edge(g, u, v) ==> u <= v
    requires Path(g, Vertices(g), p, a, b)
    ensures a <= b
    decreases |p|
  {
    if |p| > 1 {
      var q := p[1..];
      forall k | 1 <= k < |q|
        ensures Link(g, q, k)
      {
        assert Link(g, p, k + 1);
      }
      assert Path(g, Vertices(g), q, p[1], b);
      assert Link(g, p, 1);
      EdgesAscend(g, q, p[1], b);
    }
  }

  /** The condensation has no cycle but self-loops, so the topological sort applies to it. */
  lemma CondensationOnlySelfLoops(g: Adj, comps: seq<seq<nat>>, cg: Adj)
    requires IsSccList(g, comps) && |cg| == |comps|
    requires forall i: nat, j: nat :: Edge(cg, i, j) <==> i < |comps| && j < |comps| && Crosses(g, comps[i], comps[j])
    ensures OnlySelfLoops(cg)
  {
    forall i: nat, j: nat | Edge(cg, i, j)
      ensures i <= j
    {
      var u, w :| u in comps[i] && w in comps[j] && Edge(g, u, w);
      assert j < i ==> NoEdges(g, comps[i], comps[j]);
    }
    forall i: nat, j: nat | i < |cg| && j < |cg| && Mutual(cg, i, j)
      ensures i == j
    {
      var p :| Path(cg, Vertices(cg), p, i, j);
      var q :| Path(cg, Vertices(cg), q, j, i);
      EdgesAscend(cg, p, i, j);
      EdgesAscend(cg, q, j, i);
    }
  }

  /** Edges of the printed order that point back stay inside one component. */
  ghost predicate ForwardOrder(g: Adj, blocks: seq<nat>) {
    forall a, b :: 0 <= a < b < |blocks| && Edge(g, blocks[b], blocks[a]) ==> Mutual(g, blocks[a], blocks[b])
  }

  lemma PrintNext(g: Adj, comps: seq<seq<nat>>, cg: Adj, topo: seq<nat>, i: nat, blocks: seq<nat>)
    requires IsSccList(g, comps) && |cg| == |comps| && SuccessorsFirst(cg, topo) && Distinct(topo)
    requires Elements(topo) == Vertices(cg) && i < |topo| && topo[i] < |comps|
    requires forall i: nat, j: nat :: Edge(cg, i, j) <==> i < |comps| && j < |comps| && Crosses(g, comps[i], comps[j])
    requires Distinct(blocks) && ForwardOrder(g, blocks)
    requires forall v :: v in blocks <==> exists k :: i < k < |topo| && topo[k] < |comps| && v in comps[topo[k]]
    ensures Distinct(blocks + comps[topo[i]]) && ForwardOrder(g, blocks + comps[topo[i]])
    ensures forall v :: v in blocks ==> v < |g| && v !in comps[topo[i]]
  {
    var c := comps[topo[i]];
    var next := blocks + c;
    forall v | v in blocks
      ensures v < |g| && v !in c && forall u :: u in c ==> !Edge(g, u, v)
    {
      var k :| i < k < |topo| && topo[k] < |comps| && v in comps[topo[k]];
      assert v in Elements(comps[topo[k]]);
      assert Elements(c) !! Elements(comps[topo[k]]);
      assert !Edge(cg, topo[i], topo[k]);
    }
    assert Elements(blocks) !! Elements(c);
    DistinctAppend(blocks, c);
    forall a, b | 0 <= a < b < |next| && Edge(g, next[b], next[a])
      ensures Mutual(g, next[a], next[b])
    {
      if b >= |blocks| {
        assert next[b] in c;
        assert a >= |blocks| ==> next[a] in c;
      }
    }
  }

  /** What lies between two blocks of one component belongs to it. */
  ghost predicate InOnePiece(g: Adj, blocks: seq<nat>) {
    forall a, b, c :: 0 <= a <= b <= c < |blocks| && Mutual(g, blocks[a], blocks[c]) ==> Mutual(g, blocks[a], blocks[b])
  }

  lemma PieceNext(g: Adj, comp: seq<nat>, blocks: seq<nat>)
    requires IsComponent(g, comp) && InOnePiece(g, blocks) && forall v :: v in blocks ==> v < |g| && v !in comp
    ensures InOnePiece(g, blocks + comp)
  {
    var next := blocks + comp;
    forall a, b, c | 0 <= a <= b <= c < |next| && Mutual(g, next[a], next[c])
      ensures Mutual(g, next[a], next[b])
    {
      if c >= |blocks| {
        assert next[c] in comp;
        if a < |blocks| {
          assert next[a] in blocks;
          assert Mutual(g, next[c], next[a]);
        } else {
          assert next[a] in comp && next[b] in comp;
        }
      }
    }
  }

  /** The walk that prints a function: components in reverse topological-sort order. It visits
      every block exactly once, and predecessors first except within a component. */
  method PrintOrder(g: Adj) returns (blocks: seq<nat>)
    requires WellFormed(g)
    ensures Distinct(blocks) && Elements(blocks) == Vertices(g)
    ensures ForwardOrder(g, blocks) && InOnePiece(g, blocks)
  {
    var comps := StronglyConnectedComponents(g);
    var cg := SccGraph(comps, g);
    CondensationOnlySelfLoops(g, comps, cg);
    var topo := TopologicalSort(cg);
    blocks := [];
    var i := |topo|;
    while i > 0
      invariant 0 <= i <= |topo| && Distinct(blocks) && ForwardOrder(g, blocks) && InOnePiece(g, blocks)
      invariant forall v :: v in blocks <==> exists k :: i <= k < |topo| && topo[k] < |comps| && v in comps[topo[k]]
    {
      i := i - 1;
      assert topo[i] in Elements(topo);
      PrintNext(g, comps, cg, topo, i, blocks);
      PieceNext(g, comps[topo[i]], blocks);
      blocks := blocks + comps[topo[i]];
    }
    forall v: nat
      ensures v in blocks <==> v < |g|
    {
      EveryBlock(g, comps, topo, v);
    }
  }

  lemma EveryBlock(g: Adj, comps: seq<seq<nat>>, topo: seq<nat>, v: nat)
    requires IsSccList(g, comps) && Elements(topo) == Below(|comps|)
    ensures v < |g| <==> exists k :: 0 <= k < |topo| && topo[k] < |comps| && v in comps[topo[k]]
  {
    if v < |g| {
      assert InSome(comps, v);
      var c :| 0 <= c < |comps| && v in comps[c];
      assert c in Elements(topo);
      var k :| 0 <= k < |topo| && topo[k] == c;
      assert topo[k] < |comps| && v in comps[topo[k]];
    }
    if k :| 0 <= k < |topo| && topo[k] < |comps| && v in comps[topo[k]] {
      assert v in Elements(comps[topo[k]]);
    }
  }

  /** A two-vertex cycle, which the guard nevertheless accepts and the sort cannot order. */
  lemma CycleNotReported(order: seq<nat>)
    requires Distinct(order) && Elements(order) == Vertices([[1], [0]])
    ensures !SuccessorsFirst([[1], [0]], order)
  {
    var g: Adj := [[1], [0]];
    ReachRefl(g, Vertices(g), 0);
    ReachRefl(g, Vertices(g), 1);
    assert Edge(g, 0, 1) && Edge(g, 1, 0);
    ReachStep(g, Vertices(g), 0, 1, 1);
    ReachStep(g, Vertices(g), 1, 0, 0);
    assert Mutual(g, 0, 1);
    if SuccessorsFirst(g, order) {
      TopologicalIsAcyclic(g, order);
    }
  }
}
