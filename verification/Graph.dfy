/** Depth-first search, topological sort and strongly connected components. */
module Graph {
  import opened Reachability

  /** Out-edge lists built one edge at a time; an edge that is already there is not added again. */
  class AdjacencyList {
    var lists: Adj

    constructor (n: nat)
      ensures lists == seq(n, i => [])
    {
      lists := seq(n, i => []);
    }

    method HaveEdge(src: nat, dst: nat) returns (found: bool)
      requires src < |lists|
      ensures found <==> Edge(lists, src, dst)
    {
      found := false;
      var k := 0;
      while k < |lists[src]|
        invariant k <= |lists[src]| && (found <==> dst in lists[src][..k])
      {
        if lists[src][k] == dst {
          return true;
        }
        k := k + 1;
      }
    }

    method SetEdge(src: nat, dst: nat)
      requires src < |lists|
      modifies this
      ensures lists == if Edge(old(lists), src, dst) then old(lists)
                       else old(lists)[src := old(lists)[src] + [dst]]
      ensures |lists| == old(|lists|)
      ensures forall u: nat, v: nat :: Edge(lists, u, v) <==> Edge(old(lists), u, v) || (u == src && v == dst)
    {
      var found := HaveEdge(src, dst);
      if !found {
        lists := lists[src := lists[src] + [dst]];
      }
    }
  }

  /** The indices set in a visited buffer. */
  function Marked(visited: seq<bool>): set<nat> {
    set i | 0 <= i < |visited| && visited[i]
  }

  predicate Distinct(s: seq<nat>) {
    forall i, j :: 0 <= i < j < |s| ==> s[i] != s[j]
  }

  lemma DistinctAppend(s: seq<nat>, t: seq<nat>)
    requires Distinct(s) && Distinct(t) && Elements(s) !! Elements(t)
    ensures Distinct(s + t)
  {
    forall i, j | 0 <= i < j < |s + t|
      ensures (s + t)[i] != (s + t)[j]
    {
      if i < |s| <= j {
        assert s[i] in Elements(s) && t[j - |s|] in Elements(t);
      }
    }
  }

  /** Every edge from a vertex of L stays inside S. */
  ghost predicate ClosedInto(g: Adj, L: seq<nat>, S: set<nat>) {
    forall u: nat, w: nat :: u in L && Edge(g, u, w) ==> w in S
  }

  /** The finishing-order property: whoever reaches L[j] using only vertices finished no later
      than L[j] is also reached from L[j]. */
  ghost predicate FinishOrder(g: Adj, L: seq<nat>) {
    forall j, u: nat :: 0 <= j < |L| && ReachIn(g, Elements(L[..j + 1]), u, L[j]) ==> Reach(g, L[j], u)
  }

  lemma FinishOrderSnoc(g: Adj, L: seq<nat>, root: nat)
    requires FinishOrder(g, L) && root < |g|
    requires forall u :: u in L ==> Reach(g, root, u)
    ensures FinishOrder(g, L + [root])
  {
    var M := L + [root];
    forall j, u: nat | 0 <= j < |M| && ReachIn(g, Elements(M[..j + 1]), u, M[j])
      ensures Reach(g, M[j], u)
    {
      if j < |L| {
        assert M[..j + 1] == L[..j + 1];
      } else {
        var p :| Path(g, Elements(M[..j + 1]), p, u, M[j]);
        assert u in M;
        if u == root {
          ReachRefl(g, Vertices(g), root);
        }
      }
    }
  }

  /** Lists finished one after the other compose when no edge leads from the first to the second. */
  lemma FinishOrderAppend(g: Adj, L: seq<nat>, M: seq<nat>)
    requires FinishOrder(g, L) && FinishOrder(g, M)
    requires forall u: nat, w: nat :: u in L && Edge(g, u, w) ==> w !in M
    ensures FinishOrder(g, L + M)
  {
    var N := L + M;
    forall j, u: nat | 0 <= j < |N| && ReachIn(g, Elements(N[..j + 1]), u, N[j])
      ensures Reach(g, N[j], u)
    {
      if j < |L| {
        assert N[..j + 1] == L[..j + 1];
      } else {
        var k := j - |L|;
        assert N[..j + 1] == L + M[..k + 1];
        var p :| Path(g, Elements(N[..j + 1]), p, u, N[j]);
        PathStaysRight(g, L, M[..k + 1], p, u, N[j]);
        assert ReachIn(g, Elements(M[..k + 1]), u, M[k]);
      }
    }
  }

  /** A path ending in M inside L + M never was in L, if no edge leads from L to M. */
  lemma {:induction false} PathStaysRight(g: Adj, L: seq<nat>, M: seq<nat>, p: seq<nat>, a: nat, b: nat)
    requires Path(g, Elements(L + M), p, a, b) && b in M
    requires forall u: nat, w: nat :: u in L && Edge(g, u, w) ==> w !in M
    ensures Path(g, Elements(M), p, a, b)
  {
    forall i | 0 <= i < |p|
      ensures p[i] in M
    {
      TailStaysRight(g, L, M, p, a, b, i);
    }
  }

  lemma {:induction false} TailStaysRight(g: Adj, L: seq<nat>, M: seq<nat>, p: seq<nat>, a: nat, b: nat, i: nat)
    requires Path(g, Elements(L + M), p, a, b) && b in M && i < |p|
    requires forall u: nat, w: nat :: u in L && Edge(g, u, w) ==> w !in M
    ensures p[i] in M
    decreases |p| - i
  {
    if i < |p| - 1 {
      TailStaysRight(g, L, M, p, a, b, i + 1);
      assert Link(g, p, i + 1);
      assert p[i] in Elements(L + M);
    }
  }

  /** What one search from curr adds to the finishing list, given the vertices V marked before. */
  ghost predicate SearchResult(g: Adj, V: set<nat>, L: seq<nat>, curr: nat) {
    && Distinct(L) && Elements(L) !! V && Elements(L) <= Vertices(g)
    && (if curr in V then L == [] else L != [] && L[|L| - 1] == curr)
    && (forall u :: u in L ==> ReachIn(g, Elements(L), curr, u))
    && ClosedInto(g, L, V + Elements(L))
    && FinishOrder(g, L)
  }

  /** The same part way through the out-edges of curr: M is what the children have added. */
  ghost predicate PartialResult(g: Adj, V: set<nat>, M: seq<nat>, curr: nat) {
    && Distinct(M) && Elements(M) !! V + {curr} && Elements(M) <= Vertices(g)
    && (forall u :: u in M ==> ReachIn(g, Elements(M) + {curr}, curr, u))
    && ClosedInto(g, M, V + {curr} + Elements(M))
    && FinishOrder(g, M)
  }

  lemma ChildDone(g: Adj, V: set<nat>, M: seq<nat>, curr: nat, N: seq<nat>, child: nat)
    requires PartialResult(g, V, M, curr) && Edge(g, curr, child)
    requires SearchResult(g, V + {curr} + Elements(M), N, child)
    ensures PartialResult(g, V, M + N, curr)
    ensures child in V + {curr} + Elements(M + N)
  {
    assert Elements(M + N) == Elements(M) + Elements(N);
    DistinctAppend(M, N);
    FinishOrderAppend(g, M, N);
    var S := Elements(M + N) + {curr};
    forall u | u in M + N
      ensures ReachIn(g, S, curr, u)
    {
      if u in M {
        ReachMonotone(g, Elements(M) + {curr}, S, curr, u);
      } else {
        ReachMonotone(g, Elements(N), S, child, u);
        ReachStep(g, S, curr, child, u);
      }
    }
  }

  lemma VertexDone(g: Adj, V: set<nat>, M: seq<nat>, curr: nat)
    requires PartialResult(g, V, M, curr) && curr < |g| && curr !in V
    requires forall w :: Edge(g, curr, w) ==> w in V + {curr} + Elements(M)
    ensures SearchResult(g, V, M + [curr], curr)
  {
    var L := M + [curr];
    assert Elements(L) == Elements(M) + {curr};
    ReachRefl(g, Elements(L), curr);
    forall u | u in M
      ensures Reach(g, curr, u)
    {
      ReachMonotone(g, Elements(L), Vertices(g), curr, u);
    }
    FinishOrderSnoc(g, M, curr);
  }

  /** Depth-first search from curr: appends the newly visited vertices in finishing order. */
  method Dfs(g: Adj, visited: array<bool>, result: seq<nat>, curr: nat)
    returns (result': seq<nat>, ghost added: seq<nat>)
    requires WellFormed(g) && visited.Length == |g| && curr < |g|
    modifies visited
    ensures result' == result + added
    ensures Marked(visited[..]) == old(Marked(visited[..])) + Elements(added)
    ensures SearchResult(g, old(Marked(visited[..])), added, curr)
    decreases Vertices(g) - Marked(visited[..])
  {
    ghost var V := Marked(visited[..]);
    result', added := result, [];
    if visited[curr] {
      return;
    }
    visited[curr] := true;
    assert Marked(visited[..]) == V + {curr};
    var k := 0;
    while k < |g[curr]|
      invariant k <= |g[curr]| && result' == result + added
      invariant Marked(visited[..]) == V + {curr} + Elements(added)
      invariant PartialResult(g, V, added, curr)
      invariant forall j :: 0 <= j < k ==> g[curr][j] in V + {curr} + Elements(added)
    {
      ghost var N;
      var child := g[curr][k];
      result', N := Dfs(g, visited, result', child);
      ChildDone(g, V, added, curr, N, child);
      added := added + N;
      k := k + 1;
    }
    VertexDone(g, V, added, curr);
    result' := result' + [curr];
    added := added + [curr];
  }
}
