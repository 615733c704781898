/** Reachability search on the call graph and the recursion test that decides inlining. */
module CallGraph {
  import opened Reachability
  import opened Graph

  /** v lies on a call cycle. */
  ghost predicate OnCycle(g: Adj, v: nat) {
    exists w :: Edge(g, v, w) && Reach(g, w, v)
  }

  /** Search for dst from v. The buffer is shared between calls: a failed search leaves behind
      only vertices that cannot reach dst. */
  method Reachable(g: Adj, v: nat, dst: nat, visited: array<bool>) returns (r: bool)
    requires WellFormed(g) && v < |g| && visited.Length == |g|
    modifies visited
    ensures r ==> Reach(g, v, dst)
    ensures Marked(old(visited[..])) <= Marked(visited[..])
    ensures !r ==> v in Marked(visited[..])
    ensures !r ==> dst !in Marked(visited[..]) - Marked(old(visited[..]))
    ensures !r ==> NewClosed(g, Marked(old(visited[..])), Marked(visited[..]))
    decreases Vertices(g) - Marked(visited[..])
  {
    ghost var V := Marked(visited[..]);
    if visited[v] {
      return false;
    }
    if v == dst {
      ReachRefl(g, Vertices(g), v);
      return true;
    }
    visited[v] := true;
    assert Marked(visited[..]) == V + {v};
    var k := 0;
    while k < |g[v]|
      invariant k <= |g[v]| && V + {v} <= Marked(visited[..])
      invariant dst !in Marked(visited[..]) - V
      invariant NewClosed(g, V + {v}, Marked(visited[..]))
      invariant forall j :: 0 <= j < k ==> g[v][j] in Marked(visited[..])
    {
      ghost var W := Marked(visited[..]);
      r := Reachable(g, g[v][k], dst, visited);
      if r {
        ReachStep(g, Vertices(g), v, g[v][k], dst);
        return true;
      }
      NewClosedTrans(g, V + {v}, W, Marked(visited[..]));
      k := k + 1;
    }
    return false;
  }

  /** Edges from the vertices marked since V stay inside W. */
  ghost predicate NewClosed(g: Adj, V: set<nat>, W: set<nat>) {
    forall u: nat, w: nat :: u in W && u !in V && Edge(g, u, w) ==> w in W
  }

  lemma NewClosedTrans(g: Adj, V: set<nat>, W: set<nat>, X: set<nat>)
    requires V <= W <= X && NewClosed(g, V, W) && NewClosed(g, W, X)
    ensures NewClosed(g, V, X)
  {
  }

  lemma NotReachedFrom(g: Adj, W: set<nat>, v: nat, dst: nat)
    requires v in W && dst !in W && NewClosed(g, {}, W)
    ensures !Reach(g, v, dst)
  {
    if Reach(g, v, dst) {
      var p :| Path(g, Vertices(g), p, v, dst);
      ClosedForward(g, Vertices(g), W, p, v, dst);
      assert false;
    }
  }

  /** A fresh search answers exactly reachability. */
  method ReachableFresh(g: Adj, v: nat, dst: nat) returns (r: bool)
    requires WellFormed(g) && v < |g|
    ensures r <==> Reach(g, v, dst)
  {
    var visited := new bool[|g|](i => false);
    assert Marked(visited[..]) == {};
    r := Reachable(g, v, dst, visited);
    if !r {
      NotReachedFrom(g, Marked(visited[..]), v, dst);
    }
  }

  /** The recursion test: one visited buffer serves the searches from all callees, and the answer
      is still exactly "v lies on a call cycle". */
  method IsRecursive(g: Adj, v: nat) returns (r: bool)
    requires WellFormed(g) && v < |g|
    ensures r <==> OnCycle(g, v)
  {
    var visited := new bool[|g|](i => false);
    var k := 0;
    assert Marked(visited[..]) == {};
    while k < |g[v]|
      invariant k <= |g[v]|
      invariant v !in Marked(visited[..]) && NewClosed(g, {}, Marked(visited[..]))
      invariant forall j :: 0 <= j < k ==> g[v][j] in Marked(visited[..])
    {
      ghost var W := Marked(visited[..]);
      r := Reachable(g, g[v][k], v, visited);
      if r {
        assert Edge(g, v, g[v][k]);
        return true;
      }
      NewClosedTrans(g, {}, W, Marked(visited[..]));
      k := k + 1;
    }
    forall w | Edge(g, v, w)
      ensures !Reach(g, w, v)
    {
      NotReachedFrom(g, Marked(visited[..]), w, v);
    }
    return false;
  }

  /** The functions a function can reach through calls, itself included. */
  ghost function ReachSet(g: Adj, v: nat): set<nat> {
    set w | w in Vertices(g) && Reach(g, v, w)
  }

  /** Expanding a non-recursive callee leaves strictly fewer functions to expand: the caller is
      no longer reachable. */
  lemma InlineShrinks(g: Adj, caller: nat, callee: nat)
    requires WellFormed(g) && caller < |g| && Edge(g, caller, callee) && !OnCycle(g, callee)
    ensures ReachSet(g, callee) < ReachSet(g, caller)
  {
    forall w | w in ReachSet(g, callee)
      ensures w in ReachSet(g, caller)
    {
      ReachStep(g, Vertices(g), caller, callee, w);
    }
    ReachRefl(g, Vertices(g), caller);
    if Reach(g, callee, caller) {
      var p :| Path(g, Vertices(g), p, callee, caller);
      CycleThrough(g, caller, callee);
    }
    assert caller in ReachSet(g, caller) && caller !in ReachSet(g, callee);
  }

  lemma CycleThrough(g: Adj, caller: nat, callee: nat)
    requires WellFormed(g) && Edge(g, caller, callee) && Reach(g, callee, caller)
    ensures OnCycle(g, callee)
  {
    var p :| Path(g, Vertices(g), p, callee, caller);
    if |p| == 1 {
      ReachRefl(g, Vertices(g), callee);
    } else {
      assert Link(g, p, 1);
      var q := p[1..];
      forall k | 1 <= k < |q|
        ensures Link(g, q, k)
      {
        assert Link(g, p, k + 1);
      }
      assert Path(g, Vertices(g), q, p[1], caller);
      ReachRefl(g, Vertices(g), callee);
      ReachStep(g, Vertices(g), caller, callee, callee);
      ReachTrans(g, Vertices(g), p[1], caller, callee);
      assert Edge(g, callee, p[1]);
    }
  }
}
