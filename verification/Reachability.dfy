/** Directed graphs as out-edge lists, paths, and reachability inside a set of vertices. */
module Reachability {
  type Adj = seq<seq<nat>>

  predicate WellFormed(g: Adj) {
    forall u, k :: 0 <= u < |g| && 0 <= k < |g[u]| ==> g[u][k] < |g|
  }

  predicate Edge(g: Adj, u: nat, v: nat) {
    u < |g| && v in g[u]
  }

  function Elements(s: seq<nat>): set<nat> {
    set x | x in s
  }

  function Below(n: nat): (s: set<nat>)
    ensures forall v: nat :: v in s <==> v < n
  {
    if n == 0 then {} else Below(n - 1) + {n - 1}
  }

  function Vertices(g: Adj): set<nat> {
    Below(|g|)
  }

  predicate Link(g: Adj, p: seq<nat>, i: nat)
    requires 1 <= i < |p|
  {
    Edge(g, p[i - 1], p[i])
  }

  /** p is a path from a to b all of whose vertices lie in S. */
  ghost predicate Path(g: Adj, S: set<nat>, p: seq<nat>, a: nat, b: nat) {
    && |p| >= 1 && p[0] == a && p[|p| - 1] == b
    && (forall i :: 0 <= i < |p| ==> p[i] in S)
    && (forall i :: 1 <= i < |p| ==> Link(g, p, i))
  }

  ghost predicate ReachIn(g: Adj, S: set<nat>, a: nat, b: nat) {
    exists p :: Path(g, S, p, a, b)
  }

  ghost predicate Reach(g: Adj, a: nat, b: nat) {
    ReachIn(g, Vertices(g), a, b)
  }

  ghost predicate Mutual(g: Adj, a: nat, b: nat) {
    Reach(g, a, b) && Reach(g, b, a)
  }

  lemma ReachRefl(g: Adj, S: set<nat>, a: nat)
    requires a in S
    ensures ReachIn(g, S, a, a)
  {
    assert Path(g, S, [a], a, a);
  }

  lemma ReachStep(g: Adj, S: set<nat>, a: nat, b: nat, c: nat)
    requires a in S && Edge(g, a, b) && ReachIn(g, S, b, c)
    ensures ReachIn(g, S, a, c)
  {
    var p :| Path(g, S, p, b, c);
    var q := [a] + p;
    forall i | 1 <= i < |q|
      ensures Link(g, q, i)
    {
      assert i > 1 ==> Link(g, p, i - 1);
    }
    assert Path(g, S, q, a, c);
  }

  lemma ReachTrans(g: Adj, S: set<nat>, a: nat, b: nat, c: nat)
    requires ReachIn(g, S, a, b) && ReachIn(g, S, b, c)
    ensures ReachIn(g, S, a, c)
  {
    var p :| Path(g, S, p, a, b);
    var q :| Path(g, S, q, b, c);
    var r := p + q[1..];
    forall i | 1 <= i < |r|
      ensures Link(g, r, i)
    {
      if i < |p| {
        assert Link(g, p, i);
      } else {
        assert Link(g, q, i - |p| + 1);
      }
    }
    assert Path(g, S, r, a, c);
  }

  lemma ReachMonotone(g: Adj, S: set<nat>, T: set<nat>, a: nat, b: nat)
    requires S <= T && ReachIn(g, S, a, b)
    ensures ReachIn(g, T, a, b)
  {
    var p :| Path(g, S, p, a, b);
    assert forall i :: 0 <= i < |p| ==> p[i] in T;
    assert Path(g, T, p, a, b);
  }

  /** A set that no edge of the region S leaves contains all that is reachable from it in S. */
  lemma {:induction false} ClosedForward(g: Adj, S: set<nat>, C: set<nat>, p: seq<nat>, a: nat, b: nat)
    requires Path(g, S, p, a, b) && a in C
    requires forall u, w :: u in C && w in S && Edge(g, u, w) ==> w in C
    ensures forall i :: 0 <= i < |p| ==> p[i] in C
  {
    if |p| > 1 {
      assert Link(g, p, 1);
      var q := p[1..];
      forall i | 1 <= i < |q|
        ensures Link(g, q, i)
      {
        assert Link(g, p, i + 1);
      }
      assert Path(g, S, q, p[1], b);
      ClosedForward(g, S, C, p[1..], p[1], b);
      assert forall i :: 1 <= i < |p| ==> p[i] == p[1..][i - 1];
    }
  }

  /** The reverse: edges of r are the edges of g turned round. */
  ghost predicate Reversed(g: Adj, r: Adj) {
    |r| == |g| && forall u, v :: Edge(r, v, u) <==> Edge(g, u, v)
  }

  function ReverseSeq(p: seq<nat>): (r: seq<nat>)
    ensures |r| == |p| && forall i :: 0 <= i < |p| ==> r[i] == p[|p| - 1 - i]
  {
    seq(|p|, i requires 0 <= i < |p| => p[|p| - 1 - i])
  }

  lemma ReachReversed(g: Adj, r: Adj, S: set<nat>, a: nat, b: nat)
    requires Reversed(g, r) && ReachIn(r, S, a, b)
    ensures ReachIn(g, S, b, a)
  {
    var p :| Path(r, S, p, a, b);
    var q := ReverseSeq(p);
    forall i | 1 <= i < |q|
      ensures Link(g, q, i)
    {
      var k := |p| - i;
      assert Link(r, p, k);
      assert q[i] == p[k - 1] && q[i - 1] == p[k];
    }
    assert Path(g, S, q, b, a);
  }
}
