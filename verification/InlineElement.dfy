/** Inlining the entry function of an element and dropping the functions it no longer reaches. */
module InlineElement {
  import opened Reachability
  import opened Graph
  import opened CallGraph
  import opened InlineModel
  import opened InlineState
  import opened InlineContents
  import opened Inline

  /** Some block of the body calls v, and v is not built-in. */
  ghost predicate CallsIn(bbs: seq<Bb>, v: nat) {
    exists i :: 0 <= i < |bbs| && CallsFrom(bbs[i].ops, v)
  }

  ghost predicate CallsFrom(ops: seq<Op>, v: nat) {
    exists j :: 0 <= j < |ops| && ShouldTryInline(ops[j]) && ops[j].callee == v
  }

  ghost predicate CalleesKnown(funcs: seq<seq<Bb>>) {
    forall f, v: nat :: 0 <= f < |funcs| && CallsIn(funcs[f], v) ==> v < |funcs|
  }

  /** The edges are exactly the calls. */
  ghost predicate IsCallGraph(funcs: seq<seq<Bb>>, g: Adj) {
    && |g| == |funcs| && WellFormed(g)
    && forall u: nat, v: nat :: Edge(g, u, v) <==> u < |funcs| && CallsIn(funcs[u], v)
  }

  method AddBlockCalls(edges: AdjacencyList, src: nat, ops: seq<Op>)
    requires src < |edges.lists|
    modifies edges
    ensures |edges.lists| == old(|edges.lists|)
    ensures forall u: nat, v: nat :: Edge(edges.lists, u, v) <==> Edge(old(edges.lists), u, v) || (u == src && CallsFrom(ops, v))
  {
    var j := 0;
    while j < |ops|
      invariant j <= |ops| && |edges.lists| == old(|edges.lists|)
      invariant forall u: nat, v: nat :: Edge(edges.lists, u, v) <==>
          Edge(old(edges.lists), u, v) || (u == src && CallsFrom(ops[..j], v))
    {
      if ShouldTryInline(ops[j]) {
        edges.SetEdge(src, ops[j].callee);
      }
      CallsFromNext(ops, j);
      j := j + 1;
    }
    assert ops[..j] == ops;
  }

  lemma CallsFromNext(ops: seq<Op>, j: nat)
    requires j < |ops|
    ensures forall v: nat :: CallsFrom(ops[..j + 1], v) <==>
        CallsFrom(ops[..j], v) || (ShouldTryInline(ops[j]) && ops[j].callee == v)
  {
    forall v: nat
      ensures CallsFrom(ops[..j + 1], v) <==> CallsFrom(ops[..j], v) || (ShouldTryInline(ops[j]) && ops[j].callee == v)
    {
      if CallsFrom(ops[..j], v) {
        var k :| 0 <= k < j && ShouldTryInline(ops[..j][k]) && ops[..j][k].callee == v;
        assert ops[..j + 1][k] == ops[..j][k];
      }
      if ShouldTryInline(ops[j]) && ops[j].callee == v {
        assert ops[..j + 1][j] == ops[j];
      }
      if CallsFrom(ops[..j + 1], v) {
        var k :| 0 <= k < j + 1 && ShouldTryInline(ops[..j + 1][k]) && ops[..j + 1][k].callee == v;
        assert k < j ==> ops[..j][k] == ops[..j + 1][k];
      }
    }
  }

  method AddBodyCalls(edges: AdjacencyList, src: nat, bbs: seq<Bb>)
    requires src < |edges.lists|
    modifies edges
    ensures |edges.lists| == old(|edges.lists|)
    ensures forall u: nat, v: nat :: Edge(edges.lists, u, v) <==> Edge(old(edges.lists), u, v) || (u == src && CallsIn(bbs, v))
  {
    var i := 0;
    while i < |bbs|
      invariant i <= |bbs| && |edges.lists| == old(|edges.lists|)
      invariant forall u: nat, v: nat :: Edge(edges.lists, u, v) <==>
          Edge(old(edges.lists), u, v) || (u == src && CallsIn(bbs[..i], v))
    {
      AddBlockCalls(edges, src, bbs[i].ops);
      CallsInNext(bbs, i);
      i := i + 1;
    }
    assert bbs[..i] == bbs;
  }

  lemma CallsInNext(bbs: seq<Bb>, i: nat)
    requires i < |bbs|
    ensures forall v: nat :: CallsIn(bbs[..i + 1], v) <==> CallsIn(bbs[..i], v) || CallsFrom(bbs[i].ops, v)
  {
    forall v: nat
      ensures CallsIn(bbs[..i + 1], v) <==> CallsIn(bbs[..i], v) || CallsFrom(bbs[i].ops, v)
    {
      if CallsIn(bbs[..i], v) {
        var k :| 0 <= k < i && CallsFrom(bbs[..i][k].ops, v);
        assert bbs[..i + 1][k] == bbs[..i][k];
      }
      if CallsFrom(bbs[i].ops, v) {
        assert bbs[..i + 1][i] == bbs[i];
      }
      if CallsIn(bbs[..i + 1], v) {
        var k :| 0 <= k < i + 1 && CallsFrom(bbs[..i + 1][k].ops, v);
        assert k < i ==> bbs[..i][k] == bbs[..i + 1][k];
      }
    }
  }

  /** The call graph of the functions of an element. */
  method CallGraphOf(funcs: seq<seq<Bb>>) returns (g: Adj)
    requires CalleesKnown(funcs)
    ensures IsCallGraph(funcs, g)
  {
    var edges := new AdjacencyList(|funcs|);
    assert forall u: nat, v: nat :: !Edge(edges.lists, u, v);
    var f := 0;
    while f < |funcs|
      invariant f <= |funcs| && |edges.lists| == |funcs| && fresh(edges)
      invariant forall u: nat, v: nat :: Edge(edges.lists, u, v) <==> u < f && CallsIn(funcs[u], v)
    {
      AddBodyCalls(edges, f, funcs[f]);
      f := f + 1;
    }
    g := edges.lists;
    forall u, k | 0 <= u < |g| && 0 <= k < |g[u]|
      ensures g[u][k] < |g|
    {
      assert Edge(g, u, g[u][k]);
    }
  }

  /** The functions that stay, in their old order: the entry and everything it still reaches. */
  method FunctionsToKeep(g: Adj, entry: nat) returns (kept: seq<nat>)
    requires WellFormed(g) && entry < |g|
    ensures forall i, j :: 0 <= i < j < |kept| ==> kept[i] < kept[j]
    ensures forall v: nat :: v in kept <==> v < |g| && Reach(g, entry, v)
  {
    kept := [];
    var i := 0;
    ReachRefl(g, Vertices(g), entry);
    while i < |g|
      invariant i <= |g| && forall v: nat :: v in kept <==> v < i && Reach(g, entry, v)
      invariant forall i, j :: 0 <= i < j < |kept| ==> kept[i] < kept[j]
    {
      var keep := i == entry;
      if i != entry {
        keep := ReachableFresh(g, entry, i);
      }
      if keep {
        assert forall k :: 0 <= k < |kept| ==> kept[k] in kept;
        kept := kept + [i];
      }
      i := i + 1;
    }
  }

  method IndexOf(s: seq<nat>, x: nat) returns (k: nat)
    requires x in s
    ensures k < |s| && s[k] == x
  {
    k := 0;
    while s[k] != x
      invariant k < |s| && x !in s[..k]
      decreases |s| - k
    {
      assert s == s[..k] + [s[k]] + s[k + 1..];
      k := k + 1;
    }
  }

  function BodyOf(arena: map<nat, Bb>, L: seq<nat>): (body: seq<Bb>)
    requires forall y :: y in L ==> y in arena
    ensures |body| == |L| && forall k :: 0 <= k < |L| ==> body[k] == arena[L[k]]
  {
    seq(|L|, k requires 0 <= k < |L| => (assert L[k] in L; arena[L[k]]))
  }

  /** Only recursive calls are left in the expanded entry. */
  lemma ExpandedCalls(g: Adj, arena: map<nat, Bb>, L: seq<nat>, v: nat)
    requires (forall y :: y in L ==> y in arena) && NothingToInline(g, arena, L) && CallsIn(BodyOf(arena, L), v)
    ensures OnCycle(g, v) && v < |g|
  {
    var body := BodyOf(arena, L);
    var i :| 0 <= i < |body| && CallsFrom(body[i].ops, v);
    var j :| 0 <= j < |body[i].ops| && ShouldTryInline(body[i].ops[j]) && body[i].ops[j].callee == v;
    var op := body[i].ops[j];
    assert L[i] in L && body[i] == arena[L[i]] && op in arena[L[i]].ops;
    assert !Inlined(g, op);
  }

  /** A kept function's callee is reached from the entry too, hence kept. */
  lemma CalleeKept(funcs: seq<seq<Bb>>, g: Adj, entry: nat, u: nat, v: nat)
    requires IsCallGraph(funcs, g) && u < |g| && Reach(g, entry, u) && CallsIn(funcs[u], v)
    ensures v < |g| && Reach(g, entry, v)
  {
    assert Edge(g, u, v);
    var k :| 0 <= k < |g[u]| && g[u][k] == v;
    ReachRefl(g, Vertices(g), v);
    ReachStep(g, Vertices(g), u, v, v);
    ReachTrans(g, Vertices(g), entry, u, v);
  }

  /** Inlines the entry function and removes what it no longer reaches: the remaining functions are
      the entry's new body and unchanged bodies of others, every function called from a remaining
      one remains, the new entry index points at the entry, and the calls left in the entry are
      recursive ones. */
  method InlineEntry(funcs: seq<seq<Bb>>, entry: nat, g: Adj)
    returns (arena: map<nat, Bb>, blocks: seq<nat>, g': Adj, kept: seq<nat>, entry': nat, ghost t: Layout)
    requires IsCallGraph(funcs, g) && WellFormedProgram(funcs, g) && entry < |funcs|
    requires Expandable(funcs, g, entry) && Good(funcs, g, entry)
    ensures Expansion(g, arena, blocks) && Laid(Element(funcs, g), entry, arena, blocks, t)
    ensures entry' < |kept| && kept[entry'] == entry
    ensures forall i, j :: 0 <= i < j < |kept| ==> kept[i] < kept[j] < |funcs|
    ensures var after := funcs[entry := BodyOf(arena, blocks)];
            forall u, v: nat :: u in kept && u < |funcs| && CallsIn(after[u], v) ==> v in kept
    ensures forall v: nat :: CallsIn(BodyOf(arena, blocks), v) ==> OnCycle(g, v) && v in kept
    ensures IsCallGraph(funcs[entry := BodyOf(arena, blocks)], g')
    ensures forall v: nat :: v in kept <==> v < |funcs| && Reach(g', entry, v)
  {
    var inliner := new Inliner(funcs, g);
    var r;
    r, t := inliner.Generate(entry);
    arena, blocks := inliner.arena, r.value;
    var body := BodyOf(arena, blocks);
    var after := funcs[entry := body];
    forall f, v: nat | 0 <= f < |after| && CallsIn(after[f], v)
      ensures v < |after|
    {
      if f == entry {
        ExpandedCalls(g, arena, blocks, v);
      } else {
        assert Edge(g, f, v);
      }
    }
    g' := CallGraphOf(after);
    kept := FunctionsToKeep(g', entry);
    ReachRefl(g', Vertices(g'), entry);
    entry' := IndexOf(kept, entry);
    forall u, v: nat | u in kept && CallsIn(after[u], v)
      ensures v in kept
    {
      CalleeKept(after, g', entry, u, v);
    }
    forall v: nat | CallsIn(body, v)
      ensures OnCycle(g, v) && v in kept
    {
      ExpandedCalls(g, arena, blocks, v);
      assert after[entry] == body;
    }
    assert forall k :: 0 <= k < |kept| ==> kept[k] in kept;
  }
}
