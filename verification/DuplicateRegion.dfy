/** What a duplicated region is: a copy apart from the original with the same edges, whose
    operations read and write the copy's own variables, but whose branch conditions do not. */
module DuplicateRegion {
  import opened Options
  import opened Reachability
  import opened Graph
  import opened DuplicateBbs

  lemma CopyNumber(before: seq<Block>, blocks: seq<Block>, order: seq<nat>, result: map<nat, nat>, b: nat) returns (k: nat)
    requires Copied(before, blocks, order, |order|, result) && (b in result || b in order)
    ensures k < |order| && order[k] == b && b in result && result[b] == |before| + k
  {
    if b in result {
      assert b in order[..|order|] && order[..|order|] == order;
    }
    k :| 0 <= k < |order| && order[k] == b;
  }

  lemma CopyContent(before: seq<Block>, blocks: seq<Block>, order: seq<nat>, result: map<nat, nat>, vars: map<nat, nat>, b: nat)
    requires Copied(before, blocks, order, |order|, result) && (b in result || b in order)
    requires Relinked(before, blocks, order, result, vars, |order|)
    ensures b in result && b in order && b < |before| && |before| <= result[b] < |blocks|
    ensures blocks[result[b]] == CopyOf(result, vars, before[b])
    ensures order[result[b] - |before|] == b
  {
    var k := CopyNumber(before, blocks, order, result, b);
    ContentOf(before, blocks, order, result, vars, k);
  }

  lemma ContentOf(before: seq<Block>, blocks: seq<Block>, order: seq<nat>, result: map<nat, nat>, vars: map<nat, nat>, k: nat)
    requires k < |order| && |blocks| == |before| + |order| && forall j :: 0 <= j < |order| ==> order[j] < |before|
    requires Relinked(before, blocks, order, result, vars, |order|)
    ensures |before| + k < |blocks| && order[k] < |before| && order[k] in order
    ensures blocks[|before| + k] == CopyOf(result, vars, before[order[k]])
  {
  }

  /** The copy of a block of the region is a new block. */
  lemma CopyIs(dup: Duplication, b: nat)
    requires dup.Valid() && (b in dup.result || b in dup.order)
    ensures b in dup.result && b in dup.order && InRegion(dup.before, dup.start, b) && |dup.before| <= dup.result[b] < |dup.blocks|
    ensures dup.blocks[dup.result[b]] == CopyOf(dup.result, dup.vars, dup.before[b])
    ensures dup.order[dup.result[b] - |dup.before|] == b
  {
    CopyContent(dup.before, dup.blocks, dup.order, dup.result, dup.vars, b);
  }

  /** Every new block is the copy of a block of the region. */
  lemma CopyAt(dup: Duplication, x: nat)
    requires dup.Valid() && |dup.before| <= x < |dup.blocks|
    ensures x - |dup.before| < |dup.order| && dup.order[x - |dup.before|] in dup.order && dup.order[x - |dup.before|] in dup.result && dup.result[dup.order[x - |dup.before|]] == x
  {
  }

  lemma NumbersApart(before: seq<Block>, blocks: seq<Block>, order: seq<nat>, result: map<nat, nat>)
    requires Copied(before, blocks, order, |order|, result)
    ensures forall b: nat :: b in result <==> b in order
    ensures forall b :: b in result ==> |before| <= result[b] < |blocks|
    ensures forall b, c :: b in result && c in result && b != c ==> result[b] != result[c]
    ensures forall x: nat :: |before| <= x < |blocks| ==> IsCopy(result, x)
  {
    forall b: nat | b in result || b in order
      ensures b in result && b in order && |before| <= result[b] < |blocks|
    {
      var k := CopyNumber(before, blocks, order, result, b);
    }
    forall b, c | b in result && c in result && b != c
      ensures result[b] != result[c]
    {
      var j := CopyNumber(before, blocks, order, result, b);
      var k := CopyNumber(before, blocks, order, result, c);
    }
    forall x: nat | |before| <= x < |blocks|
      ensures IsCopy(result, x)
    {
      assert order[x - |before|] in result;
    }
  }

  /** Copying is one to one between the blocks that start reaches and the new blocks. */
  lemma CopiesApart(dup: Duplication)
    requires dup.Valid()
    ensures forall b: nat :: b in dup.result <==> InRegion(dup.before, dup.start, b)
    ensures forall b :: b in dup.result ==> |dup.before| <= dup.result[b] < |dup.blocks|
    ensures forall b, c :: b in dup.result && c in dup.result && b != c ==> dup.result[b] != dup.result[c]
    ensures forall x: nat :: |dup.before| <= x < |dup.blocks| ==> IsCopy(dup.result, x)
  {
    NumbersApart(dup.before, dup.blocks, dup.order, dup.result);
  }

  ghost predicate IsCopy(result: map<nat, nat>, x: nat) {
    exists b :: b in result && result[b] == x
  }

  lemma {:induction false} TargetsRenamed(result: map<nat, nat>, branches: seq<Branch>)
    ensures Targets(CopyBranches(result, branches)) == RenameAll(result, Targets(branches))
  {
    assert |Targets(CopyBranches(result, branches))| == |branches| == |RenameAll(result, Targets(branches))|;
  }

  lemma RenameHead(m: map<nat, nat>, head: seq<nat>)
    requires |head| <= 1
    ensures RenameAll(m, head) == if head == [] then [] else [Rename(m, head[0])]
  {
  }

  lemma SuccsRenamed(result: map<nat, nat>, vars: map<nat, nat>, b: Block)
    ensures Succs(CopyOf(result, vars, b)) == RenameAll(result, Succs(b))
  {
    TargetsRenamed(result, b.branches);
    if !b.isReturn && !b.isErr {
      var head := if b.next.Some? then [b.next.value] else [];
      RenameConcat(result, head, Targets(b.branches));
      RenameHead(result, head);
      assert Succs(b) == head + Targets(b.branches);
      assert Succs(CopyOf(result, vars, b)) == RenameAll(result, head) + Targets(CopyBranches(result, b.branches));
    }
  }

  /** Every way out of a block of the region leads into the region. */
  lemma RegionClosed(before: seq<Block>, start: nat, a: nat, b: nat)
    requires WellFormedBlocks(before) && InRegion(before, start, a) && Edge(FlowGraph(before), a, b)
    ensures InRegion(before, start, b)
  {
    EdgeReached(FlowGraph(before), start, a, b);
  }

  /** The copy of a has an edge to x exactly if x is the copy of a block that a has an edge to. */
  lemma EdgesMatch(dup: Duplication, a: nat, x: nat)
    requires WellFormedBlocks(dup.before) && dup.Valid() && a in dup.result
    ensures Edge(FlowGraph(dup.blocks), dup.result[a], x) <==> exists b :: b in dup.result && dup.result[b] == x && Edge(FlowGraph(dup.before), a, b)
  {
    CopyIs(dup, a);
    SuccsRenamed(dup.result, dup.vars, dup.before[a]);
    var s, t := Succs(dup.before[a]), Succs(dup.blocks[dup.result[a]]);
    if x in t {
      var k :| 0 <= k < |t| && t[k] == x;
      assert Edge(FlowGraph(dup.before), a, s[k]);
      RegionClosed(dup.before, dup.start, a, s[k]);
      CopyIs(dup, s[k]);
      assert dup.result[s[k]] == x;
    }
    if b :| b in dup.result && dup.result[b] == x && Edge(FlowGraph(dup.before), a, b) {
      var k :| 0 <= k < |s| && s[k] == b;
      assert t[k] == x;
    }
  }

  /** The copied region has the edges of the original. */
  lemma Isomorphic(dup: Duplication, a: nat, b: nat)
    requires WellFormedBlocks(dup.before) && dup.Valid() && a in dup.result && b in dup.result
    ensures Edge(FlowGraph(dup.blocks), dup.result[a], dup.result[b]) <==> Edge(FlowGraph(dup.before), a, b)
  {
    var x, g := dup.result[b], FlowGraph(dup.before);
    EdgesMatch(dup, a, x);
    if Edge(FlowGraph(dup.blocks), dup.result[a], x) {
      var c :| c in dup.result && dup.result[c] == x && Edge(g, a, c);
      SameCopy(dup, b, c);
    }
  }

  lemma SameCopy(dup: Duplication, b: nat, c: nat)
    requires dup.Valid() && b in dup.result && c in dup.result && dup.result[b] == dup.result[c]
    ensures b == c
  {
    NumbersApart(dup.before, dup.blocks, dup.order, dup.result);
  }

  /** No jump stored in a copy leads back into the original region, followed or not. */
  lemma NoJumpBack(dup: Duplication, a: nat)
    requires dup.Valid() && a in dup.result
    ensures dup.result[a] < |dup.blocks|
    ensures dup.blocks[dup.result[a]].next.Some? ==> dup.blocks[dup.result[a]].next.value !in dup.result
    ensures forall k :: 0 <= k < |dup.blocks[dup.result[a]].branches| ==> dup.blocks[dup.result[a]].branches[k].target !in dup.result
  {
    CopyIs(dup, a);
    forall x: nat
      ensures Rename(dup.result, x) !in dup.result
    {
      RenamedOutside(dup, x);
    }
  }

  lemma RenamedOutside(dup: Duplication, x: nat)
    requires dup.Valid()
    ensures Rename(dup.result, x) !in dup.result
  {
    if x in dup.result {
      CopyIs(dup, x);
      if dup.result[x] in dup.result {
        CopyIs(dup, dup.result[x]);
      }
    }
  }

  /** From the copy of start exactly the copies are reachable. */
  lemma CopyReach(dup: Duplication, x: nat)
    requires WellFormedBlocks(dup.before) && dup.Valid() && dup.start < |dup.before|
    ensures dup.start in dup.result
    ensures Reach(FlowGraph(dup.blocks), dup.result[dup.start], x) <==> |dup.before| <= x < |dup.blocks|
  {
    var g, h := FlowGraph(dup.before), FlowGraph(dup.blocks);
    ReachRefl(g, Vertices(g), dup.start);
    CopyIs(dup, dup.start);
    if Reach(h, dup.result[dup.start], x) {
      var p :| Path(h, Vertices(h), p, dup.result[dup.start], x);
      PathInCopies(dup, p, x);
    }
    if |dup.before| <= x < |dup.blocks| {
      var b := dup.order[x - |dup.before|];
      CopyAt(dup, x);
      CopyIs(dup, b);
      var p :| Path(g, Vertices(g), p, dup.start, b);
      CopyPath(dup, p, b);
    }
  }

  lemma PathFront(g: Adj, p: seq<nat>, a: nat, b: nat)
    requires |p| > 1 && Path(g, Vertices(g), p, a, b)
    ensures Path(g, Vertices(g), p[..|p| - 1], a, p[|p| - 2]) && Edge(g, p[|p| - 2], b)
  {
    var q := p[..|p| - 1];
    assert Link(g, p, |p| - 1);
    forall i | 1 <= i < |q|
      ensures Link(g, q, i)
    {
      assert Link(g, p, i);
    }
  }

  lemma {:induction false} PathInCopies(dup: Duplication, p: seq<nat>, x: nat)
    requires WellFormedBlocks(dup.before) && dup.Valid() && dup.start in dup.result
    requires Path(FlowGraph(dup.blocks), Vertices(FlowGraph(dup.blocks)), p, dup.result[dup.start], x)
    ensures |dup.before| <= x < |dup.blocks|
    decreases |p|
  {
    if |p| == 1 {
      CopyIs(dup, dup.start);
    } else {
      PathFront(FlowGraph(dup.blocks), p, dup.result[dup.start], x);
      var y := p[|p| - 2];
      PathInCopies(dup, p[..|p| - 1], y);
      CopyAt(dup, y);
      EdgesMatch(dup, dup.order[y - |dup.before|], x);
      var b :| b in dup.result && dup.result[b] == x;
      CopyIs(dup, b);
    }
  }

  lemma {:induction false} CopyPath(dup: Duplication, p: seq<nat>, b: nat)
    requires WellFormedBlocks(dup.before) && dup.Valid() && dup.start in dup.result
    requires Path(FlowGraph(dup.before), Vertices(FlowGraph(dup.before)), p, dup.start, b)
    ensures b in dup.result && Reach(FlowGraph(dup.blocks), dup.result[dup.start], dup.result[b])
    decreases |p|
  {
    CopyIs(dup, dup.start);
    if |p| == 1 {
      ReachRefl(FlowGraph(dup.blocks), Vertices(FlowGraph(dup.blocks)), dup.result[dup.start]);
    } else {
      PathFront(FlowGraph(dup.before), p, dup.start, b);
      CopyPath(dup, p[..|p| - 1], p[|p| - 2]);
      CopyStep(dup, p[|p| - 2], b);
    }
  }

  lemma CopyStep(dup: Duplication, a: nat, b: nat)
    requires WellFormedBlocks(dup.before) && dup.Valid() && dup.start in dup.result
    requires a in dup.result && Edge(FlowGraph(dup.before), a, b) && Reach(FlowGraph(dup.blocks), dup.result[dup.start], dup.result[a])
    ensures b in dup.result && Reach(FlowGraph(dup.blocks), dup.result[dup.start], dup.result[b])
  {
    var h := FlowGraph(dup.blocks);
    CopyIs(dup, a);
    RegionClosed(dup.before, dup.start, a, b);
    CopyIs(dup, b);
    Isomorphic(dup, a, b);
    ReachRefl(h, Vertices(h), dup.result[b]);
    ReachStep(h, Vertices(h), dup.result[a], dup.result[b], dup.result[b]);
    ReachTrans(h, Vertices(h), dup.result[dup.start], dup.result[a], dup.result[b]);
  }

  /** An argument of a copied operation is renamed exactly if the region defines it. */
  lemma ArgumentsRenamed(dup: Duplication, b: nat, i: nat, k: nat)
    requires dup.Valid()
    requires b in dup.order && b < |dup.before| && i < |dup.before[b].ops| && k < |dup.before[b].ops[i].args| && dup.before[b].ops[i].args[k] < dup.lo
    ensures b in dup.result && dup.result[b] < |dup.blocks| && i < |dup.blocks[dup.result[b]].ops| && k < |dup.blocks[dup.result[b]].ops[i].args|
    ensures dup.blocks[dup.result[b]].ops[i].args[k] != dup.before[b].ops[i].args[k] <==>
        dup.Defines(dup.before[b].ops[i].args[k])
  {
    CopyIs(dup, b);
    assert dup.blocks[dup.result[b]].ops[i] == CopyOp(dup.result, dup.vars, dup.before[b].ops[i]);
  }

  /** v is the m-th result of operation j of block c. */
  predicate DefinedAt(blocks: seq<Block>, c: nat, j: nat, m: nat, v: nat) {
    c < |blocks| && j < |blocks[c].ops| && m < |blocks[c].ops[j].dsts| && blocks[c].ops[j].dsts[m] == v
  }

  lemma DefinitionCopied(dup: Duplication, c: nat, j: nat, m: nat, v: nat)
    requires dup.Valid() && c in dup.order && DefinedAt(dup.before, c, j, m, v)
    ensures c in dup.result && DefinedAt(dup.blocks, dup.result[c], j, m, Rename(dup.vars, v))
  {
    CopyIs(dup, c);
    OperationCopied(dup.result, dup.vars, dup.before[c], j);
  }

  lemma OperationCopied(result: map<nat, nat>, vars: map<nat, nat>, b: Block, i: nat)
    requires i < |b.ops|
    ensures var op, ops := b.ops[i], CopyOf(result, vars, b).ops;
            && |ops| == |b.ops| && ops[i].isPhi == op.isPhi
            && |ops[i].dsts| == |op.dsts| && (forall m :: 0 <= m < |op.dsts| ==> ops[i].dsts[m] == Rename(vars, op.dsts[m]))
            && |ops[i].args| == |op.args| && (forall k :: 0 <= k < |op.args| ==> ops[i].args[k] == Rename(vars, op.args[k]))
            && |ops[i].from| == |op.from|
            && (forall k :: 0 <= k < |op.from| ==> ops[i].from[k] == if op.isPhi then Rename(result, op.from[k]) else op.from[k])
  {
    assert CopyOf(result, vars, b).ops[i] == CopyOp(result, vars, b.ops[i]);
  }

  /** An argument that some operation of the region computes becomes the result that the copy of that
      operation computes at the same place; every other argument stays. */
  lemma ArgumentsFollow(dup: Duplication, b: nat, i: nat, k: nat)
    requires dup.Valid()
    requires b in dup.order && b < |dup.before| && i < |dup.before[b].ops| && k < |dup.before[b].ops[i].args|
    ensures b in dup.result && dup.result[b] < |dup.blocks| && |dup.blocks[dup.result[b]].ops| == |dup.before[b].ops|
    ensures |dup.blocks[dup.result[b]].ops[i].args| == |dup.before[b].ops[i].args|
    ensures forall c, j, m :: c in dup.order && DefinedAt(dup.before, c, j, m, dup.before[b].ops[i].args[k]) ==>
        c in dup.result && DefinedAt(dup.blocks, dup.result[c], j, m, dup.blocks[dup.result[b]].ops[i].args[k])
    ensures !dup.Defines(dup.before[b].ops[i].args[k]) ==>
        dup.blocks[dup.result[b]].ops[i].args[k] == dup.before[b].ops[i].args[k]
  {
    ArgumentCopied(dup, b, i, k);
    var v := dup.before[b].ops[i].args[k];
    forall c, j, m | c in dup.order && DefinedAt(dup.before, c, j, m, v)
      ensures c in dup.result && DefinedAt(dup.blocks, dup.result[c], j, m, Rename(dup.vars, v))
    {
      DefinitionCopied(dup, c, j, m, v);
    }
  }

  lemma ArgumentCopied(dup: Duplication, b: nat, i: nat, k: nat)
    requires dup.Valid()
    requires b in dup.order && b < |dup.before| && i < |dup.before[b].ops| && k < |dup.before[b].ops[i].args|
    ensures b in dup.result && dup.result[b] < |dup.blocks| && |dup.blocks[dup.result[b]].ops| == |dup.before[b].ops|
    ensures |dup.blocks[dup.result[b]].ops[i].args| == |dup.before[b].ops[i].args|
    ensures dup.blocks[dup.result[b]].ops[i].args[k] == Rename(dup.vars, dup.before[b].ops[i].args[k])
    ensures !dup.Defines(dup.before[b].ops[i].args[k]) ==> dup.before[b].ops[i].args[k] !in dup.vars
  {
    CopyIs(dup, b);
    OperationCopied(dup.result, dup.vars, dup.before[b], i);
  }

  /** An operation stays what it is; a phi takes its values from the copies of the blocks it took them
      from where these lie in the region. */
  lemma PhiSourcesFollow(dup: Duplication, b: nat, i: nat)
    requires dup.Valid() && b in dup.order && b < |dup.before| && i < |dup.before[b].ops|
    ensures b in dup.result && dup.result[b] < |dup.blocks| && i < |dup.blocks[dup.result[b]].ops|
    ensures var op, copy := dup.before[b].ops[i], dup.blocks[dup.result[b]].ops[i];
            && copy.isPhi == op.isPhi && |copy.dsts| == |op.dsts| && |copy.from| == |op.from|
            && forall k :: 0 <= k < |op.from| ==>
                 if op.isPhi then Led(dup, op.from[k], copy.from[k]) else copy.from[k] == op.from[k]
  {
    CopyIs(dup, b);
    OperationCopied(dup.result, dup.vars, dup.before[b], i);
    LedByResult(dup);
  }

  /** y is the copy of x for a block of the region, and x itself for any other. */
  ghost predicate Led(dup: Duplication, x: nat, y: nat) {
    if InRegion(dup.before, dup.start, x) then x in dup.result && y == dup.result[x] else y == x
  }

  lemma LedByResult(dup: Duplication)
    requires dup.Valid()
    ensures forall x: nat :: Led(dup, x, Rename(dup.result, x))
  {
    forall x: nat
      ensures Led(dup, x, Rename(dup.result, x))
    {
      if x in dup.result || x in dup.order {
        CopyIs(dup, x);
      }
    }
  }

  lemma JumpsCopied(result: map<nat, nat>, vars: map<nat, nat>, b: Block)
    ensures var copy := CopyOf(result, vars, b);
            && copy.isReturn == b.isReturn && copy.isErr == b.isErr && copy.returnVal == b.returnVal
            && copy.next == (if b.next.Some? then Some(Rename(result, b.next.value)) else None)
            && |copy.branches| == |b.branches|
            && forall k :: 0 <= k < |b.branches| ==>
                 copy.branches[k] == Branch(b.branches[k].cond, Rename(result, b.branches[k].target))
  {
  }

  /** The copy of a jump leads to the copy of its target, if there is one; everything else about how
      control leaves a block stays. */
  lemma JumpsFollow(dup: Duplication, b: nat)
    requires dup.Valid() && b in dup.order && b < |dup.before|
    ensures b in dup.result && dup.result[b] < |dup.blocks|
    ensures var block, copy := dup.before[b], dup.blocks[dup.result[b]];
            && copy.isReturn == block.isReturn && copy.isErr == block.isErr && copy.returnVal == block.returnVal
            && copy.next.Some? == block.next.Some? && |copy.branches| == |block.branches|
            && (block.next.Some? ==> Led(dup, block.next.value, copy.next.value))
            && forall k :: 0 <= k < |block.branches| ==>
                 copy.branches[k].cond == block.branches[k].cond && Led(dup, block.branches[k].target, copy.branches[k].target)
  {
    CopyIs(dup, b);
    JumpsCopied(dup.result, dup.vars, dup.before[b]);
    LedByResult(dup);
  }

  lemma {:induction false} DefsRenamed(result: map<nat, nat>, vars: map<nat, nat>, ops: seq<Op>)
    ensures Defs(CopyOps(result, vars, ops)) == RenameAll(vars, Defs(ops))
  {
    if ops != [] {
      var front, last := ops[..|ops| - 1], ops[|ops| - 1];
      DefsRenamed(result, vars, front);
      assert CopyOps(result, vars, ops)[..|ops| - 1] == CopyOps(result, vars, front);
      RenameConcat(vars, Defs(front), last.dsts);
    }
  }

  lemma RenameConcat(m: map<nat, nat>, s: seq<nat>, t: seq<nat>)
    ensures RenameAll(m, s + t) == RenameAll(m, s) + RenameAll(m, t)
  {
    var r, q := RenameAll(m, s + t), RenameAll(m, s) + RenameAll(m, t);
    assert |r| == |q| && forall k :: 0 <= k < |r| ==> r[k] == q[k];
  }

  /** The copies define new variables only. */
  lemma CopiesDefineNew(dup: Duplication, b: nat)
    requires dup.Valid() && b in dup.order
    ensures b < |dup.before| && b in dup.result && dup.result[b] < |dup.blocks|
    ensures forall v :: v in Defs(dup.before[b].ops) ==> v in dup.vars
    ensures Defs(dup.blocks[dup.result[b]].ops) == RenameAll(dup.vars, Defs(dup.before[b].ops))
    ensures forall v :: v in Defs(dup.blocks[dup.result[b]].ops) ==> dup.lo <= v < dup.hi
  {
    CopyIs(dup, b);
    DefsRenamed(dup.result, dup.vars, dup.before[b].ops);
    var k :| 0 <= k < |dup.order| && dup.order[k] == b;
    var s, t := Defs(dup.before[b].ops), Defs(dup.blocks[dup.result[b]].ops);
    forall j | 0 <= j < |s|
      ensures s[j] in dup.vars && dup.lo <= t[j] < dup.hi
    {
      assert s[j] in s && DefinedIn(dup.before, dup.order, |dup.order|, s[j]);
    }
  }

  /** A branch of a copy is what renaming would make it exactly if the region does not define its
      condition: a condition keeps its variable whether or not the region defines it. */
  lemma ConditionsNotRenamed(dup: Duplication, b: nat, k: nat)
    requires dup.Valid()
    requires b in dup.order && b < |dup.before| && k < |dup.before[b].branches| && dup.before[b].branches[k].cond < dup.lo
    ensures b in dup.result && dup.result[b] < |dup.blocks| && k < |dup.blocks[dup.result[b]].branches|
    ensures dup.blocks[dup.result[b]].branches[k].cond == dup.before[b].branches[k].cond
    ensures dup.blocks[dup.result[b]].branches[k].cond == Rename(dup.vars, dup.before[b].branches[k].cond) <==>
        !dup.Defines(dup.before[b].branches[k].cond)
  {
    CopyIs(dup, b);
  }

  /** The same holds of the value a copied block returns. */
  lemma ReturnValuesNotRenamed(dup: Duplication, b: nat)
    requires dup.Valid()
    requires b in dup.order && b < |dup.before| && dup.before[b].returnVal.Some? && dup.before[b].returnVal.value < dup.lo
    ensures b in dup.result && dup.result[b] < |dup.blocks|
    ensures dup.blocks[dup.result[b]].returnVal == dup.before[b].returnVal
    ensures dup.blocks[dup.result[b]].returnVal == Some(Rename(dup.vars, dup.before[b].returnVal.value)) <==>
        !dup.Defines(dup.before[b].returnVal.value)
  {
    CopyIs(dup, b);
  }

  /** The variables a block reads to leave it: its conditions and its return value. */
  function ExitReads(b: Block): (r: seq<nat>)
    ensures forall k :: 0 <= k < |b.branches| ==> b.branches[k].cond in r
    ensures b.returnVal.Some? ==> b.returnVal.value in r
    ensures forall v :: v in r ==> (exists k :: 0 <= k < |b.branches| && b.branches[k].cond == v) || b.returnVal == Some(v)
  {
    Conditions(b.branches) + if b.returnVal.Some? then [b.returnVal.value] else []
  }

  function Conditions(branches: seq<Branch>): (r: seq<nat>)
    ensures |r| == |branches| && forall k :: 0 <= k < |branches| ==> r[k] == branches[k].cond
  {
    if branches == [] then [] else Conditions(branches[..|branches| - 1]) + [branches[|branches| - 1].cond]
  }

  /** The exits of every copy read the copies' own variables where there are such. */
  ghost predicate ExitsRenamed(dup: Duplication)
    requires dup.Valid()
  {
    forall b :: b in dup.order ==>
      (CopyIs(dup, b); ExitReads(dup.blocks[dup.result[b]]) == RenameAll(dup.vars, ExitReads(dup.before[b])))
  }

  /** No copy leaves by a variable that the original region defines. */
  ghost predicate ExitsApart(dup: Duplication)
    requires dup.Valid()
  {
    forall b, v :: b in dup.order && (CopyIs(dup, b); v in ExitReads(dup.blocks[dup.result[b]])) ==> !dup.Defines(v)
  }

  /** A caller can see in advance whether a region can be duplicated: nothing it defines decides or
      leaves one of its blocks. */
  ghost predicate ExitsFromOutside(dup: Duplication) {
    forall b, v :: b in dup.order && b < |dup.before| && v in ExitReads(dup.before[b]) ==> !dup.Defines(v)
  }

  ghost predicate ExitsBelow(blocks: seq<Block>, lo: nat) {
    forall b, v :: 0 <= b < |blocks| && v in ExitReads(blocks[b]) ==> v < lo
  }

  lemma ExitsKept(dup: Duplication, b: nat)
    requires dup.Valid() && b in dup.order
    ensures b < |dup.before| && b in dup.result && dup.result[b] < |dup.blocks|
    ensures ExitReads(dup.blocks[dup.result[b]]) == ExitReads(dup.before[b])
  {
    CopyIs(dup, b);
    CopyExits(dup.result, dup.vars, dup.before[b]);
  }

  lemma CopyExits(result: map<nat, nat>, vars: map<nat, nat>, b: Block)
    ensures ExitReads(CopyOf(result, vars, b)) == ExitReads(b)
  {
    var s, t := Conditions(CopyBranches(result, b.branches)), Conditions(b.branches);
    assert |s| == |t| && forall k :: 0 <= k < |s| ==> s[k] == t[k];
  }

  lemma RenamedUnchanged(dup: Duplication, s: seq<nat>)
    requires dup.Valid() && forall v :: v in s ==> v < dup.lo
    ensures RenameAll(dup.vars, s) == s <==> forall v :: v in s ==> !dup.Defines(v)
  {
    if forall v :: v in s ==> !dup.Defines(v) {
      forall k | 0 <= k < |s|
        ensures RenameAll(dup.vars, s)[k] == s[k]
      {
        assert s[k] in s;
      }
    } else {
      var v :| v in s && dup.Defines(v);
      var k :| 0 <= k < |s| && s[k] == v;
      assert RenameAll(dup.vars, s)[k] >= dup.lo;
    }
  }

  /** The copied region leaves its blocks by its own variables, and by none of the original's,
      exactly if the region defines no condition and no return value of its own blocks. */
  lemma ExitsRightIff(dup: Duplication)
    requires dup.Valid() && ExitsBelow(dup.before, dup.lo)
    ensures ExitsRenamed(dup) <==> ExitsFromOutside(dup)
    ensures ExitsApart(dup) <==> ExitsFromOutside(dup)
  {
    forall b | b in dup.order
      ensures b < |dup.before| && b in dup.result && dup.result[b] < |dup.blocks|
      ensures ExitReads(dup.blocks[dup.result[b]]) == ExitReads(dup.before[b])
      ensures ExitReads(dup.blocks[dup.result[b]]) == RenameAll(dup.vars, ExitReads(dup.before[b])) <==>
          forall v :: v in ExitReads(dup.before[b]) ==> !dup.Defines(v)
    {
      ExitsKept(dup, b);
      RenamedUnchanged(dup, ExitReads(dup.before[b]));
    }
  }

  /** A variable of the original region is defined by no copy. */
  lemma OriginalDefinitionsStay(dup: Duplication, c: nat, v: nat)
    requires dup.Valid() && c in dup.order && v < dup.lo
    ensures c in dup.result && dup.result[c] < |dup.blocks| && v !in Defs(dup.blocks[dup.result[c]].ops)
  {
    CopiesDefineNew(dup, c);
  }

  /** Block 0 defines variable 0 and branches on it; block 1 returns it. */
  function SelfBranch(): (blocks: seq<Block>)
    ensures |blocks| == 2
  {
    [Block([Op([0], [], false, [])], [Branch(0, 1)], Some(1), false, false, None), Block([], [], None, true, false, Some(0))]
  }

  lemma SelfBranchGraph()
    ensures FlowGraph(SelfBranch())[0] == [1, 1] && FlowGraph(SelfBranch())[1] == []
  {
    var blocks := SelfBranch();
    assert Targets(blocks[0].branches) == [1] && Succs(blocks[0]) == [1, 1] && Succs(blocks[1]) == [];
  }

  lemma SelfBranchDefs()
    ensures SingleAssignment(SelfBranch()) && 0 in Defs(SelfBranch()[0].ops)
  {
    var blocks := SelfBranch();
    assert blocks[0].ops[..0] == [] && Defs(blocks[0].ops) == [0] && Defs(blocks[1].ops) == [];
  }

  lemma SelfBranchSound()
    ensures WellFormedBlocks(SelfBranch()) && SingleAssignment(SelfBranch())
    ensures 0 in Defs(SelfBranch()[0].ops)
    ensures InRegion(SelfBranch(), 0, 0) && InRegion(SelfBranch(), 0, 1)
  {
    var g := FlowGraph(SelfBranch());
    SelfBranchGraph();
    SelfBranchDefs();
    ReachRefl(g, Vertices(g), 0);
    EdgeReached(g, 0, 0, 1);
  }

  /** Duplicating it from block 0 gives a copy that branches on, and returns, the variable that only
      the original block 0 defines. */
  method DuplicateSelfBranch() returns (blocks: seq<Block>, result: map<nat, nat>)
    ensures 0 in result && 1 in result && 2 <= result[0] < |blocks| && 2 <= result[1] < |blocks|
    ensures |blocks[result[0]].branches| == 1 && blocks[result[0]].branches[0].cond == 0
    ensures blocks[result[1]].returnVal == Some(0)
    ensures blocks[..2] == SelfBranch() && 0 in Defs(blocks[0].ops)
    ensures 0 !in Defs(blocks[result[0]].ops) && 0 !in Defs(blocks[result[1]].ops)
  {
    var program := new Program(SelfBranch(), 1);
    SelfBranchSound();
    ghost var dup;
    result, dup := program.Duplicate(0);
    blocks := program.blocks;
    SelfBranchCopied(dup);
  }

  lemma SelfBranchCopied(dup: Duplication)
    requires dup.Valid() && dup.before == SelfBranch() && dup.start == 0 && dup.lo == 1
    ensures 0 in dup.result && 1 in dup.result && 2 <= dup.result[0] < |dup.blocks| && 2 <= dup.result[1] < |dup.blocks|
    ensures |dup.blocks[dup.result[0]].branches| == 1 && dup.blocks[dup.result[0]].branches[0].cond == 0
    ensures dup.blocks[dup.result[1]].returnVal == Some(0)
    ensures dup.blocks[..2] == SelfBranch()
    ensures 0 !in Defs(dup.blocks[dup.result[0]].ops) && 0 !in Defs(dup.blocks[dup.result[1]].ops)
  {
    SelfBranchSound();
    CopyIs(dup, 0);
    CopyIs(dup, 1);
    OriginalDefinitionsStay(dup, 0, 0);
    OriginalDefinitionsStay(dup, 1, 0);
  }

  ghost predicate DefsBelow(blocks: seq<Block>, lo: nat) {
    forall b, v :: 0 <= b < |blocks| && v in Defs(blocks[b].ops) ==> v < lo
  }

  lemma RenamedDistinct(vars: map<nat, nat>, s: seq<nat>)
    requires Distinct(s) && Injective(vars) && forall v :: v in s ==> v in vars
    ensures Distinct(RenameAll(vars, s))
  {
    forall i, j | 0 <= i < j < |s|
      ensures RenameAll(vars, s)[i] != RenameAll(vars, s)[j]
    {
      assert s[i] in s && s[j] in s && s[i] != s[j];
    }
  }

  /** Each variable is still defined once, so that a region can be duplicated again. */
  lemma StaysSingleAssignment(dup: Duplication)
    requires dup.Valid()
    requires SingleAssignment(dup.before) && DefsBelow(dup.before, dup.lo)
    ensures SingleAssignment(dup.blocks) && DefsBelow(dup.blocks, dup.hi)
  {
    forall x | 0 <= x < |dup.blocks|
      ensures Distinct(Defs(dup.blocks[x].ops)) && forall v :: v in Defs(dup.blocks[x].ops) ==> v < dup.hi && (x >= |dup.before| <==> v >= dup.lo)
    {
      if x >= |dup.before| {
        var b := dup.order[x - |dup.before|];
        CopyAt(dup, x);
        CopiesDefineNew(dup, b);
        RenamedDistinct(dup.vars, Defs(dup.before[b].ops));
      }
    }
    forall x, y, v | 0 <= x < |dup.blocks| && 0 <= y < |dup.blocks| && x != y && v in Defs(dup.blocks[x].ops)
      ensures v !in Defs(dup.blocks[y].ops)
    {
      if x >= |dup.before| && y >= |dup.before| {
        CopyAt(dup, x);
        CopyAt(dup, y);
        CopiesShareNothing(dup, dup.order[x - |dup.before|], dup.order[y - |dup.before|], v);
      }
    }
  }

  lemma CopiesShareNothing(dup: Duplication, b: nat, c: nat, v: nat)
    requires dup.Valid() && SingleAssignment(dup.before)
    requires b in dup.order && c in dup.order && b in dup.result && c in dup.result && b != c && dup.result[b] < |dup.blocks| && dup.result[c] < |dup.blocks| && v in Defs(dup.blocks[dup.result[b]].ops)
    ensures v !in Defs(dup.blocks[dup.result[c]].ops)
  {
    CopiesDefineNew(dup, b);
    CopiesDefineNew(dup, c);
    var s, t := Defs(dup.before[b].ops), Defs(dup.before[c].ops);
    var i :| 0 <= i < |s| && RenameAll(dup.vars, s)[i] == v;
    forall j | 0 <= j < |t|
      ensures RenameAll(dup.vars, t)[j] != v
    {
      assert s[i] in s && t[j] in t && s[i] != t[j];
    }
  }

  lemma CopyTargets(dup: Duplication, x: nat, y: nat)
    requires WellFormedBlocks(dup.before) && dup.Valid()
    requires |dup.before| <= x < |dup.blocks| && Edge(FlowGraph(dup.blocks), x, y)
    ensures |dup.before| <= y < |dup.blocks|
  {
    CopyAt(dup, x);
    EdgesMatch(dup, dup.order[x - |dup.before|], y);
    var b :| b in dup.result && dup.result[b] == y;
    CopyIs(dup, b);
  }

  lemma CopyHasNext(dup: Duplication, x: nat)
    requires WellFormedBlocks(dup.before) && dup.Valid() && |dup.before| <= x < |dup.blocks|
    ensures !dup.blocks[x].isReturn && !dup.blocks[x].isErr ==> dup.blocks[x].next.Some?
  {
    CopyAt(dup, x);
    CopyIs(dup, dup.order[x - |dup.before|]);
  }

  /** Jumps still lead to existing blocks. */
  lemma StaysWellFormed(dup: Duplication)
    requires WellFormedBlocks(dup.before) && dup.Valid()
    ensures WellFormedBlocks(dup.blocks)
  {
    var g, h := FlowGraph(dup.before), FlowGraph(dup.blocks);
    forall x, k | 0 <= x < |h| && 0 <= k < |h[x]|
      ensures h[x][k] < |h|
    {
      if x >= |dup.before| {
        assert Edge(h, x, h[x][k]);
        CopyTargets(dup, x, h[x][k]);
      } else {
        assert h[x] == g[x];
      }
    }
    forall x | 0 <= x < |dup.blocks| && !dup.blocks[x].isReturn && !dup.blocks[x].isErr
      ensures dup.blocks[x].next.Some?
    {
      if x >= |dup.before| {
        CopyHasNext(dup, x);
      }
    }
  }
}
