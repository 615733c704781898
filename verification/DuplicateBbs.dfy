/** Duplication of all basic blocks reachable from a start block. */
module DuplicateBbs {
  import opened Options
  import opened Reachability
  import opened Graph

  datatype Op = Op(dsts: seq<nat>, args: seq<nat>, isPhi: bool, from: seq<nat>)

  datatype Branch = Branch(cond: nat, target: nat)

  /** Blocks and variables are known by number; copies get new numbers. */
  datatype Block = Block(ops: seq<Op>, branches: seq<Branch>, next: Option<nat>, isReturn: bool, isErr: bool,
                         returnVal: Option<nat>)

  function Targets(branches: seq<Branch>): (r: seq<nat>)
    ensures |r| == |branches| && forall k :: 0 <= k < |r| ==> r[k] == branches[k].target
  {
    if branches == [] then [] else [branches[0].target] + Targets(branches[1..])
  }

  /** Where control can go: nowhere from a return or error block. */
  function Succs(b: Block): seq<nat> {
    if b.isReturn || b.isErr then []
    else (if b.next.Some? then [b.next.value] else []) + Targets(b.branches)
  }

  function FlowGraph(blocks: seq<Block>): (g: Adj)
    ensures |g| == |blocks|
    ensures forall b :: 0 <= b < |blocks| ==> g[b] == Succs(blocks[b])
  {
    if blocks == [] then [] else FlowGraph(blocks[..|blocks| - 1]) + [Succs(blocks[|blocks| - 1])]
  }

  /** Every block that is not a return or error block has a default successor, and all jumps lead
      to existing blocks. */
  ghost predicate WellFormedBlocks(blocks: seq<Block>) {
    && WellFormed(FlowGraph(blocks))
    && forall b :: 0 <= b < |blocks| && !blocks[b].isReturn && !blocks[b].isErr ==> blocks[b].next.Some?
  }

  /** The blocks that control can reach from start. */
  ghost predicate InRegion(blocks: seq<Block>, start: nat, b: nat) {
    b < |blocks| && Reach(FlowGraph(blocks), start, b)
  }

  function Count(q: seq<nat>, seen: set<nat>): nat {
    if q == [] then 0 else Count(q[1..], seen) + if q[0] in seen then 1 else 0
  }

  lemma {:induction false} CountAppend(q: seq<nat>, x: nat, seen: set<nat>)
    ensures Count(q + [x], seen) == Count(q, seen) + if x in seen then 1 else 0
  {
    if q != [] {
      CountAppend(q[1..], x, seen);
      assert (q + [x])[1..] == q[1..] + [x];
    }
  }

  /** Every discovered or queued block is reachable, and the search is closed up to the queue. */
  ghost predicate Discovering(g: Adj, start: nat, q: seq<nat>, seen: set<nat>) {
    && (start in seen || start in q)
    && (forall b :: b in seen || b in q ==> b < |g| && Reach(g, start, b))
    && (forall b, c: nat :: b in seen && Edge(g, b, c) ==> c in seen || c in q)
  }

  /** Queues the successors that have not been taken from the queue yet; a block may be queued more
      than once. */
  method Enqueue(succs: seq<nat>, seen: set<nat>, q: seq<nat>) returns (q': seq<nat>)
    ensures forall x :: x in q' <==> x in q || (x in succs && x !in seen)
    ensures Count(q', seen) == Count(q, seen)
  {
    q' := q;
    var k := 0;
    while k < |succs|
      invariant k <= |succs| && Count(q', seen) == Count(q, seen)
      invariant forall x :: x in q' <==> x in q || (x in succs[..k] && x !in seen)
    {
      if succs[k] !in seen {
        CountAppend(q', succs[k], seen);
        q' := q' + [succs[k]];
      }
      k := k + 1;
    }
    assert succs[..k] == succs;
  }

  /** The breadth-first search terminates although blocks are queued repeatedly, and finds exactly
      the blocks reachable from start. */
  method Discover(blocks: seq<Block>, start: nat) returns (seen: set<nat>)
    requires WellFormedBlocks(blocks) && start < |blocks|
    ensures forall b: nat :: b in seen <==> InRegion(blocks, start, b)
  {
    ghost var g := FlowGraph(blocks);
    seen := {};
    var q := [start];
    ReachRefl(g, Vertices(g), start);
    while q != []
      invariant Discovering(g, start, q, seen)
      decreases Vertices(g) - seen, Count(q, seen)
    {
      var b := q[0];
      ghost var q0, seen0 := q, seen;
      q := q[1..];
      assert q0 == [b] + q;
      seen := seen + {b};
      assert forall x :: x in q0 <==> x == b || x in q;
      if b in seen0 {
        assert seen == seen0;
      }
      q := Enqueue(Succs(blocks[b]), seen, q);
      forall c: nat | Edge(g, b, c)
        ensures c < |g| && Reach(g, start, c)
      {
        EdgeReached(g, start, b, c);
      }
    }
    forall b: nat | InRegion(blocks, start, b)
      ensures b in seen
    {
      var p :| Path(g, Vertices(g), p, start, b);
      ClosedForward(g, Vertices(g), seen, p, start, b);
    }
  }

  lemma EdgeReached(g: Adj, a: nat, b: nat, c: nat)
    requires WellFormed(g) && b < |g| && Reach(g, a, b) && Edge(g, b, c)
    ensures c < |g| && Reach(g, a, c)
  {
    var k :| 0 <= k < |g[b]| && g[b][k] == c;
    ReachRefl(g, Vertices(g), c);
    ReachStep(g, Vertices(g), b, c, c);
    ReachTrans(g, Vertices(g), a, b, c);
  }

  function Rename(m: map<nat, nat>, x: nat): nat {
    if x in m then m[x] else x
  }

  function RenameAll(m: map<nat, nat>, s: seq<nat>): (r: seq<nat>)
    ensures |r| == |s| && forall k :: 0 <= k < |s| ==> r[k] == Rename(m, s[k])
  {
    if s == [] then [] else RenameAll(m, s[..|s| - 1]) + [Rename(m, s[|s| - 1])]
  }

  /** The definitions of an operation list in order. */
  function Defs(ops: seq<Op>): seq<nat> {
    if ops == [] then [] else Defs(ops[..|ops| - 1]) + ops[|ops| - 1].dsts
  }

  /** Each variable is defined once, by one operation. */
  ghost predicate SingleAssignment(blocks: seq<Block>) {
    && (forall b :: 0 <= b < |blocks| ==> Distinct(Defs(blocks[b].ops)))
    && (forall b, c, v :: 0 <= b < |blocks| && 0 <= c < |blocks| && b != c && v in Defs(blocks[b].ops) ==>
          v !in Defs(blocks[c].ops))
  }

  function WithDefs(vars: map<nat, nat>, ops: seq<Op>): (r: seq<Op>)
    ensures |r| == |ops| && forall i :: 0 <= i < |ops| ==> r[i] == ops[i].(dsts := RenameAll(vars, ops[i].dsts))
  {
    if ops == [] then []
    else var op := ops[|ops| - 1];
         WithDefs(vars, ops[..|ops| - 1]) + [op.(dsts := RenameAll(vars, op.dsts))]
  }

  function CopyOp(result: map<nat, nat>, vars: map<nat, nat>, op: Op): Op {
    Op(RenameAll(vars, op.dsts), RenameAll(vars, op.args), op.isPhi, if op.isPhi then RenameAll(result, op.from) else op.from)
  }

  function CopyOps(result: map<nat, nat>, vars: map<nat, nat>, ops: seq<Op>): (r: seq<Op>)
    ensures |r| == |ops| && forall i :: 0 <= i < |ops| ==> r[i] == CopyOp(result, vars, ops[i])
  {
    if ops == [] then [] else CopyOps(result, vars, ops[..|ops| - 1]) + [CopyOp(result, vars, ops[|ops| - 1])]
  }

  function CopyBranches(result: map<nat, nat>, branches: seq<Branch>): (r: seq<Branch>)
    ensures |r| == |branches|
    ensures forall i :: 0 <= i < |branches| ==> r[i] == branches[i].(target := Rename(result, branches[i].target))
  {
    if branches == [] then []
    else var e := branches[|branches| - 1];
         CopyBranches(result, branches[..|branches| - 1]) + [e.(target := Rename(result, e.target))]
  }

  /** A block with its jumps led to the copies and its definitions and arguments renamed. Branch
      conditions and the return value keep reading the variables of the original. */
  function CopyOf(result: map<nat, nat>, vars: map<nat, nat>, b: Block): Block {
    Block(CopyOps(result, vars, b.ops), CopyBranches(result, b.branches),
          if b.next.Some? then Some(Rename(result, b.next.value)) else None, b.isReturn, b.isErr, b.returnVal)
  }

  ghost predicate Injective(m: map<nat, nat>) {
    forall x, y :: x in m && y in m && m[x] == m[y] ==> x == y
  }

  /** New numbers, one for each key. */
  ghost predicate Fresh(m: map<nat, nat>, lo: nat, hi: nat) {
    && lo <= hi && Injective(m)
    && (forall x :: x in m ==> lo <= m[x] < hi)
  }

  ghost predicate Extends(m: map<nat, nat>, m': map<nat, nat>) {
    forall x :: x in m ==> x in m' && m'[x] == m[x]
  }

  lemma RenameStable(m: map<nat, nat>, m': map<nat, nat>, s: seq<nat>)
    requires Extends(m, m') && forall x :: x in s ==> x in m
    ensures RenameAll(m, s) == RenameAll(m', s)
  {
    forall k | 0 <= k < |s|
      ensures RenameAll(m, s)[k] == RenameAll(m', s)[k]
    {
      assert s[k] in s;
    }
  }

  lemma {:induction false} DefsMember(ops: seq<Op>, i: nat, v: nat)
    requires i < |ops| && v in ops[i].dsts
    ensures v in Defs(ops)
  {
    if i < |ops| - 1 {
      DefsMember(ops[..|ops| - 1], i, v);
    }
  }

  lemma WithDefsStable(m: map<nat, nat>, m': map<nat, nat>, ops: seq<Op>)
    requires Extends(m, m') && forall v :: v in Defs(ops) ==> v in m
    ensures WithDefs(m, ops) == WithDefs(m', ops)
  {
    forall i | 0 <= i < |ops|
      ensures WithDefs(m, ops)[i] == WithDefs(m', ops)[i]
    {
      forall x | x in ops[i].dsts
        ensures x in m
      {
        DefsMember(ops, i, x);
      }
      RenameStable(m, m', ops[i].dsts);
    }
  }

  /** Gives the results of one operation new variables. */
  method RenameDsts(dsts: seq<nat>, vars: map<nat, nat>, ghost lo: nat, nextVar: nat)
    returns (dsts': seq<nat>, vars': map<nat, nat>, nextVar': nat)
    requires Distinct(dsts) && Fresh(vars, lo, nextVar) && forall d :: d in dsts ==> d !in vars
    ensures nextVar <= nextVar' && Fresh(vars', lo, nextVar') && Extends(vars, vars')
    ensures forall v :: v in vars' <==> v in vars || v in dsts
    ensures dsts' == RenameAll(vars', dsts)
  {
    dsts', vars', nextVar' := [], vars, nextVar;
    var k := 0;
    while k < |dsts|
      invariant k <= |dsts| && nextVar <= nextVar' && Fresh(vars', lo, nextVar') && Extends(vars, vars')
      invariant forall v :: v in vars' <==> v in vars || v in dsts[..k]
      invariant |dsts'| == k && forall i :: 0 <= i < k ==> dsts[i] in vars' && dsts'[i] == vars'[dsts[i]]
    {
      assert dsts[k] in dsts && dsts[k] !in dsts[..k];
      vars' := vars'[dsts[k] := nextVar'];
      dsts' := dsts' + [nextVar'];
      nextVar' := nextVar' + 1;
      k := k + 1;
    }
    assert dsts[..k] == dsts;
  }

  lemma DefsNext(ops: seq<Op>, i: nat)
    requires i < |ops|
    ensures Defs(ops[..i + 1]) == Defs(ops[..i]) + ops[i].dsts
    ensures forall v :: v in Defs(ops[..i + 1]) <==> v in Defs(ops[..i]) || v in ops[i].dsts
  {
    assert ops[..i + 1][..i] == ops[..i];
  }

  lemma {:induction false} DefsPrefix(ops: seq<Op>, i: nat)
    requires i <= |ops| && Distinct(Defs(ops))
    ensures Distinct(Defs(ops[..i])) && forall v :: v in Defs(ops[..i]) ==> v in Defs(ops)
    decreases |ops| - i
  {
    if i == |ops| {
      assert ops[..i] == ops;
    } else {
      DefsPrefix(ops, i + 1);
      DefsNext(ops, i);
      DistinctFront(Defs(ops[..i]), ops[i].dsts);
    }
  }

  lemma DistinctFront(s: seq<nat>, t: seq<nat>)
    requires Distinct(s + t)
    ensures Distinct(s) && Distinct(t) && forall v :: v in s ==> v !in t
  {
    var u := s + t;
    forall i, j | 0 <= i < j < |s|
      ensures s[i] != s[j]
    {
      assert u[i] == s[i] && u[j] == s[j];
    }
    forall i, j | 0 <= i < j < |t|
      ensures t[i] != t[j]
    {
      assert u[|s| + i] == t[i] && u[|s| + j] == t[j];
    }
    forall i, j | 0 <= i < |s| && 0 <= j < |t|
      ensures s[i] != t[j]
    {
      assert u[i] == s[i] && u[|s| + j] == t[j];
    }
  }

  lemma NextDefs(ops: seq<Op>, i: nat)
    requires i < |ops| && Distinct(Defs(ops))
    ensures Distinct(ops[i].dsts)
    ensures forall v :: v in ops[i].dsts ==> v !in Defs(ops[..i]) && v in Defs(ops)
    ensures forall v :: v in Defs(ops[..i + 1]) <==> v in Defs(ops[..i]) || v in ops[i].dsts
  {
    DefsPrefix(ops, i + 1);
    DefsNext(ops, i);
    DistinctFront(Defs(ops[..i]), ops[i].dsts);
  }

  lemma WithDefsNext(m: map<nat, nat>, m': map<nat, nat>, ops: seq<Op>, i: nat)
    requires i < |ops| && Extends(m, m') && forall v :: v in Defs(ops[..i]) ==> v in m
    ensures WithDefs(m', ops[..i + 1]) == WithDefs(m, ops[..i]) + [ops[i].(dsts := RenameAll(m', ops[i].dsts))]
  {
    WithDefsStable(m, m', ops[..i]);
    assert ops[..i + 1][..i] == ops[..i];
  }

  /** The same for all operations of a block. */
  method RenameDefs(ops: seq<Op>, vars: map<nat, nat>, ghost lo: nat, nextVar: nat)
    returns (ops': seq<Op>, vars': map<nat, nat>, nextVar': nat)
    requires Distinct(Defs(ops)) && Fresh(vars, lo, nextVar) && forall v :: v in Defs(ops) ==> v !in vars
    ensures nextVar <= nextVar' && Fresh(vars', lo, nextVar') && Extends(vars, vars')
    ensures forall v :: v in vars' <==> v in vars || v in Defs(ops)
    ensures ops' == WithDefs(vars', ops)
  {
    ops', vars', nextVar' := [], vars, nextVar;
    var i := 0;
    while i < |ops|
      invariant i <= |ops| && nextVar <= nextVar' && Fresh(vars', lo, nextVar') && Extends(vars, vars')
      invariant forall v :: v in vars' <==> v in vars || v in Defs(ops[..i])
      invariant ops' == WithDefs(vars', ops[..i])
    {
      NextDefs(ops, i);
      ghost var before := vars';
      var dsts;
      dsts, vars', nextVar' := RenameDsts(ops[i].dsts, vars', lo, nextVar');
      WithDefsNext(before, vars', ops, i);
      ops' := ops' + [ops[i].(dsts := dsts)];
      i := i + 1;
    }
    assert ops[..i] == ops;
  }

  /** v is defined in one of the first k listed blocks. */
  ghost predicate DefinedIn(before: seq<Block>, order: seq<nat>, k: nat, v: nat)
    requires k <= |order|
  {
    exists j :: 0 <= j < k && order[j] < |before| && v in Defs(before[order[j]].ops)
  }

  /** The originals come first and are unchanged; after them stands one copy for each of the first
      n listed blocks. */
  ghost predicate Copied(before: seq<Block>, blocks: seq<Block>, order: seq<nat>, n: nat, result: map<nat, nat>) {
    && n <= |order| && Distinct(order) && (forall j :: 0 <= j < |order| ==> order[j] < |before|)
    && |blocks| == |before| + n && (forall b :: 0 <= b < |before| ==> blocks[b] == before[b])
    && (forall j :: 0 <= j < n ==> order[j] in result && result[order[j]] == |before| + j)
    && (forall b :: b in result ==> b in order[..n])
  }

  /** The copies number lo to hi are still equal to their originals. */
  ghost predicate Same(before: seq<Block>, blocks: seq<Block>, order: seq<nat>, lo: nat, hi: nat)
    requires hi <= |order| && |blocks| == |before| + |order| && forall j :: 0 <= j < |order| ==> order[j] < |before|
  {
    forall j :: lo <= j < hi ==> blocks[|before| + j] == before[order[j]]
  }

  ghost predicate Renamed(before: seq<Block>, blocks: seq<Block>, order: seq<nat>, vars: map<nat, nat>, lo: nat, hi: nat)
    requires hi <= |order| && |blocks| == |before| + |order| && forall j :: 0 <= j < |order| ==> order[j] < |before|
  {
    forall j :: lo <= j < hi ==> blocks[|before| + j] == before[order[j]].(ops := WithDefs(vars, before[order[j]].ops))
  }

  ghost predicate Relinked(before: seq<Block>, blocks: seq<Block>, order: seq<nat>, result: map<nat, nat>, vars: map<nat, nat>, hi: nat)
    requires hi <= |order| && |blocks| == |before| + |order| && forall j :: 0 <= j < |order| ==> order[j] < |before|
  {
    forall j :: 0 <= j < hi ==> blocks[|before| + j] == CopyOf(result, vars, before[order[j]])
  }

  ghost predicate DefinesExactly(before: seq<Block>, order: seq<nat>, k: nat, vars: map<nat, nat>)
    requires k <= |order|
  {
    forall v: nat :: v in vars <==> DefinedIn(before, order, k, v)
  }

  lemma DefinedNext(before: seq<Block>, order: seq<nat>, k: nat, v: nat)
    requires k < |order| && order[k] < |before|
    ensures DefinedIn(before, order, k + 1, v) <==> DefinedIn(before, order, k, v) || v in Defs(before[order[k]].ops)
  {
  }

  lemma NotYetDefined(before: seq<Block>, order: seq<nat>, k: nat, vars: map<nat, nat>)
    requires SingleAssignment(before) && Distinct(order) && k < |order| && forall j :: 0 <= j < |order| ==> order[j] < |before|
    requires DefinesExactly(before, order, k, vars)
    ensures forall v :: v in Defs(before[order[k]].ops) ==> v !in vars
  {
    forall v | v in Defs(before[order[k]].ops)
      ensures !DefinedIn(before, order, k, v)
    {
    }
  }

  lemma DefinesNext(before: seq<Block>, order: seq<nat>, k: nat, vars: map<nat, nat>, vars': map<nat, nat>)
    requires k < |order| && order[k] < |before| && DefinesExactly(before, order, k, vars)
    requires Extends(vars, vars') && forall v :: v in vars' <==> v in vars || v in Defs(before[order[k]].ops)
    ensures DefinesExactly(before, order, k + 1, vars')
  {
    forall v: nat
      ensures v in vars' <==> DefinedIn(before, order, k + 1, v)
    {
      DefinedNext(before, order, k, v);
    }
  }

  lemma NamesKept(before: seq<Block>, order: seq<nat>, k: nat, vars: map<nat, nat>, vars': map<nat, nat>, j: nat)
    requires j < k <= |order| && order[j] < |before| && DefinesExactly(before, order, k, vars) && Extends(vars, vars')
    ensures WithDefs(vars, before[order[j]].ops) == WithDefs(vars', before[order[j]].ops)
  {
    forall v | v in Defs(before[order[j]].ops)
      ensures v in vars
    {
      assert DefinedIn(before, order, k, v);
    }
    WithDefsStable(vars, vars', before[order[j]].ops);
  }

  lemma StaysRenamed(before: seq<Block>, blocks: seq<Block>, order: seq<nat>, n: nat, k: nat, vars: map<nat, nat>, vars': map<nat, nat>)
    requires n == |before| && k <= |order| && |blocks| == n + |order| && forall j :: 0 <= j < |order| ==> order[j] < n
    requires Renamed(before, blocks, order, vars, 0, k) && DefinesExactly(before, order, k, vars) && Extends(vars, vars')
    ensures Renamed(before, blocks, order, vars', 0, k)
  {
    forall j | 0 <= j < k
      ensures blocks[n + j] == before[order[j]].(ops := WithDefs(vars', before[order[j]].ops))
    {
      NamesKept(before, order, k, vars, vars', j);
    }
  }

  /** One more block has its definitions renamed. */
  lemma RenamedNext(before: seq<Block>, blocks: seq<Block>, order: seq<nat>, n: nat, k: nat, vars: map<nat, nat>)
    requires n == |before| && k < |order| && |blocks| == n + |order| && forall j :: 0 <= j < |order| ==> order[j] < n
    requires Renamed(before, blocks, order, vars, 0, k) && Same(before, blocks, order, k, |order|)
    ensures var copy := before[order[k]].(ops := WithDefs(vars, before[order[k]].ops));
            && Renamed(before, blocks[n + k := copy], order, vars, 0, k + 1)
            && Same(before, blocks[n + k := copy], order, k + 1, |order|)
  {
    var blocks' := blocks[n + k := before[order[k]].(ops := WithDefs(vars, before[order[k]].ops))];
    forall j | 0 <= j < k + 1
      ensures blocks'[n + j] == before[order[j]].(ops := WithDefs(vars, before[order[j]].ops))
    {
    }
    forall j | k + 1 <= j < |order|
      ensures blocks'[n + j] == before[order[j]]
    {
      assert blocks[n + j] == before[order[j]];
    }
  }

  lemma RelinkedNext(before: seq<Block>, blocks: seq<Block>, order: seq<nat>, n: nat, k: nat, result: map<nat, nat>, vars: map<nat, nat>)
    requires n == |before| && k < |order| && |blocks| == n + |order| && forall j :: 0 <= j < |order| ==> order[j] < n
    requires Relinked(before, blocks, order, result, vars, k) && Renamed(before, blocks, order, vars, k, |order|)
    ensures var copy := CopyOf(result, vars, before[order[k]]);
            && Relinked(before, blocks[n + k := copy], order, result, vars, k + 1)
            && Renamed(before, blocks[n + k := copy], order, vars, k + 1, |order|)
  {
    var blocks' := blocks[n + k := CopyOf(result, vars, before[order[k]])];
    forall j | 0 <= j < k + 1
      ensures blocks'[n + j] == CopyOf(result, vars, before[order[j]])
    {
      assert j < k ==> blocks[n + j] == CopyOf(result, vars, before[order[j]]);
    }
    forall j | k + 1 <= j < |order|
      ensures blocks'[n + j] == before[order[j]].(ops := WithDefs(vars, before[order[j]].ops))
    {
      assert blocks[n + j] == before[order[j]].(ops := WithDefs(vars, before[order[j]].ops));
    }
  }

  lemma CopyReplaced(before: seq<Block>, blocks: seq<Block>, order: seq<nat>, result: map<nat, nat>, k: nat, copy: Block)
    requires Copied(before, blocks, order, |order|, result) && k < |order|
    ensures result[order[k]] == |before| + k < |blocks| && blocks[order[k]] == before[order[k]]
    ensures Copied(before, blocks[|before| + k := copy], order, |order|, result)
  {
  }

  lemma NextCopy(before: seq<Block>, blocks: seq<Block>, order: seq<nat>, result: map<nat, nat>, k: nat)
    requires Copied(before, blocks, order, |order|, result) && k < |order| && Same(before, blocks, order, k, |order|)
    ensures order[k] < |before| && order[k] in result && result[order[k]] == |before| + k < |blocks|
    ensures blocks[|before| + k] == before[order[k]]
  {
  }

  /** The state of the renaming after one more block. */
  lemma RenamingNext(before: seq<Block>, blocks: seq<Block>, order: seq<nat>, result: map<nat, nat>, k: nat,
      vars: map<nat, nat>, vars': map<nat, nat>)
    requires k < |order| && Copied(before, blocks, order, |order|, result) && DefinesExactly(before, order, k, vars)
    requires Renamed(before, blocks, order, vars, 0, k) && Same(before, blocks, order, k, |order|)
    requires Extends(vars, vars') && forall v :: v in vars' <==> v in vars || v in Defs(before[order[k]].ops)
    ensures DefinesExactly(before, order, k + 1, vars')
    ensures var blocks' := blocks[|before| + k := before[order[k]].(ops := WithDefs(vars', before[order[k]].ops))];
            && Copied(before, blocks', order, |order|, result)
            && Renamed(before, blocks', order, vars', 0, k + 1) && Same(before, blocks', order, k + 1, |order|)
  {
    var copy := before[order[k]].(ops := WithDefs(vars', before[order[k]].ops));
    DefinesNext(before, order, k, vars, vars');
    CopyReplaced(before, blocks, order, result, k, copy);
    StaysRenamed(before, blocks, order, |before|, k, vars, vars');
    RenamedNext(before, blocks, order, |before|, k, vars');
  }

  lemma CopiedNext(before: seq<Block>, blocks: seq<Block>, order: seq<nat>, k: nat, result: map<nat, nat>)
    requires Copied(before, blocks, order, k, result) && k < |order|
    requires forall j :: 0 <= j < k ==> blocks[|before| + j] == before[order[j]]
    ensures order[k] < |before| && blocks[order[k]] == before[order[k]]
    ensures Copied(before, blocks + [blocks[order[k]]], order, k + 1, result[order[k] := |blocks|])
    ensures forall j :: 0 <= j < k + 1 ==> (blocks + [blocks[order[k]]])[|before| + j] == before[order[j]]
  {
    assert order[..k + 1] == order[..k] + [order[k]];
  }

  /** A finished duplication: the blocks before and after it, the blocks that start reaches in the
      order they were copied, the copy of each, and the new variable of each definition. */
  datatype Duplication = Duplication(before: seq<Block>, blocks: seq<Block>, start: nat, order: seq<nat>,
                                     result: map<nat, nat>, vars: map<nat, nat>, lo: nat, hi: nat) {
    /** The region has one copy of each block, with jumps, definitions and arguments renamed; its
        variables are numbered from lo on. */
    ghost predicate Valid() {
      && (forall b: nat :: b in order <==> InRegion(before, start, b))
      && Copied(before, blocks, order, |order|, result)
      && DefinesExactly(before, order, |order|, vars)
      && Relinked(before, blocks, order, result, vars, |order|)
      && Fresh(vars, lo, hi)
    }

    /** The region defines v. */
    ghost predicate Defines(v: nat) {
      DefinedIn(before, order, |order|, v)
    }
  }

  /** A list of blocks that grows by copies, and the number of the next variable. */
  class Program {
    var blocks: seq<Block>
    var nextVar: nat

    constructor (blocks: seq<Block>, nextVar: nat)
      ensures this.blocks == blocks && this.nextVar == nextVar
    {
      this.blocks := blocks;
      this.nextVar := nextVar;
    }

    /** A copy of every listed block, still jumping where the original does. */
    method CopyBlocks(order: seq<nat>) returns (result: map<nat, nat>)
      requires Distinct(order) && forall j :: 0 <= j < |order| ==> order[j] < |blocks|
      modifies this`blocks
      ensures Copied(old(blocks), blocks, order, |order|, result) && Same(old(blocks), blocks, order, 0, |order|)
    {
      result := map[];
      ghost var before := blocks;
      var k := 0;
      while k < |order|
        invariant Copied(before, blocks, order, k, result)
        invariant forall j :: 0 <= j < k ==> blocks[|before| + j] == before[order[j]]
      {
        var b := order[k];
        CopiedNext(before, blocks, order, k, result);
        result := result[b := |blocks|];
        blocks := blocks + [blocks[b]];
        k := k + 1;
      }
    }

    /** Gives the copies variables of their own for the results of their operations. */
    method RenameDefinitions(order: seq<nat>, result: map<nat, nat>, ghost before: seq<Block>) returns (vars: map<nat, nat>)
      requires SingleAssignment(before) && Copied(before, blocks, order, |order|, result)
      requires Same(before, blocks, order, 0, |order|)
      modifies this
      ensures old(nextVar) <= nextVar && Fresh(vars, old(nextVar), nextVar) && DefinesExactly(before, order, |order|, vars)
      ensures Copied(before, blocks, order, |order|, result) && Renamed(before, blocks, order, vars, 0, |order|)
    {
      vars := map[];
      var k := 0;
      while k < |order|
        invariant k <= |order| && old(nextVar) <= nextVar && Fresh(vars, old(nextVar), nextVar)
        invariant DefinesExactly(before, order, k, vars) && Copied(before, blocks, order, |order|, result)
        invariant Renamed(before, blocks, order, vars, 0, k) && Same(before, blocks, order, k, |order|)
      {
        var c := result[order[k]];
        ghost var vars0 := vars;
        NextCopy(before, blocks, order, result, k);
        NotYetDefined(before, order, k, vars);
        var ops;
        ops, vars, nextVar := RenameDefs(blocks[c].ops, vars, old(nextVar), nextVar);
        var copy := blocks[c].(ops := ops);
        RenamingNext(before, blocks, order, result, k, vars0, vars);
        blocks := blocks[c := copy];
        k := k + 1;
      }
    }

    /** Renames the arguments of the copies and leads their jumps and phi sources to copies. */
    method Relink(order: seq<nat>, result: map<nat, nat>, vars: map<nat, nat>, ghost before: seq<Block>)
      requires Copied(before, blocks, order, |order|, result) && Renamed(before, blocks, order, vars, 0, |order|)
      modifies this`blocks
      ensures Copied(before, blocks, order, |order|, result) && Relinked(before, blocks, order, result, vars, |order|)
    {
      var k := 0;
      while k < |order|
        invariant k <= |order| && Copied(before, blocks, order, |order|, result)
        invariant Renamed(before, blocks, order, vars, k, |order|) && Relinked(before, blocks, order, result, vars, k)
      {
        var c := result[order[k]];
        var copy := RelinkBlock(blocks[order[k]], blocks[c], result, vars);
        CopyReplaced(before, blocks, order, result, k, copy);
        RelinkedNext(before, blocks, order, |before|, k, result, vars);
        blocks := blocks[c := copy];
        k := k + 1;
      }
    }

    /** Copies the blocks reachable from start, and says which copy belongs to which block. */
    method Duplicate(start: nat) returns (result: map<nat, nat>, ghost dup: Duplication)
      requires WellFormedBlocks(blocks) && SingleAssignment(blocks) && start < |blocks|
      modifies this
      ensures dup.Valid() && dup.before == old(blocks) && dup.blocks == blocks && dup.start == start && dup.result == result
      ensures dup.lo == old(nextVar) <= nextVar == dup.hi
    {
      ghost var before := blocks;
      var seen := Discover(blocks, start);
      var toCopy := Listed(seen);
      forall j | 0 <= j < |toCopy|
        ensures toCopy[j] < |blocks|
      {
        assert toCopy[j] in seen;
      }
      result := CopyBlocks(toCopy);
      var varMapping := RenameDefinitions(toCopy, result, before);
      Relink(toCopy, result, varMapping, before);
      dup := Duplication(before, blocks, start, toCopy, result, varMapping, old(nextVar), nextVar);
    }
  }

  /** The elements of a set in some order. */
  method Listed(s: set<nat>) returns (order: seq<nat>)
    ensures Distinct(order) && |order| == |s| && forall x :: x in order <==> x in s
  {
    order := [];
    var remaining := s;
    while remaining != {}
      invariant Distinct(order) && |order| + |remaining| == |s|
      invariant forall x :: x in s <==> x in order || x in remaining
      invariant forall x :: x in remaining ==> x !in order
    {
      var x :| x in remaining;
      order := order + [x];
      remaining := remaining - {x};
    }
  }

  method RelinkOps(ops: seq<Op>, dups: seq<Op>, result: map<nat, nat>, vars: map<nat, nat>) returns (copies: seq<Op>)
    requires dups == WithDefs(vars, ops)
    ensures copies == CopyOps(result, vars, ops)
  {
    copies := [];
    var i := 0;
    while i < |ops|
      invariant i <= |ops| && |copies| == i && forall j :: 0 <= j < i ==> copies[j] == CopyOp(result, vars, ops[j])
    {
      var args := RenameAll(vars, ops[i].args);
      var from := if ops[i].isPhi then RenameAll(result, ops[i].from) else ops[i].from;
      copies := copies + [dups[i].(args := args, from := from)];
      i := i + 1;
    }
  }

  method RelinkBranches(branches: seq<Branch>, result: map<nat, nat>) returns (copies: seq<Branch>)
    ensures copies == CopyBranches(result, branches)
  {
    copies := branches;
    var k := 0;
    while k < |branches|
      invariant k <= |branches| && |copies| == |branches|
      invariant forall j :: 0 <= j < k ==> copies[j] == branches[j].(target := Rename(result, branches[j].target))
      invariant forall j :: k <= j < |branches| ==> copies[j] == branches[j]
    {
      if branches[k].target in result {
        copies := copies[k := copies[k].(target := result[branches[k].target])];
      }
      k := k + 1;
    }
  }

  method RelinkBlock(b: Block, dup: Block, result: map<nat, nat>, vars: map<nat, nat>) returns (copy: Block)
    requires dup == b.(ops := WithDefs(vars, b.ops))
    ensures copy == CopyOf(result, vars, b)
  {
    var ops := RelinkOps(b.ops, dup.ops, result, vars);
    var next := dup.next;
    if b.next.Some? && b.next.value in result {
      next := Some(result[b.next.value]);
    }
    var branches := RelinkBranches(b.branches, result);
    copy := Block(ops, branches, next, dup.isReturn, dup.isErr, dup.returnVal);
  }
}
