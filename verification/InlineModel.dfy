/** Basic blocks as the inliner sees them, and when its expansion of a function works. */
module InlineModel {
  import opened Options
  import opened Reachability
  import opened CallGraph

  /** Operations that matter to inlining: calls, and everything else. The number stands for all else
      that makes up an operation. */
  datatype Op = Plain(id: nat) | Call(id: nat, callee: nat, builtIn: bool)

  datatype Bb = Bb(ops: seq<Op>, branches: seq<nat>, defaultNext: Option<nat>, isReturn: bool, isErr: bool)

  predicate ShouldTryInline(op: Op) {
    op.Call? && !op.builtIn
  }

  ghost predicate Inlined(g: Adj, op: Op) {
    ShouldTryInline(op) && !OnCycle(g, op.callee)
  }

  /** The successors that count towards in-degrees: none for a return or error block. */
  function Succs(b: Bb): set<nat> {
    if b.isReturn || b.isErr then {}
    else (set x | x in b.branches) + (if b.defaultNext.Some? then {b.defaultNext.value} else {})
  }

  /** A function body: jumps stay inside, only return and error blocks lack a default successor,
      exactly one block has in-degree zero and exactly one returns. */
  ghost predicate SingleEntryExit(bbs: seq<Bb>, entry: nat, ret: nat) {
    && entry < |bbs| && ret < |bbs|
    && (forall i, x :: 0 <= i < |bbs| && x in bbs[i].branches ==> x < |bbs|)
    && (forall i :: 0 <= i < |bbs| && bbs[i].defaultNext.Some? ==> bbs[i].defaultNext.value < |bbs|)
    && (forall i :: 0 <= i < |bbs| && !bbs[i].isReturn && !bbs[i].isErr ==> bbs[i].defaultNext.Some?)
    && (forall i :: 0 <= i < |bbs| ==> (bbs[i].isReturn <==> i == ret))
    && (forall k :: 0 <= k < |bbs| ==> (k == entry <==> !Targeted(bbs, |bbs|, k)))
  }

  lemma UniqueEntryExit(bbs: seq<Bb>, e1: nat, r1: nat, e2: nat, r2: nat)
    requires SingleEntryExit(bbs, e1, r1) && SingleEntryExit(bbs, e2, r2)
    ensures e1 == e2 && r1 == r2
  {
    assert !Targeted(bbs, |bbs|, e1);
    assert bbs[r1].isReturn;
  }

  /** Some block before the n-th jumps to k. */
  ghost predicate Targeted(bbs: seq<Bb>, n: nat, k: nat)
    requires n <= |bbs|
  {
    exists c :: 0 <= c < n && k in Succs(bbs[c])
  }

  /** The functions of an element with their call graph. */
  ghost predicate WellFormedProgram(funcs: seq<seq<Bb>>, g: Adj) {
    && WellFormed(g) && |g| == |funcs|
    && (forall f, i, op :: 0 <= f < |funcs| && 0 <= i < |funcs[f]| && op in funcs[f][i].ops && ShouldTryInline(op) ==>
          Edge(g, f, op.callee))
  }

  /** How many of the operations are replaced by the callee's body. */
  ghost function InlinedCount(g: Adj, ops: seq<Op>): nat {
    CountBefore(g, ops, |ops|)
  }

  /** The same among the first n operations. */
  ghost function CountBefore(g: Adj, ops: seq<Op>, n: nat): nat
    requires n <= |ops|
  {
    if n == 0 then 0 else CountBefore(g, ops, n - 1) + (if Inlined(g, ops[n - 1]) then 1 else 0)
  }

  ghost predicate Calls(g: Adj, bbs: seq<Bb>, callee: nat) {
    exists i, op :: 0 <= i < |bbs| && op in bbs[i].ops && Inlined(g, op) && op.callee == callee
  }

  /** The functions an expansion of f gets to see, f included, each have one entry and one return
      block. Nothing is asked of functions that are recursive or not called. */
  ghost predicate Expandable(funcs: seq<seq<Bb>>, g: Adj, f: nat)
    requires WellFormedProgram(funcs, g) && f < |funcs|
    decreases ReachSet(g, f)
  {
    && (exists entry: nat, ret: nat :: SingleEntryExit(funcs[f], entry, ret))
    && (forall c :: Calls(g, funcs[f], c) ==>
          (CalleeShrinks(funcs, g, f, c); Expandable(funcs, g, c)))
  }

  /** The expansion of f meets its promises: no block holds two calls to expand, every callee to
      expand is itself good, and the return block is not also the entry with nothing to expand. */
  ghost predicate Good(funcs: seq<seq<Bb>>, g: Adj, f: nat)
    requires WellFormedProgram(funcs, g) && f < |funcs|
    decreases ReachSet(g, f)
  {
    && (forall i :: 0 <= i < |funcs[f]| ==> InlinedCount(g, funcs[f][i].ops) <= 1)
    && (forall entry: nat, ret: nat :: SingleEntryExit(funcs[f], entry, ret) && entry == ret ==>
          InlinedCount(g, funcs[f][ret].ops) != 0)
    && (forall c :: Calls(g, funcs[f], c) ==>
          (CalleeShrinks(funcs, g, f, c); Good(funcs, g, c)))
  }

  lemma CalleeShrinks(funcs: seq<seq<Bb>>, g: Adj, f: nat, c: nat)
    requires WellFormedProgram(funcs, g) && f < |funcs| && Calls(g, funcs[f], c)
    ensures c < |funcs| && ReachSet(g, c) < ReachSet(g, f)
  {
    var i, op :| 0 <= i < |funcs[f]| && op in funcs[f][i].ops && Inlined(g, op) && op.callee == c;
    InlineShrinks(g, f, c);
  }

  /** One function, whose one block is entry and return. */
  function SingleBlock(): (funcs: seq<seq<Bb>>)
    ensures |funcs| == 1 && |funcs[0]| == 1
  {
    [[Bb([], [], None, true, false)]]
  }

  /** A function whose one block is entry and return and calls nothing is not good. */
  lemma SingleBlockNotGood()
    ensures WellFormedProgram(SingleBlock(), [[]])
    ensures Expandable(SingleBlock(), [[]], 0) && !Good(SingleBlock(), [[]], 0)
  {
    var body := SingleBlock()[0];
    assert SingleEntryExit(body, 0, 0);
    assert InlinedCount([[]], body[0].ops) == 0;
    assert forall c :: !Calls([[]], body, c);
  }

  /** Function 0 calls function 1 twice in its first block; both have an entry and a return block. */
  function TwoCalls(): (funcs: seq<seq<Bb>>)
    ensures |funcs| == 2 && |funcs[0]| == |funcs[1]| == 2
  {
    var last := Bb([], [], None, true, false);
    [[Bb([Call(0, 1, false), Call(1, 1, false)], [], Some(1), false, false), last], [Bb([], [], Some(1), false, false), last]]
  }

  lemma EntryThenReturn(bbs: seq<Bb>)
    requires |bbs| == 2 && bbs[0].branches == [] && bbs[0].defaultNext == Some(1) && !bbs[0].isReturn && !bbs[0].isErr
    requires bbs[1] == Bb([], [], None, true, false)
    ensures SingleEntryExit(bbs, 0, 1)
  {
    assert 1 in Succs(bbs[0]) && Targeted(bbs, 2, 1);
  }

  lemma TwoCallsWellFormed()
    ensures WellFormedProgram(TwoCalls(), [[1], []])
    ensures SingleEntryExit(TwoCalls()[0], 0, 1) && SingleEntryExit(TwoCalls()[1], 0, 1)
  {
    var funcs := TwoCalls();
    EntryThenReturn(funcs[0]);
    EntryThenReturn(funcs[1]);
  }

  lemma PlainCalleeGood()
    ensures WellFormedProgram(TwoCalls(), [[1], []])
    ensures Expandable(TwoCalls(), [[1], []], 1) && Good(TwoCalls(), [[1], []], 1)
  {
    TwoCallsWellFormed();
    var funcs := TwoCalls();
    assert forall c :: !Calls([[1], []], funcs[1], c);
    assert 1 in Succs(funcs[1][0]) && Targeted(funcs[1], 2, 1);
    assert forall entry: nat, ret: nat :: SingleEntryExit(funcs[1], entry, ret) ==> entry != 1 && funcs[1][ret].isReturn;
  }

  /** A function with two calls to expand in one block is not good, however simple its callee. */
  lemma TwoCallsNotGood()
    ensures WellFormedProgram(TwoCalls(), [[1], []])
    ensures Expandable(TwoCalls(), [[1], []], 0)
    ensures Good(TwoCalls(), [[1], []], 1) && !Good(TwoCalls(), [[1], []], 0)
  {
    PlainCalleeGood();
    TwoCallsWellFormed();
    assert forall c :: Calls([[1], []], TwoCalls()[0], c) ==> c == 1;
    var g: Adj, ops := [[1], []], [Call(0, 1, false), Call(1, 1, false)];
    assert Inlined(g, ops[0]) && Inlined(g, ops[1]);
    assert CountBefore(g, ops, 1) == 1 && CountBefore(g, ops, 2) == 2;
    assert TwoCalls()[0][0].ops == ops;
  }
}