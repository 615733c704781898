/** Recursive expansion of calls into the basic blocks of a function. */
module Inline {
  import opened Options
  import opened Reachability
  import opened Graph
  import opened CallGraph
  import opened InlineModel
  import opened InlineState
  import opened InlineSteps
  import opened InlineBroken
  import opened InlineFinish
  import opened InlineContents
  import opened InlineRun
  import opened InlineOrder

  /** The first n operations hold at most one call to expand, and that of a good function. */
  ghost predicate OpsGood(funcs: seq<seq<Bb>>, g: Adj, ops: seq<Op>, n: nat)
    requires WellFormedProgram(funcs, g) && n <= |ops|
  {
    n == 0 ||
    (OpsGood(funcs, g, ops, n - 1) &&
     StaysGood(funcs, g, ops[n - 1], CountBefore(g, ops, n - 1)))
  }

  ghost predicate StaysGood(funcs: seq<seq<Bb>>, g: Adj, op: Op, count: nat)
    requires WellFormedProgram(funcs, g)
  {
    Inlined(g, op) ==> count == 0 && op.callee < |funcs| && Good(funcs, g, op.callee)
  }

  ghost predicate BlockGood(funcs: seq<seq<Bb>>, g: Adj, bb: Bb)
    requires WellFormedProgram(funcs, g)
  {
    OpsGood(funcs, g, bb.ops, |bb.ops|)
  }

  ghost predicate GoodUpTo(funcs: seq<seq<Bb>>, g: Adj, bbs: seq<Bb>, n: nat)
    requires WellFormedProgram(funcs, g) && n <= |bbs|
  {
    n == 0 || (GoodUpTo(funcs, g, bbs, n - 1) && BlockGood(funcs, g, bbs[n - 1]))
  }

  lemma {:induction false} OpsGoodMeans(funcs: seq<seq<Bb>>, g: Adj, ops: seq<Op>, n: nat)
    requires WellFormedProgram(funcs, g) && n <= |ops|
    ensures OpsGood(funcs, g, ops, n) <==>
        CountBefore(g, ops, n) <= 1 &&
        forall k :: 0 <= k < n && Inlined(g, ops[k]) ==> ops[k].callee < |funcs| && Good(funcs, g, ops[k].callee)
  {
    if n > 0 {
      OpsGoodMeans(funcs, g, ops, n - 1);
    }
  }

  lemma {:induction false} GoodUpToMeans(funcs: seq<seq<Bb>>, g: Adj, bbs: seq<Bb>, n: nat)
    requires WellFormedProgram(funcs, g) && n <= |bbs|
    ensures GoodUpTo(funcs, g, bbs, n) <==> forall i :: 0 <= i < n ==> BlockGood(funcs, g, bbs[i])
  {
    if n > 0 {
      GoodUpToMeans(funcs, g, bbs, n - 1);
    }
  }

  /** The blocks with these indices are still as allocated. */
  ghost predicate Blank(heap: map<nat, Bb>, lo: nat, hi: nat) {
    forall id :: lo <= id < hi ==> id in heap && heap[id] == Bb([], [], None, false, false)
  }

  /** The blocks before number hi are as they were, apart from cur. */
  ghost predicate KeptBut(before: map<nat, Bb>, after: map<nat, Bb>, hi: nat, cur: nat) {
    forall id :: id < hi && id != cur && id in before ==> id in after && after[id] == before[id]
  }

  /** The meaning of Good, block by block. */
  lemma GoodByBlocks(funcs: seq<seq<Bb>>, g: Adj, f: nat, job: Job)
    requires WellFormedProgram(funcs, g) && f < |funcs| && job.Valid() && job.bbs == funcs[f]
    ensures Good(funcs, g, f) <==>
        GoodUpTo(funcs, g, job.bbs, |job.bbs|) && !(job.entry == job.ret && InlinedCount(g, job.bbs[job.ret].ops) == 0)
  {
    GoodUpToMeans(funcs, g, job.bbs, |job.bbs|);
    forall i | 0 <= i < |job.bbs|
      ensures BlockGood(funcs, g, job.bbs[i]) <==> OneGoodCall(funcs, g, job.bbs[i].ops)
    {
      BlockGoodMeans(funcs, g, job.bbs[i]);
    }
    if Good(funcs, g, f) {
      forall i | 0 <= i < |job.bbs|
        ensures OneGoodCall(funcs, g, job.bbs[i].ops)
      {
        GoodBlocks(funcs, g, f, i);
      }
    } else if forall i :: 0 <= i < |job.bbs| ==> OneGoodCall(funcs, g, job.bbs[i].ops) {
      GoodIfBlocks(funcs, g, f, job);
    }
  }

  ghost predicate OneGoodCall(funcs: seq<seq<Bb>>, g: Adj, ops: seq<Op>)
    requires WellFormedProgram(funcs, g)
  {
    && InlinedCount(g, ops) <= 1
    && forall op :: op in ops && Inlined(g, op) ==> op.callee < |funcs| && Good(funcs, g, op.callee)
  }

  lemma BlockGoodMeans(funcs: seq<seq<Bb>>, g: Adj, bb: Bb)
    requires WellFormedProgram(funcs, g)
    ensures BlockGood(funcs, g, bb) <==> OneGoodCall(funcs, g, bb.ops)
  {
    OpsGoodMeans(funcs, g, bb.ops, |bb.ops|);
  }

  lemma GoodBlocks(funcs: seq<seq<Bb>>, g: Adj, f: nat, i: nat)
    requires WellFormedProgram(funcs, g) && f < |funcs| && Good(funcs, g, f) && i < |funcs[f]|
    ensures OneGoodCall(funcs, g, funcs[f][i].ops)
  {
    forall op | op in funcs[f][i].ops && Inlined(g, op)
      ensures op.callee < |funcs| && Good(funcs, g, op.callee)
    {
      assert Calls(g, funcs[f], op.callee);
      CalleeShrinks(funcs, g, f, op.callee);
    }
  }

  lemma GoodIfBlocks(funcs: seq<seq<Bb>>, g: Adj, f: nat, job: Job)
    requires WellFormedProgram(funcs, g) && f < |funcs| && job.Valid() && job.bbs == funcs[f]
    requires !Good(funcs, g, f)
    requires forall i :: 0 <= i < |job.bbs| ==> OneGoodCall(funcs, g, job.bbs[i].ops)
    ensures job.entry == job.ret && InlinedCount(g, job.bbs[job.ret].ops) == 0
  {
    forall c: nat | Calls(g, funcs[f], c)
      ensures c < |funcs| && Good(funcs, g, c)
    {
      CalleeShrinks(funcs, g, f, c);
      var i, op :| 0 <= i < |funcs[f]| && op in funcs[f][i].ops && Inlined(g, op) && op.callee == c;
      assert OneGoodCall(funcs, g, job.bbs[i].ops);
    }
    assert forall i :: 0 <= i < |funcs[f]| ==> OneGoodCall(funcs, g, funcs[f][i].ops);
    var entry: nat, ret: nat :| SingleEntryExit(funcs[f], entry, ret) && entry == ret && InlinedCount(g, funcs[f][ret].ops) == 0;
    UniqueEntryExit(funcs[f], entry, ret, job.entry, job.ret);
  }

  lemma {:induction false} OpsGoodFalls(funcs: seq<seq<Bb>>, g: Adj, ops: seq<Op>, j: nat, n: nat)
    requires WellFormedProgram(funcs, g) && j <= n <= |ops| && !OpsGood(funcs, g, ops, j)
    ensures !OpsGood(funcs, g, ops, n)
  {
    if j < n {
      OpsGoodFalls(funcs, g, ops, j, n - 1);
    }
  }

  lemma {:induction false} GoodUpToFalls(funcs: seq<seq<Bb>>, g: Adj, bbs: seq<Bb>, i: nat, n: nat)
    requires WellFormedProgram(funcs, g) && i <= n <= |bbs| && !GoodUpTo(funcs, g, bbs, i)
    ensures !GoodUpTo(funcs, g, bbs, n)
  {
    if i < n {
      GoodUpToFalls(funcs, g, bbs, i, n - 1);
    }
  }

  /** What the expansion of f may assume of the functions called from a block. */
  ghost predicate CalleesReady(funcs: seq<seq<Bb>>, g: Adj, f: nat, ops: seq<Op>)
    requires WellFormedProgram(funcs, g)
  {
    && (forall j :: 0 <= j < |ops| && ShouldTryInline(ops[j]) ==> Edge(g, f, ops[j].callee) && ops[j].callee < |funcs|)
    && (forall j :: 0 <= j < |ops| && Inlined(g, ops[j]) ==> ops[j].callee < |funcs| && Expandable(funcs, g, ops[j].callee))
  }

  lemma CalleesAreReady(funcs: seq<seq<Bb>>, g: Adj, f: nat, i: nat)
    requires WellFormedProgram(funcs, g) && f < |funcs| && i < |funcs[f]| && Expandable(funcs, g, f)
    ensures CalleesReady(funcs, g, f, funcs[f][i].ops)
  {
    var ops := funcs[f][i].ops;
    forall j | 0 <= j < |ops| && Inlined(g, ops[j])
      ensures ops[j].callee < |funcs| && Expandable(funcs, g, ops[j].callee)
    {
      assert Calls(g, funcs[f], ops[j].callee);
    }
  }

  /** The blocks allocated so far, by index, and the functions being expanded. */
  class Inliner {
    const funcs: seq<seq<Bb>>
    const g: Adj
    var arena: map<nat, Bb>
    var next: nat

    ghost predicate Valid()
      reads this
    {
      forall id: nat :: id in arena <==> id < next
    }

    constructor (funcs: seq<seq<Bb>>, g: Adj)
      requires WellFormedProgram(funcs, g)
      ensures Valid() && this.funcs == funcs && this.g == g
    {
      this.funcs := funcs;
      this.g := g;
      arena := map[];
      next := 0;
    }

    /** Allocates an empty stand-in for every block of the body. */
    method Allocate(n: nat) returns (base: nat)
      requires Valid()
      modifies this
      ensures Valid() && base == old(next) && next == base + n && Framed(old(arena), arena, base)
      ensures Blank(arena, base, next)
    {
      base := next;
      var i := 0;
      while i < n
        invariant i <= n && next == base + i && Valid() && Framed(old(arena), arena, base)
        invariant Blank(arena, base, next)
      {
        arena := arena[next := Bb([], [], None, false, false)];
        next := next + 1;
        i := i + 1;
      }
    }

    /** The present state before operation j of block i, as the last state of a run that carries on
        from p. */
    ghost function Inside(p: Progress, i: nat, j: nat, out: seq<nat>, cur: nat, count: nat, ok: bool, t: Layout): Progress
      reads this
    {
      Progress(Element(funcs, g), p.f, p.job, arena, next, i, j, out, true, cur, count, p.fin, ok, t)
    }

    /** The same between two blocks. */
    ghost function Between(p: Progress, i: nat, out: seq<nat>, ok: bool): Progress
      reads this
    {
      p.(e := Element(funcs, g), heap := arena, hi := next, n := i, out := out, inside := false, ok := ok)
    }

    /** Expands one call at the end of the current part. */
    method InlineCall(f: nat, ghost op: Op, callee: nat, i: nat, ghost j: nat, out: seq<nat>, cur: nat, ghost run: seq<Progress>)
      returns (r: Option<seq<nat>>, cur': nat, ghost run': seq<Progress>)
      requires WellFormedProgram(funcs, g) && Valid() && callee < |funcs| && f < |funcs| && Edge(g, f, callee) && !OnCycle(g, callee)
      requires Expandable(funcs, g, callee)
      requires IsRun(run) && Last(run) == Inside(Last(run), i, j, out, cur, Last(run).count, Last(run).ok, Last(run).t)
      requires Last(run).NextIs(op) && ShouldTryInline(op) && op.callee == callee
      modifies this
      ensures Valid() && KeptBut(old(arena), arena, old(next), cur) && old(next) <= next
      ensures r.None? ==> !Good(funcs, g, callee)
      ensures r.Some? ==> cur' >= Last(run).job.Limit() && IsRun(run')
      ensures r.Some? ==> var p := Last(run);
          Last(run') == Inside(p, i, j + 1, r.value, cur', p.count + 1, p.ok && p.count == 0 && Good(funcs, g, callee), Last(run').t)
      decreases ReachSet(g, f), 0
    {
      InlineShrinks(g, f, callee);
      var inlined;
      ghost var u;
      inlined, u := Generate(callee);
      if inlined.None? {
        return None, cur, run;
      }
      var newBbs;
      newBbs, cur', run' := Attach(inlined.value, op, i, j, out, cur, Good(funcs, g, callee), u, run);
      r := Some(newBbs);
    }

    /** Leads the current part to the first of the callee's blocks L and carries on with the last. */
    method Attach(L: seq<nat>, ghost op: Op, ghost i: nat, ghost j: nat, out: seq<nat>, cur: nat, ghost good: bool, ghost u: Layout,
        ghost run: seq<Progress>) returns (newBbs: seq<nat>, cur': nat, ghost run': seq<Progress>)
      requires Valid() && IsRun(run) && Last(run).CanSplice(op, arena, L, next, good, u)
      requires Last(run) == Last(run).(e := Element(funcs, g), n := i, j := j, out := out, cur := cur)
      modifies this`arena
      ensures Valid() && KeptBut(old(arena), arena, Last(run).hi, cur)
      ensures cur' >= Last(run).job.Limit() && IsRun(run')
      ensures var p := Last(run);
          Last(run') == Inside(p, i, j + 1, newBbs, cur', p.count + 1, p.ok && p.count == 0 && good, Last(run').t)
    {
      run' := RunSpliced(run, op, arena, L, next, good, u);
      cur' := L[|L| - 1];
      arena := arena[cur := arena[cur].(defaultNext := Some(L[0]), branches := [])];
      arena := arena[cur' := arena[cur'].(defaultNext := Some(cur'), branches := [])];
      newBbs := out + L[..|L| - 1] + [cur];
    }

    /** Copies the operations of one block of the body, expanding its calls: the blocks completed so
        far and the part that is still open. */
    method CopyOps(f: nat, bb: Bb, i: nat, out: seq<nat>, start: nat, ghost run: seq<Progress>)
      returns (r: Option<seq<nat>>, cur: nat, ghost run': seq<Progress>)
      requires WellFormedProgram(funcs, g) && Valid() && f < |funcs| && CalleesReady(funcs, g, f, bb.ops)
      requires IsRun(run) && Last(run) == Inside(Last(run), i, 0, out, start, 0, Last(run).ok, Last(run).t)
      requires start < Last(run).job.Limit() <= next && i < |Last(run).job.bbs| && Last(run).job.bbs[i] == bb
      modifies this
      ensures Valid() && KeptBut(old(arena), arena, Last(run).job.Limit(), start) && old(next) <= next
      ensures r.None? ==> !BlockGood(funcs, g, bb)
      ensures r.Some? ==> IsRun(run') && (cur == start || cur >= Last(run).job.Limit())
      ensures r.Some? ==> var p := Last(run);
          Last(run') == Inside(p, i, |bb.ops|, r.value, cur, InlinedCount(g, bb.ops), p.ok && BlockGood(funcs, g, bb), Last(run').t)
      decreases ReachSet(g, f), 2
    {
      ghost var p := Last(run);
      var newBbs := out;
      cur, run' := start, run;
      var j := 0;
      while j < |bb.ops|
        invariant j <= |bb.ops| && Valid() && old(next) <= next && (cur == start || cur >= p.job.Limit())
        invariant IsRun(run')
        invariant Last(run') ==
            Inside(p, i, j, newBbs, cur, CountBefore(g, bb.ops, j), p.ok && OpsGood(funcs, g, bb.ops, j), Last(run').t)
        invariant KeptBut(old(arena), arena, p.job.Limit(), start)
      {
        var step;
        step, cur, run' := CopyOrExpand(f, bb.ops[j], i, j, newBbs, cur, run');
        if step.None? {
          OpsGoodFalls(funcs, g, bb.ops, j + 1, |bb.ops|);
          return None, cur, run;
        }
        newBbs := step.value;
        j := j + 1;
      }
      r := Some(newBbs);
    }

    /** Copies or expands one operation. */
    method CopyOrExpand(f: nat, op: Op, i: nat, ghost j: nat, out: seq<nat>, cur: nat, ghost run: seq<Progress>)
      returns (r: Option<seq<nat>>, cur': nat, ghost run': seq<Progress>)
      requires WellFormedProgram(funcs, g) && Valid() && f < |funcs|
      requires ShouldTryInline(op) ==> Edge(g, f, op.callee) && op.callee < |funcs|
      requires Inlined(g, op) ==> Expandable(funcs, g, op.callee)
      requires IsRun(run) && Last(run) == Inside(Last(run), i, j, out, cur, Last(run).count, Last(run).ok, Last(run).t)
      requires Last(run).NextIs(op)
      modifies this
      ensures Valid() && KeptBut(old(arena), arena, old(next), cur) && old(next) <= next
      ensures r.None? ==> !StaysGood(funcs, g, op, Last(run).count)
      ensures r.Some? ==> IsRun(run') && (cur' == cur || cur' >= Last(run).job.Limit())
      ensures r.Some? ==> var p := Last(run);
          Last(run') == Inside(p, i, j + 1, r.value, cur', p.count + (if Inlined(g, op) then 1 else 0),
                               p.ok && StaysGood(funcs, g, op, p.count), Last(run').t)
      decreases ReachSet(g, f), 1
    {
      var expand := MustExpand(op);
      if expand {
        r, cur', run' := InlineCall(f, op, op.callee, i, j, out, cur, run);
      } else {
        run' := RunCopied(run, op);
        arena := arena[cur := arena[cur].(ops := arena[cur].ops + [op])];
        r, cur' := Some(out), cur;
      }
    }

    method MustExpand(op: Op) returns (expand: bool)
      requires WellFormedProgram(funcs, g) && (ShouldTryInline(op) ==> op.callee < |funcs|)
      ensures expand == Inlined(g, op)
    {
      expand := ShouldTryInline(op);
      if expand {
        var recursive := IsRecursive(g, op.callee);
        expand := !recursive;
      }
    }

    /** Gives the open part the jumps and flags of the body block. */
    method FinishBlock(base: nat, bb: Bb, ghost i: nat, ghost out: seq<nat>, cur: nat, ghost run: seq<Progress>)
      returns (ghost run': seq<Progress>)
      requires Valid() && IsRun(run)
      requires Last(run) == Inside(Last(run), i, |bb.ops|, out, cur, InlinedCount(g, bb.ops), Last(run).ok, Last(run).t)
      requires Last(run).job.base == base && i < |Last(run).job.bbs| && Last(run).job.bbs[i] == bb
      modifies this`arena
      ensures Valid() && KeptBut(old(arena), arena, next, cur) && IsRun(run')
      ensures Last(run') == Between(Last(run'), i + 1, out + [cur], Last(run).ok) && Last(run').job == Last(run).job && Last(run').f == Last(run).f
    {
      run' := RunFinished(run);
      arena := arena[cur := arena[cur].(branches := Targets(base, bb.branches), isReturn := bb.isReturn, isErr := bb.isErr,
                     defaultNext := if bb.defaultNext.Some? then Some(base + bb.defaultNext.value) else arena[cur].defaultNext)];
    }

    /** Copies one block of the body, expanding its calls. */
    method ExpandBlock(f: nat, bb: Bb, base: nat, i: nat, out: seq<nat>, ghost run: seq<Progress>)
      returns (r: Option<seq<nat>>, ghost run': seq<Progress>)
      requires WellFormedProgram(funcs, g) && Valid() && f < |funcs| && CalleesReady(funcs, g, f, bb.ops)
      requires IsRun(run) && Last(run) == Between(Last(run), i, out, Last(run).ok)
      requires Last(run).job.base == base && i < |Last(run).job.bbs| && Last(run).job.bbs[i] == bb
      requires Last(run).job.Limit() <= next && Blank(arena, base + i, Last(run).job.Limit())
      modifies this
      ensures Valid() && old(next) <= next && Framed(old(arena), arena, base) && Blank(arena, base + i + 1, Last(run).job.Limit())
      ensures r.None? ==> !BlockGood(funcs, g, bb)
      ensures r.Some? ==> IsRun(run') && Last(run').job == Last(run).job && Last(run').f == Last(run).f
      ensures r.Some? ==> Last(run') == Between(Last(run'), i + 1, r.value, Last(run).ok && BlockGood(funcs, g, bb))
      decreases ReachSet(g, f), 3
    {
      run' := RunEntered(run);
      var newBbs, cur;
      newBbs, cur, run' := CopyOps(f, bb, i, out, base + i, run');
      if newBbs.None? {
        return None, run;
      }
      run' := FinishBlock(base, bb, i, newBbs.value, cur, run');
      r := Some(newBbs.value + [cur]);
    }

    /** Expands the blocks of the body one after the other. */
    method ExpandBlocks(f: nat, base: nat, ghost run: seq<Progress>) returns (r: Option<seq<nat>>, ghost run': seq<Progress>)
      requires WellFormedProgram(funcs, g) && Valid() && f < |funcs| && Expandable(funcs, g, f)
      requires IsRun(run) && Last(run) == Between(Last(run), 0, [], true)
      requires Last(run).job.bbs == funcs[f] && Last(run).job.base == base && Last(run).f == f
      requires Last(run).job.Limit() <= next && Blank(arena, base, Last(run).job.Limit())
      modifies this
      ensures Valid() && old(next) <= next && Framed(old(arena), arena, base)
      ensures r.None? ==> !GoodUpTo(funcs, g, funcs[f], |funcs[f]|)
      ensures r.Some? ==> IsRun(run') && Last(run').job == Last(run).job && Last(run').f == f
      ensures r.Some? ==> Last(run') == Between(Last(run'), |funcs[f]|, r.value, GoodUpTo(funcs, g, funcs[f], |funcs[f]|))
      decreases ReachSet(g, f), 4
    {
      var bbs := funcs[f];
      var newBbs: seq<nat> := [];
      var i := 0;
      ghost var job := Last(run).job;
      run' := run;
      while i < |bbs|
        invariant i <= |bbs| && Valid() && old(next) <= next && Framed(old(arena), arena, base)
        invariant IsRun(run') && Last(run').job == job && Last(run').f == f && Blank(arena, base + i, job.Limit())
        invariant Last(run') == Between(Last(run'), i, newBbs, GoodUpTo(funcs, g, bbs, i))
      {
        CalleesAreReady(funcs, g, f, i);
        var expanded;
        expanded, run' := ExpandBlock(f, bbs[i], base, i, newBbs, run');
        if expanded.None? {
          GoodUpToFalls(funcs, g, bbs, i + 1, |bbs|);
          return None, run;
        }
        newBbs := expanded.value;
        i := i + 1;
      }
      r := Some(newBbs);
    }

    /** The blocks of function f with its calls expanded, or None where an assertion on the entry or
        return count fails. The expansion succeeds with distinct blocks exactly for a good function,
        and then it has one entry, which comes first, and one return, which comes last, and its
        blocks hold what the functions say: t tells where. */
    method Generate(f: nat) returns (r: Option<seq<nat>>, ghost t: Layout)
      requires WellFormedProgram(funcs, g) && Valid() && f < |funcs|
      requires Expandable(funcs, g, f)
      modifies this
      ensures Valid() && old(next) <= next && Framed(old(arena), arena, old(next))
      ensures r.Some? ==> InRange(arena, old(next), next, r.value)
      ensures if Good(funcs, g, f) then r.Some? && Expansion(g, arena, r.value) else r.Some? ==> !Distinct(r.value)
      ensures Good(funcs, g, f) ==> Laid(Element(funcs, g), f, arena, r.value, t)
      decreases ReachSet(g, f), 5
    {
      ghost var entry: nat, ret: nat :| SingleEntryExit(funcs[f], entry, ret);
      var base := Allocate(|funcs[f]|);
      ghost var job := Job(funcs[f], entry, ret, base);
      GoodByBlocks(funcs, g, f, job);
      ghost var run := Begin(Element(funcs, g), f, job, arena, next);
      r, run := ExpandBlocks(f, base, run);
      t := Layout(base, map[]);
      if r.Some? {
        t := Last(run).t;
        r := FinishAll(f, r.value, run);
      }
    }

    /** Orders the blocks of the expansion that a run has made. */
    method FinishAll(f: nat, newBbs: seq<nat>, ghost run: seq<Progress>) returns (r: Option<seq<nat>>)
      requires WellFormedProgram(funcs, g) && f < |funcs| && Expandable(funcs, g, f)
      requires IsRun(run) && Last(run).f == f && Last(run).job.bbs == funcs[f]
      requires Last(run) == Between(Last(run), |funcs[f]|, newBbs, GoodUpTo(funcs, g, funcs[f], |funcs[f]|))
      ensures r.Some? ==> InRange(arena, Last(run).job.base, next, r.value)
      ensures if Good(funcs, g, f) then r.Some? && Expansion(g, arena, r.value) else r.Some? ==> !Distinct(r.value)
      ensures Good(funcs, g, f) ==> Laid(Element(funcs, g), f, arena, r.value, Last(run).t)
    {
      RunValid(run);
      GoodByBlocks(funcs, g, f, Last(run).job);
      ghost var idx;
      r, idx := Finish(g, Last(run).job, arena, newBbs, next, Last(run).fin);
      if Good(funcs, g, f) {
        RunLaid(run, r.value, idx);
      }
    }
  }
}
