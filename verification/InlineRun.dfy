/** The expansion of one function as a state machine: its states, its steps, and the invariant that
    every run keeps. */
module InlineRun {
  import opened Options
  import opened Graph
  import opened InlineModel
  import opened InlineState
  import opened InlineSteps
  import opened InlineBroken
  import opened InlineContents

  /** A state of the expansion of function f: the blocks allocated so far and the number of the next
      one; the body block that comes next or is being copied, how many of its operations have been
      dealt with, and the blocks completed; the part being filled and how many calls it has had
      expanded; the block that carries the return; whether everything was good so far; and where the
      callees' expansions were laid out. */
  datatype Progress = Progress(e: Element, f: nat, job: Job, heap: map<nat, Bb>, hi: nat, n: nat, j: nat, out: seq<nat>,
                               inside: bool, cur: nat, count: nat, fin: nat, ok: bool, t: Layout) {
    ghost predicate Valid() {
      && job.Valid()
      && (if inside then WeakAt(job, heap, n, out, cur, hi) && GoingAt() else Weak(job, heap, n, out, hi) && Going())
    }

    ghost predicate GoingAt()
      requires job.Valid()
    {
      if ok then StrongAt(e.g, job, heap, n, out, fin, cur, count) else Broken(job, heap, out, out + [cur])
    }

    ghost predicate Going()
      requires job.Valid()
    {
      if ok then Strong(e.g, job, heap, n, out, fin) else Broken(job, heap, out, out)
    }

    /** Before the first body block. */
    ghost predicate Initial() {
      && job.Valid() && job.Limit() <= hi && n == 0 && out == [] && !inside && ok
      && e.Valid() && f < |e.funcs| && job.bbs == e.funcs[f] && t.base == job.base
    }

    /** The state on starting on the next body block. */
    function Entered(): Progress {
      this.(inside := true, cur := job.base + n, count := 0, j := 0)
    }

    ghost predicate CanEnter() {
      !inside && n < |job.bbs| && job.base + n in heap && heap[job.base + n] == Bb([], [], None, false, false)
    }

    /** The next operation of the body block. */
    ghost predicate NextIs(op: Op) {
      inside && n < |job.bbs| && j < |job.bbs[n].ops| && job.bbs[n].ops[j] == op
    }

    /** The state after appending an operation that stays. */
    function Copied(op: Op): Progress {
      if cur in heap then this.(heap := Appended(heap, cur, op), j := j + 1) else this
    }

    /** The state after splicing in the blocks L of a callee, which is good or not. */
    ghost function Spliced(after: map<nat, Bb>, L: seq<nat>, hi': nat, good: bool, u: Layout): Progress {
      var sp := Splice(job, heap, after, n, out, cur, hi, L, hi');
      if sp.Ready() then
        this.(heap := sp.After(), hi := hi', out := sp.OutAfter(), cur := sp.Last(), ok := ok && count == 0 && good, count := count + 1,
              j := j + 1, t := t.(parts := t.parts[n := u]))
      else this
    }

    /** L and u are the expansion of the callee that op calls. */
    ghost predicate CanSplice(op: Op, after: map<nat, Bb>, L: seq<nat>, hi': nat, good: bool, u: Layout) {
      && NextIs(op) && Inlined(e.g, op) && Framed(heap, after, hi) && hi <= hi' && InRange(after, hi, hi', L)
      && (if good then Expansion(e.g, after, L) && Laid(e, op.callee, after, L, u) else !Distinct(L))
    }

    /** The state after the part has taken over the jumps and flags of the body block. */
    function Finished(): Progress {
      if n < |job.bbs| && cur in heap then
        this.(heap := FinishedHeap(job, heap, n, cur), n := n + 1, out := out + [cur], inside := false,
              fin := if n == job.ret then cur else fin)
      else this
    }

    ghost predicate CanFinish() {
      inside && n < |job.bbs| && count == InlinedCount(e.g, job.bbs[n].ops) && j == |job.bbs[n].ops|
    }
  }

  ghost predicate Step(p: Progress, q: Progress) {
    || (p.CanEnter() && q == p.Entered())
    || (exists op :: p.NextIs(op) && !Inlined(p.e.g, op) && q == p.Copied(op))
    || (exists op, after, L, hi, good, u :: p.CanSplice(op, after, L, hi, good, u) && q == p.Spliced(after, L, hi, good, u))
    || (p.CanFinish() && q == p.Finished())
  }

  ghost predicate StepAt(run: seq<Progress>, i: nat)
    requires i < |run|
  {
    if i == 0 then run[0].Initial() else Step(run[i - 1], run[i])
  }

  /** The states that an expansion goes through, in order. */
  ghost predicate IsRun(run: seq<Progress>) {
    run != [] && forall i {:trigger StepAt(run, i)} :: 0 <= i < |run| ==> StepAt(run, i)
  }

  function Last(run: seq<Progress>): Progress
    requires run != []
  {
    run[|run| - 1]
  }

  lemma EnterKeeps(p: Progress)
    requires p.Valid() && p.CanEnter()
    ensures p.Entered().Valid()
  {
    Enter(p.e.g, p.job, p.heap, p.n, p.out, p.fin, p.hi);
  }

  lemma CopyKeeps(p: Progress, op: Op)
    requires p.Valid() && p.NextIs(op) && !Inlined(p.e.g, op)
    ensures p.Copied(op).Valid()
  {
    AppendOp(p.job, p.heap, p.n, p.out, p.cur, p.hi, op);
    if p.ok {
      AppendStrong(p.e.g, p.job, p.heap, p.n, p.out, p.fin, p.cur, p.count, op);
    }
  }

  lemma SpliceKeeps(p: Progress, op: Op, after: map<nat, Bb>, L: seq<nat>, hi: nat, good: bool, u: Layout)
    requires p.Valid() && p.CanSplice(op, after, L, hi, good, u)
    ensures p.Spliced(after, L, hi, good, u).Valid()
    ensures Splice(p.job, p.heap, after, p.n, p.out, p.cur, p.hi, L, hi).Ready()
  {
    var sp := Splice(p.job, p.heap, after, p.n, p.out, p.cur, p.hi, L, hi);
    SpliceWeak(sp);
    if p.ok && p.count == 0 && good {
      SpliceStrong(p.e.g, sp, p.fin);
    } else {
      SpliceBroken(p.e.g, sp, p.fin, p.count);
    }
  }

  lemma FinishKeeps(p: Progress)
    requires p.Valid() && p.CanFinish()
    ensures p.Finished().Valid()
  {
    var q := p.Finished();
    assert q.heap == FinishedHeap(p.job, p.heap, p.n, p.cur) && q.out == p.out + [p.cur] && q.n == p.n + 1;
    FinishWeak(p.job, p.heap, p.n, p.out, p.cur, p.hi);
    if p.ok {
      FinishStrong(p.e.g, p.job, p.heap, p.n, p.out, p.fin, p.cur, p.count, p.hi);
      assert Strong(q.e.g, q.job, q.heap, q.n, q.out, q.fin);
    } else {
      FinishBroken(p.job, p.heap, p.n, p.out, p.cur);
    }
  }

  lemma StepKeeps(p: Progress, q: Progress)
    requires p.Valid() && Step(p, q)
    ensures q.Valid()
  {
    if p.CanEnter() && q == p.Entered() {
      EnterKeeps(p);
    } else if p.CanFinish() && q == p.Finished() {
      FinishKeeps(p);
    } else if op :| p.NextIs(op) && !Inlined(p.e.g, op) && q == p.Copied(op) {
      CopyKeeps(p, op);
    } else {
      var op, after, L, hi, good, u :| p.CanSplice(op, after, L, hi, good, u) && q == p.Spliced(after, L, hi, good, u);
      SpliceKeeps(p, op, after, L, hi, good, u);
    }
  }

  lemma FrontRun(run: seq<Progress>)
    requires IsRun(run) && |run| > 1
    ensures IsRun(run[..|run| - 1]) && Step(Last(run[..|run| - 1]), Last(run))
  {
    var front := run[..|run| - 1];
    assert StepAt(run, |run| - 1);
    forall i | 0 <= i < |front|
      ensures StepAt(front, i)
    {
      assert StepAt(run, i);
    }
  }

  /** The invariant holds at the end of every run. */
  lemma {:induction false} RunValid(run: seq<Progress>)
    requires IsRun(run)
    ensures Last(run).Valid()
    decreases |run|
  {
    if |run| == 1 {
      assert StepAt(run, 0) && Weak(run[0].job, run[0].heap, 0, [], run[0].hi);
    } else {
      FrontRun(run);
      RunValid(run[..|run| - 1]);
      StepKeeps(Last(run[..|run| - 1]), Last(run));
    }
  }

  lemma Extended(run: seq<Progress>, q: Progress)
    requires IsRun(run) && Step(Last(run), q)
    ensures IsRun(run + [q]) && Last(run + [q]) == q
  {
    var run' := run + [q];
    forall i | 0 <= i < |run'|
      ensures StepAt(run', i)
    {
      if i < |run| {
        assert StepAt(run, i);
      }
    }
  }

  /** The state before the first body block. */
  function Start(e: Element, f: nat, job: Job, heap: map<nat, Bb>, hi: nat): Progress {
    Progress(e, f, job, heap, hi, 0, 0, [], false, 0, 0, 0, true, Layout(job.base, map[]))
  }

  lemma Begin(e: Element, f: nat, job: Job, heap: map<nat, Bb>, hi: nat) returns (run: seq<Progress>)
    requires job.Valid() && job.Limit() <= hi && e.Valid() && f < |e.funcs| && job.bbs == e.funcs[f]
    ensures IsRun(run) && Last(run) == Start(e, f, job, heap, hi)
  {
    run := [Start(e, f, job, heap, hi)];
    assert StepAt(run, 0);
  }

  lemma RunEntered(run: seq<Progress>) returns (run': seq<Progress>)
    requires IsRun(run) && Last(run).CanEnter()
    ensures IsRun(run') && Last(run') == Last(run).Entered()
  {
    Extended(run, Last(run).Entered());
    run' := run + [Last(run).Entered()];
  }

  lemma RunCopied(run: seq<Progress>, op: Op) returns (run': seq<Progress>)
    requires IsRun(run) && Last(run).NextIs(op) && !Inlined(Last(run).e.g, op)
    ensures Last(run).cur in Last(run).heap && IsRun(run') && Last(run') == Last(run).Copied(op)
  {
    RunValid(run);
    Extended(run, Last(run).Copied(op));
    run' := run + [Last(run).Copied(op)];
  }

  lemma RunSpliced(run: seq<Progress>, op: Op, after: map<nat, Bb>, L: seq<nat>, hi: nat, good: bool, u: Layout)
    returns (run': seq<Progress>)
    requires IsRun(run) && Last(run).CanSplice(op, after, L, hi, good, u)
    ensures IsRun(run') && Last(run') == Last(run).Spliced(after, L, hi, good, u)
    ensures var p := Last(run); Splice(p.job, p.heap, after, p.n, p.out, p.cur, p.hi, L, hi).Ready()
    ensures L[|L| - 1] >= Last(run).hi >= Last(run).job.Limit()
  {
    RunValid(run);
    SpliceKeeps(Last(run), op, after, L, hi, good, u);
    assert L[|L| - 1] in L;
    Extended(run, Last(run).Spliced(after, L, hi, good, u));
    run' := run + [Last(run).Spliced(after, L, hi, good, u)];
  }

  lemma RunFinished(run: seq<Progress>) returns (run': seq<Progress>)
    requires IsRun(run) && Last(run).CanFinish()
    ensures Last(run).cur in Last(run).heap && IsRun(run') && Last(run') == Last(run).Finished()
  {
    RunValid(run);
    Extended(run, Last(run).Finished());
    run' := run + [Last(run).Finished()];
  }
}
