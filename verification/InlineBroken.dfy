/** Once an expansion has gone wrong it stays wrong; finishing a block; the end of a function. */
module InlineBroken {
  import opened Options
  import opened Reachability
  import opened Graph
  import opened InlineModel
  import opened InlineState
  import opened InlineSteps

  lemma {:induction false} DuplicateInMultiset(s: seq<nat>)
    ensures Distinct(s) <==> forall x :: multiset(s)[x] <= 1
  {
    if s != [] {
      var t, x := s[..|s| - 1], s[|s| - 1];
      assert s == t + [x] && multiset(s) == multiset(t) + multiset{x};
      DuplicateInMultiset(t);
      assert x in t <==> x in multiset(t);
      if Distinct(s) {
        LastIsNew(t, x);
        assert Distinct(t);
      }
      if (forall y :: multiset(s)[y] <= 1) {
        assert multiset(s)[x] <= 1;
        assert forall y :: multiset(t)[y] <= multiset(s)[y];
        DistinctAppend(t, [x]);
      }
    }
  }

  lemma SplicedMultiset(out: seq<nat>, cur: nat, L: seq<nat>)
    requires L != []
    ensures multiset(out + L[..|L| - 1] + [cur] + [L[|L| - 1]]) == multiset(out + [cur]) + multiset(L)
  {
    assert L == L[..|L| - 1] + [L[|L| - 1]];
    assert multiset(L) == multiset(L[..|L| - 1]) + multiset{L[|L| - 1]};
  }

  /** Three ways for the state to be broken after a splice: it was before, the callee lists a block
      twice, or this is the second call expanded in one block. */
  lemma SpliceBroken(g: Adj, sp: Splice, fin: nat, count: nat)
    requires sp.Valid()
    requires Broken(sp.job, sp.before, sp.out, sp.out + [sp.cur]) || !Distinct(sp.L)
          || (count > 0 && Expansion(g, sp.heap, sp.L) && StrongAt(g, sp.job, sp.before, sp.n, sp.out, fin, sp.cur, count))
    ensures sp.Ready()
    ensures Broken(sp.job, sp.After(), sp.OutAfter(), sp.OutAfter() + [sp.Last()])
  {
    SplicedSuccs(sp, sp.cur);
    if !Distinct(sp.L) {
      CalleeRepeats(sp);
    } else if Broken(sp.job, sp.before, sp.out, sp.out + [sp.cur]) {
      StaysBroken(sp);
    } else {
      SecondEntry(g, sp, fin, count);
      assert sp.L[0] in sp.L && sp.L[0] >= sp.job.Limit();
      SplicedListed(sp, sp.L[0]);
    }
  }

  lemma SplicedListed(sp: Splice, x: nat)
    requires sp.L != [] && (x in sp.out + [sp.cur] || x in sp.L)
    ensures x in sp.OutAfter() + [sp.Last()]
  {
    SplicedMultiset(sp.out, sp.cur, sp.L);
    assert x in multiset(sp.out + [sp.cur]) || x in multiset(sp.L);
    assert x in multiset(sp.OutAfter() + [sp.Last()]);
  }

  lemma CalleeRepeats(sp: Splice)
    requires sp.Valid() && sp.Ready() && !Distinct(sp.L)
    ensures Broken(sp.job, sp.After(), sp.OutAfter(), sp.OutAfter() + [sp.Last()])
  {
    DuplicateInMultiset(sp.L);
    var x :| multiset(sp.L)[x] > 1;
    assert x in multiset(sp.L) && x in sp.L && x >= sp.job.Limit();
    SplicedMultiset(sp.out, sp.cur, sp.L);
    assert multiset(sp.OutAfter() + [sp.Last()])[x] >= 2;
  }

  lemma StaysBroken(sp: Splice)
    requires sp.Valid() && sp.Ready() && Broken(sp.job, sp.before, sp.out, sp.out + [sp.cur])
    ensures Broken(sp.job, sp.After(), sp.OutAfter(), sp.OutAfter() + [sp.Last()])
  {
    if x :| x >= sp.job.Limit() && multiset(sp.out + [sp.cur])[x] >= 2 {
      SplicedMultiset(sp.out, sp.cur, sp.L);
      assert multiset(sp.OutAfter() + [sp.Last()])[x] >= 2;
    } else {
      var x :| x >= sp.job.Limit() && x in sp.out + [sp.cur] && !HasPred(sp.before, sp.out, x);
      OldOrphan(sp, x);
      SplicedListed(sp, x);
    }
  }

  lemma OldOrphan(sp: Splice, x: nat)
    requires sp.Valid()
    requires x >= sp.job.Limit() && x in sp.out + [sp.cur] && !HasPred(sp.before, sp.out, x)
    ensures sp.Ready()
    ensures !HasPred(sp.After(), sp.OutAfter(), x)
  {
    SplicedSuccs(sp, sp.cur);
    var heap', out' := sp.After(), sp.OutAfter();
    assert x < sp.mid && sp.L[0] in sp.L && sp.Last() in sp.L;
    forall y | y in out' && y in heap'
      ensures x !in Succs(heap'[y])
    {
      SplicedSuccs(sp, y);
      assert y in sp.out || y == sp.cur || y in sp.L;
    }
  }

  /** The second call expanded in a block: the first callee's last block still counts as a return
      block, so nothing jumps to the second callee's entry. */
  lemma SecondEntry(g: Adj, sp: Splice, fin: nat, count: nat)
    requires sp.Valid()
    requires count > 0 && Expansion(g, sp.heap, sp.L) && StrongAt(g, sp.job, sp.before, sp.n, sp.out, fin, sp.cur, count)
    ensures sp.Ready()
    ensures !HasPred(sp.After(), sp.OutAfter(), sp.L[0])
  {
    SplicedSuccs(sp, sp.cur);
    var heap', out', last := sp.After(), sp.OutAfter(), sp.Last();
    assert heap'[sp.cur].isReturn && sp.L[0] in sp.L;
    LastIsNew(sp.out, sp.cur);
    assert sp.L[..|sp.L| - 1] + [last] == sp.L;
    LastIsNew(sp.L[..|sp.L| - 1], last);
    forall y | y in out' && y in heap'
      ensures sp.L[0] !in Succs(heap'[y])
    {
      SplicedSuccs(sp, y);
      if y in sp.L {
        assert y in sp.heap && y != last;
      } else if y != sp.cur {
        assert JumpRight(sp.job, sp.before, sp.n, sp.mid, y, sp.L[0]);
      }
    }
  }

  function Targets(base: nat, branches: seq<nat>): (r: seq<nat>)
    ensures |r| == |branches| && forall k :: 0 <= k < |r| ==> r[k] == base + branches[k]
  {
    if branches == [] then [] else [base + branches[0]] + Targets(base, branches[1..])
  }

  /** The current part takes over the branching and the flags of the body block. */
  function FinishedHeap(job: Job, heap: map<nat, Bb>, n: nat, cur: nat): map<nat, Bb>
    requires n < |job.bbs| && cur in heap
  {
    var bb := job.bbs[n];
    heap[cur := heap[cur].(branches := Targets(job.base, bb.branches), isReturn := bb.isReturn, isErr := bb.isErr,
                           defaultNext := if bb.defaultNext.Some? then Some(job.base + bb.defaultNext.value)
                                          else heap[cur].defaultNext)]
  }

  lemma FinishedSuccs(job: Job, heap: map<nat, Bb>, n: nat, cur: nat, s: nat)
    requires job.Valid() && n < |job.bbs| && cur in heap
    ensures s in Succs(FinishedHeap(job, heap, n, cur)[cur]) <==> s >= job.base && s - job.base in Succs(job.bbs[n])
    ensures s in Succs(FinishedHeap(job, heap, n, cur)[cur]) ==> s < job.Limit()
  {
    var bb := job.bbs[n];
    var T := Targets(job.base, bb.branches);
    if s in T {
      var k :| 0 <= k < |T| && T[k] == s;
      assert bb.branches[k] in bb.branches;
    }
    if s >= job.base && s - job.base in bb.branches {
      var k :| 0 <= k < |bb.branches| && bb.branches[k] == s - job.base;
      assert T[k] == s;
    }
  }

  lemma TargetedNext(bbs: seq<Bb>, n: nat, k: nat)
    requires n < |bbs|
    ensures Targeted(bbs, n + 1, k) <==> Targeted(bbs, n, k) || k in Succs(bbs[n])
  {
  }

  lemma FinishedJump(job: Job, heap: map<nat, Bb>, n: nat, out: seq<nat>, cur: nat, hi: nat, y: nat, s: nat)
    requires job.Valid() && WeakAt(job, heap, n, out, cur, hi)
    requires y in out + [cur] && y in heap && s in Succs(FinishedHeap(job, heap, n, cur)[y])
    ensures job.base <= s < hi && (s < job.Limit() ==> Targeted(job.bbs, n + 1, s - job.base))
  {
    if y == cur {
      FinishedSuccs(job, heap, n, cur, s);
      TargetedNext(job.bbs, n, s - job.base);
    } else {
      assert y in out && s in Succs(heap[y]) && JumpRight(job, heap, n, hi, y, s);
      if s < job.Limit() {
        TargetedNext(job.bbs, n, s - job.base);
      }
    }
  }

  lemma FinishWeak(job: Job, heap: map<nat, Bb>, n: nat, out: seq<nat>, cur: nat, hi: nat)
    requires job.Valid() && WeakAt(job, heap, n, out, cur, hi)
    ensures Weak(job, FinishedHeap(job, heap, n, cur), n + 1, out + [cur], hi)
  {
    var heap', out', m := FinishedHeap(job, heap, n, cur), out + [cur], n + 1;
    forall y, s: nat | y in out'
      ensures JumpRight(job, heap', m, hi, y, s)
    {
      if y in heap' && s in Succs(heap'[y]) {
        FinishedJump(job, heap, n, out, cur, hi, y, s);
      }
    }
  }

  lemma FinishBroken(job: Job, heap: map<nat, Bb>, n: nat, out: seq<nat>, cur: nat)
    requires job.Valid() && n < |job.bbs| && cur in heap
    ensures Broken(job, heap, out, out + [cur]) ==> Broken(job, FinishedHeap(job, heap, n, cur), out + [cur], out + [cur])
  {
    var heap', out' := FinishedHeap(job, heap, n, cur), out + [cur];
    if x :| x >= job.Limit() && x in out' && !HasPred(heap, out, x) {
      forall y | y in out' && y in heap'
        ensures x !in Succs(heap'[y])
      {
        FinishedSuccs(job, heap, n, cur, x);
      }
      assert !HasPred(heap', out', x);
    }
  }

  lemma FinishedPred(job: Job, heap: map<nat, Bb>, n: nat, out: seq<nat>, cur: nat, x: nat)
    requires job.Valid() && n < |job.bbs| && cur in heap && cur !in out
    requires HasPred(heap, out, x)
    ensures HasPred(FinishedHeap(job, heap, n, cur), out + [cur], x)
  {
    var y :| y in out && y in heap && x in Succs(heap[y]);
    assert y in out + [cur];
  }

  lemma FinishClosed(g: Adj, job: Job, heap: map<nat, Bb>, n: nat, out: seq<nat>, fin: nat, cur: nat, count: nat)
    requires job.Valid() && StrongAt(g, job, heap, n, out, fin, cur, count)
    ensures ClosedList(job, FinishedHeap(job, heap, n, cur), out + [cur])
  {
    var heap', out' := FinishedHeap(job, heap, n, cur), out + [cur];
    LastIsNew(out, cur);
    forall y, s | y in out' && y in heap' && s in Succs(heap'[y])
      ensures s in out' || job.base <= s < job.Limit()
    {
      if y == cur {
        FinishedSuccs(job, heap, n, cur, s);
      } else {
        assert y in out && y in heap && s in Succs(heap[y]);
      }
    }
  }

  lemma FinishTarget(job: Job, heap: map<nat, Bb>, n: nat, out: seq<nat>, cur: nat, k: nat)
    requires job.Valid() && n < |job.bbs| && cur in heap && cur !in out
    requires Targeted(job.bbs, n, k) ==> HasPred(heap, out, job.StandIn(k))
    requires Targeted(job.bbs, n + 1, k)
    ensures HasPred(FinishedHeap(job, heap, n, cur), out + [cur], job.StandIn(k))
  {
    TargetedNext(job.bbs, n, k);
    if k in Succs(job.bbs[n]) {
      FinishedSuccs(job, heap, n, cur, job.base + k);
      assert cur in out + [cur];
    } else {
      FinishedPred(job, heap, n, out, cur, job.StandIn(k));
    }
  }

  lemma FinishPreds(g: Adj, job: Job, heap: map<nat, Bb>, n: nat, out: seq<nat>, fin: nat, cur: nat, count: nat)
    requires job.Valid() && StrongAt(g, job, heap, n, out, fin, cur, count)
    ensures PredsFound(job, FinishedHeap(job, heap, n, cur), n + 1, out + [cur])
  {
    var heap', out', m := FinishedHeap(job, heap, n, cur), out + [cur], n + 1;
    LastIsNew(out, cur);
    forall x | x in out' && x >= job.Limit()
      ensures HasPred(heap', out', x)
    {
      FinishedPred(job, heap, n, out, cur, x);
    }
    forall k: nat | k < |job.bbs| && Targeted(job.bbs, m, k)
      ensures HasPred(heap', out', job.StandIn(k))
    {
      FinishTarget(job, heap, n, out, cur, k);
    }
  }

  lemma FinishReturns(g: Adj, job: Job, heap: map<nat, Bb>, n: nat, out: seq<nat>, fin: nat, cur: nat, count: nat, hi: nat)
    requires job.Valid() && WeakAt(job, heap, n, out, cur, hi) && StrongAt(g, job, heap, n, out, fin, cur, count)
    requires count == InlinedCount(g, job.bbs[n].ops)
    ensures ReturnsAt(g, job, FinishedHeap(job, heap, n, cur), n + 1, out + [cur], if n == job.ret then cur else fin)
    ensures NothingToInline(g, FinishedHeap(job, heap, n, cur), out + [cur])
  {
    LastIsNew(out, cur);
    assert cur in out + [cur];
  }

  lemma FinishStrong(g: Adj, job: Job, heap: map<nat, Bb>, n: nat, out: seq<nat>, fin: nat, cur: nat, count: nat, hi: nat)
    requires job.Valid() && WeakAt(job, heap, n, out, cur, hi) && StrongAt(g, job, heap, n, out, fin, cur, count)
    requires count == InlinedCount(g, job.bbs[n].ops)
    ensures Strong(g, job, FinishedHeap(job, heap, n, cur), n + 1, out + [cur], if n == job.ret then cur else fin)
  {
    FinishClosed(g, job, heap, n, out, fin, cur, count);
    FinishPreds(g, job, heap, n, out, fin, cur, count);
    FinishReturns(g, job, heap, n, out, fin, cur, count, hi);
  }
}
