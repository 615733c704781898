/** The two larger steps of the inliner: splicing in an expanded callee, and finishing a block. */
module InlineSteps {
  import opened Options
  import opened Reachability
  import opened Graph
  import opened InlineModel
  import opened InlineState

  /** Blocks allocated before the callee was expanded are untouched by its expansion. */
  ghost predicate Framed(before: map<nat, Bb>, after: map<nat, Bb>, hi: nat) {
    forall id :: id < hi && id in before ==> id in after && after[id] == before[id]
  }

  /** A splice: the job with its state before the callee was expanded, the heap since then, the
      callee's blocks L, and the numbers at which its blocks were allocated. */
  datatype Splice = Splice(job: Job, before: map<nat, Bb>, heap: map<nat, Bb>, n: nat, out: seq<nat>, cur: nat,
                           mid: nat, L: seq<nat>, hi: nat) {
    ghost predicate Valid() {
      job.Valid() && WeakAt(job, before, n, out, cur, mid) && Framed(before, heap, mid) &&
      mid <= hi && InRange(heap, mid, hi, L)
    }

    function Last(): nat
      requires L != []
    {
      L[|L| - 1]
    }

    predicate Ready() {
      L != [] && cur in heap && Last() in heap && cur != Last()
    }

    /** The heap after the current part jumps to the callee's entry and the callee's last block
        becomes the current part, provisionally jumping to itself. */
    function After(): map<nat, Bb>
      requires Ready()
    {
      heap[cur := heap[cur].(defaultNext := Some(L[0]), branches := [])]
          [Last() := heap[Last()].(defaultNext := Some(Last()), branches := [])]
    }

    /** The block list after the splice: all of the callee but its last block, then the part that
        calls it. */
    function OutAfter(): seq<nat>
      requires L != []
    {
      out + L[..|L| - 1] + [cur]
    }
  }

  lemma SplicedSuccs(sp: Splice, y: nat)
    requires sp.Valid()
    ensures sp.Ready()
    ensures var heap' := sp.After();
            && (y in sp.out && y != sp.cur ==> y in sp.before && y in heap' && heap'[y] == sp.before[y])
            && (y in sp.L && y != sp.Last() ==> y in heap' && heap'[y] == sp.heap[y])
            && Succs(heap'[sp.cur]) <= {sp.L[0]}
            && Succs(heap'[sp.Last()]) <= {sp.Last()}
  {
  }

  lemma SplicedMember(sp: Splice, y: nat)
    requires sp.Valid() && y in sp.OutAfter()
    ensures sp.Ready() && y in sp.After() && sp.job.base <= y < sp.hi
  {
    SplicedSuccs(sp, y);
    assert y in sp.out || y in sp.L || y == sp.cur;
  }

  lemma SplicedJump(sp: Splice, y: nat, s: nat)
    requires sp.Valid() && sp.Ready() && y in sp.OutAfter() && y in sp.After() && s in Succs(sp.After()[y])
    ensures sp.job.base <= s < sp.hi && (s < sp.job.Limit() ==> Targeted(sp.job.bbs, sp.n, s - sp.job.base))
  {
    SplicedSuccs(sp, y);
    assert sp.L[0] in sp.L && sp.Last() in sp.L;
    if y in sp.out && y != sp.cur {
      assert s in Succs(sp.before[y]) && JumpRight(sp.job, sp.before, sp.n, sp.mid, y, s);
    } else if y != sp.cur && y != sp.Last() {
      assert y in sp.L && s in Succs(sp.heap[y]);
    }
  }

  lemma SpliceWeak(sp: Splice)
    requires sp.Valid()
    ensures sp.Ready()
    ensures WeakAt(sp.job, sp.After(), sp.n, sp.OutAfter(), sp.Last(), sp.hi)
  {
    SplicedSuccs(sp, sp.cur);
    SplicedWeak(sp);
    assert sp.Last() in sp.L;
    assert forall y :: y in sp.out + [sp.cur] ==> y in sp.OutAfter();
  }

  lemma SplicedWeak(sp: Splice)
    requires sp.Valid() && sp.Ready()
    ensures Weak(sp.job, sp.After(), sp.n, sp.OutAfter(), sp.hi)
  {
    forall y | y in sp.OutAfter()
      ensures y in sp.After() && sp.job.base <= y < sp.hi
    {
      SplicedMember(sp, y);
    }
    forall y, s: nat | y in sp.OutAfter()
      ensures JumpRight(sp.job, sp.After(), sp.n, sp.hi, y, s)
    {
      if y in sp.After() && s in Succs(sp.After()[y]) {
        SplicedJump(sp, y, s);
      }
    }
    assert forall y :: y in sp.out ==> y in sp.OutAfter();
  }

  /** A predecessor found before the splice is still one after it. */
  lemma PredKept(sp: Splice, x: nat)
    requires sp.Valid() && sp.cur !in sp.out
    requires HasPred(sp.before, sp.out, x)
    ensures sp.Ready()
    ensures HasPred(sp.After(), sp.OutAfter(), x)
  {
    var y :| y in sp.out && y in sp.before && x in Succs(sp.before[y]);
    SplicedSuccs(sp, y);
    assert y in sp.OutAfter();
  }

  /** Every block of a good callee has a predecessor after the splice, its entry included. */
  lemma CalleePred(g: Adj, sp: Splice, x: nat)
    requires sp.Valid() && Expansion(g, sp.heap, sp.L)
    requires !sp.before[sp.cur].isReturn && !sp.before[sp.cur].isErr && x in sp.L
    ensures sp.Ready()
    ensures HasPred(sp.After(), sp.OutAfter(), x)
  {
    var last := sp.Last();
    SplicedSuccs(sp, sp.cur);
    var heap', out' := sp.After(), sp.OutAfter();
    if x == sp.L[0] {
      assert sp.cur in out' && sp.cur in heap' && x in Succs(heap'[sp.cur]);
    } else {
      var y :| y in sp.L && y in sp.heap && x in Succs(sp.heap[y]);
      assert y != last;
      SplicedSuccs(sp, y);
      var k :| 0 <= k < |sp.L| && sp.L[k] == y;
      assert sp.L[..|sp.L| - 1][k] == y;
      assert y in out' && y in heap' && x in Succs(heap'[y]);
    }
  }

  lemma LastIsNew(s: seq<nat>, x: nat)
    requires Distinct(s + [x])
    ensures x !in s
  {
    forall i | 0 <= i < |s|
      ensures s[i] != x
    {
      assert (s + [x])[i] == s[i] && (s + [x])[|s|] == x;
    }
  }

  lemma SpliceDistinct(out: seq<nat>, cur: nat, L: seq<nat>)
    requires L != [] && Distinct(out + [cur]) && Distinct(L) && forall x :: x in L ==> x !in out && x != cur
    ensures Distinct(out + L[..|L| - 1] + [cur] + [L[|L| - 1]])
  {
    var M, last := L[..|L| - 1], L[|L| - 1];
    assert Distinct(out) by { assert forall i :: 0 <= i < |out| ==> (out + [cur])[i] == out[i]; }
    assert Distinct(M);
    LastIsNew(out, cur);
    assert L == M + [last];
    LastIsNew(M, last);
    assert forall x :: x in M ==> x in L;
    DistinctAppend(out, M);
    DistinctAppend(out + M, [cur]);
    DistinctAppend(out + M + [cur], [last]);
  }

  ghost predicate GoodSplice(g: Adj, sp: Splice, fin: nat) {
    sp.Valid() && Expansion(g, sp.heap, sp.L) && StrongAt(g, sp.job, sp.before, sp.n, sp.out, fin, sp.cur, 0)
  }

  lemma SplicePreds(g: Adj, sp: Splice, fin: nat)
    requires GoodSplice(g, sp, fin)
    ensures sp.Ready()
    ensures var heap', out' := sp.After(), sp.OutAfter();
            PredsAt(sp.job, heap', sp.n, out', sp.Last())
  {
    var last := sp.Last();
    SplicedSuccs(sp, sp.cur);
    var heap', out' := sp.After(), sp.OutAfter();
    LastIsNew(sp.out, sp.cur);
    forall x | x in out' + [last] && x >= sp.job.Limit()
      ensures HasPred(heap', out', x)
    {
      if x in sp.L {
        CalleePred(g, sp, x);
      } else {
        assert x in sp.out + [sp.cur];
        PredKept(sp, x);
      }
    }
    forall k: nat | k < |sp.job.bbs| && Targeted(sp.job.bbs, sp.n, k)
      ensures HasPred(heap', out', sp.job.StandIn(k))
    {
      PredKept(sp, sp.job.StandIn(k));
    }
  }

  lemma CalleeListed(sp: Splice, s: nat)
    requires sp.L != [] && s in sp.L
    ensures s in sp.OutAfter() || s == sp.Last()
  {
    assert sp.L == sp.L[..|sp.L| - 1] + [sp.Last()];
  }

  lemma SpliceClosed(g: Adj, sp: Splice, fin: nat, y: nat, s: nat)
    requires GoodSplice(g, sp, fin)
    requires y in sp.OutAfter()
    requires sp.Ready()
    requires y in sp.After() && s in Succs(sp.After()[y])
    ensures s in sp.OutAfter() || s == sp.Last() || sp.job.base <= s < sp.job.Limit()
  {
    SplicedSuccs(sp, y);
    LastIsNew(sp.out, sp.cur);
    if y in sp.out {
      assert s in Succs(sp.before[y]);
    } else if y == sp.cur {
      CalleeListed(sp, sp.L[0]);
    } else {
      assert sp.L[..|sp.L| - 1] + [sp.Last()] == sp.L;
      LastIsNew(sp.L[..|sp.L| - 1], sp.Last());
      assert y in sp.L && s in Succs(sp.heap[y]);
      CalleeListed(sp, s);
    }
  }

  lemma SpliceBlocks(g: Adj, sp: Splice, fin: nat, y: nat)
    requires GoodSplice(g, sp, fin)
    requires y in sp.OutAfter()
    ensures sp.Ready()
    ensures var heap' := sp.After();
            && y in heap'
            && (heap'[y].isReturn ==> sp.job.ret < sp.n && y == fin)
            && (y < sp.job.Limit() ==> y <= sp.job.base + sp.n)
            && (forall op :: op in heap'[y].ops ==> !Inlined(g, op))
  {
    var last := sp.Last();
    LastIsNew(sp.out, sp.cur);
    assert sp.L[..|sp.L| - 1] + [last] == sp.L;
    LastIsNew(sp.L[..|sp.L| - 1], last);
    SplicedSuccs(sp, y);
    assert y in sp.out || y == sp.cur || y in sp.L;
    assert sp.cur in sp.out + [sp.cur];
  }

  lemma SpliceReturns(g: Adj, sp: Splice, fin: nat)
    requires GoodSplice(g, sp, fin)
    ensures sp.Ready()
    ensures var heap', out' := sp.After(), sp.OutAfter();
            ReturnsAt(g, sp.job, heap', sp.n, out', fin) && NothingToInline(g, heap', out' + [sp.Last()])
  {
    var last := sp.Last();
    SplicedSuccs(sp, fin);
    var heap', out' := sp.After(), sp.OutAfter();
    LastIsNew(sp.out, sp.cur);
    forall y | y in out'
      ensures y in heap' && (heap'[y].isReturn ==> sp.job.ret < sp.n && y == fin) && (y < sp.job.Limit() ==> y <= sp.job.base + sp.n)
      ensures forall op :: op in heap'[y].ops ==> !Inlined(g, op)
    {
      SpliceBlocks(g, sp, fin, y);
    }
    assert last in sp.L && heap'[last].ops == sp.heap[last].ops;
  }

  lemma Assemble(g: Adj, job: Job, heap: map<nat, Bb>, n: nat, out: seq<nat>, fin: nat, cur: nat)
    requires job.ret < |job.bbs| && cur in heap && Distinct(out + [cur])
    requires ClosedAt(job, heap, n, out, cur) && PredsAt(job, heap, n, out, cur) && ReturnsAt(g, job, heap, n, out, fin)
    requires NothingToInline(g, heap, out + [cur]) && cur >= job.Limit() && heap[cur].isReturn
    ensures StrongAt(g, job, heap, n, out, fin, cur, 1)
  {
  }

  lemma SpliceClosedAll(g: Adj, sp: Splice, fin: nat)
    requires GoodSplice(g, sp, fin)
    ensures sp.Ready()
    ensures var heap', out', last := sp.After(), sp.OutAfter(), sp.Last();
            && ClosedAt(sp.job, heap', sp.n, out', last) && Distinct(out' + [last])
            && last in heap' && last >= sp.job.Limit() && heap'[last].isReturn
  {
    var last := sp.Last();
    SplicedSuccs(sp, sp.cur);
    var heap', out' := sp.After(), sp.OutAfter();
    SpliceDistinct(sp.out, sp.cur, sp.L);
    forall y, s | y in out' && y in heap' && s in Succs(heap'[y])
      ensures s in out' || s == last || sp.job.base <= s < sp.job.Limit()
    {
      SpliceClosed(g, sp, fin, y, s);
    }
    forall y | y in out' && y < sp.job.Limit()
      ensures y <= sp.job.base + sp.n
    {
      SpliceBlocks(g, sp, fin, y);
    }
    assert last in sp.L && sp.cur in out';
  }

  /** Splicing a good callee into a block that has had nothing expanded yet keeps everything good. */
  lemma SpliceStrong(g: Adj, sp: Splice, fin: nat)
    requires GoodSplice(g, sp, fin)
    ensures sp.Ready()
    ensures StrongAt(g, sp.job, sp.After(), sp.n, sp.OutAfter(), fin, sp.Last(), 1)
  {
    SplicePreds(g, sp, fin);
    SpliceReturns(g, sp, fin);
    SpliceClosedAll(g, sp, fin);
    Assemble(g, sp.job, sp.After(), sp.n, sp.OutAfter(), fin, sp.Last());
  }
}
