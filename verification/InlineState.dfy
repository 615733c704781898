/** The state of the inliner part way through a function, and how each step changes it. Blocks are
    identified by the index they were allocated at; `heap` holds the blocks themselves. */
module InlineState {
  import opened Options
  import opened Reachability
  import opened Graph
  import opened InlineModel

  /** One expansion in progress: the body, its entry and return block, and the index of the block
      that stands for the body's first block. */
  datatype Job = Job(bbs: seq<Bb>, entry: nat, ret: nat, base: nat) {
    function Limit(): nat {
      base + |bbs|
    }

    /** The block that stands for the k-th block of the body. */
    function StandIn(k: nat): nat {
      base + k
    }

    ghost predicate Valid() {
      SingleEntryExit(bbs, entry, ret)
    }
  }

  ghost predicate HasPred(heap: map<nat, Bb>, out: seq<nat>, x: nat) {
    exists y :: y in out && y in heap && x in Succs(heap[y])
  }

  /** Freshly allocated blocks that jump only to freshly allocated blocks. */
  ghost predicate InRange(heap: map<nat, Bb>, lo: nat, hi: nat, L: seq<nat>) {
    && L != []
    && (forall y :: y in L ==> lo <= y < hi && y in heap)
    && (forall y, s :: y in L && y in heap && s in Succs(heap[y]) ==> lo <= s < hi)
  }

  ghost predicate NothingToInline(g: Adj, heap: map<nat, Bb>, L: seq<nat>) {
    forall y, op :: y in L && y in heap && op in heap[y].ops ==> !Inlined(g, op)
  }

  /** What a good expansion delivers: a closed list of distinct blocks whose first block alone has
      in-degree zero and whose last block alone returns, with every call left built-in or
      recursive. */
  ghost predicate Expansion(g: Adj, heap: map<nat, Bb>, L: seq<nat>) {
    && L != [] && Distinct(L) && (forall y :: y in L ==> y in heap)
    && (forall y, s :: y in L && s in Succs(heap[y]) ==> s in L)
    && (forall x :: x in L ==> (x == L[0] <==> !HasPred(heap, L, x)))
    && (forall y :: y in L ==> (heap[y].isReturn <==> y == L[|L| - 1]))
    && NothingToInline(g, heap, L)
  }

  /** A jump from y to s stays among the blocks allocated for the job, and if it leads to a stand-in
      then one of the first n body blocks jumps to the body block. */
  ghost predicate JumpRight(job: Job, heap: map<nat, Bb>, n: nat, hi: nat, y: nat, s: nat)
    requires n <= |job.bbs|
  {
    y in heap && s in Succs(heap[y]) ==>
      job.base <= s < hi && (s < job.Limit() ==> Targeted(job.bbs, n, s - job.base))
  }

  /** Holds whether or not the expansion is good: blocks are fresh, and jumps to the blocks that
      stand for the body's own blocks copy jumps of the first n body blocks. */
  ghost predicate Weak(job: Job, heap: map<nat, Bb>, n: nat, out: seq<nat>, hi: nat) {
    && n <= |job.bbs| && job.Limit() <= hi
    && (forall y :: y in out ==> job.base <= y < hi && y in heap)
    && (forall y, s {:trigger JumpRight(job, heap, n, hi, y, s)} :: y in out ==> JumpRight(job, heap, n, hi, y, s))
    && (forall y :: job.base <= y < job.base + n ==> y in out)
  }

  ghost predicate WeakAt(job: Job, heap: map<nat, Bb>, n: nat, out: seq<nat>, cur: nat, hi: nat) {
    && n < |job.bbs| && Weak(job, heap, n, out, hi)
    && job.base <= cur < hi && cur in heap && job.base + n in out + [cur]
  }

  /** Evidence that the expansion has gone wrong for good: a block listed twice, or a callee entry
      that nothing jumps to. */
  ghost predicate Broken(job: Job, heap: map<nat, Bb>, out: seq<nat>, all: seq<nat>) {
    || (exists x :: x >= job.Limit() && multiset(all)[x] >= 2)
    || (exists x :: x >= job.Limit() && x in all && !HasPred(heap, out, x))
  }

  /** The block that carries the return of the body, once it has been finished. */
  ghost predicate ReturnsAt(g: Adj, job: Job, heap: map<nat, Bb>, n: nat, out: seq<nat>, fin: nat)
    requires job.ret < |job.bbs|
  {
    && (forall y :: y in out && y in heap && heap[y].isReturn ==> job.ret < n && y == fin)
    && (job.ret < n ==> fin in out && fin in heap && heap[fin].isReturn)
    && (job.ret < n ==> (fin < job.Limit() <==> InlinedCount(g, job.bbs[job.ret].ops) == 0))
    && (job.ret < n && fin < job.Limit() ==> fin == job.base + job.ret)
  }

  ghost predicate ClosedList(job: Job, heap: map<nat, Bb>, out: seq<nat>) {
    forall y, s :: y in out && y in heap && s in Succs(heap[y]) ==> s in out || job.base <= s < job.Limit()
  }

  /** Callee blocks have a predecessor, and so have the stand-ins of targeted body blocks. */
  ghost predicate PredsFound(job: Job, heap: map<nat, Bb>, n: nat, out: seq<nat>) {
    && n <= |job.bbs|
    && (forall x :: x in out && x >= job.Limit() ==> HasPred(heap, out, x))
    && (forall k: nat {:trigger HasPred(heap, out, job.StandIn(k))} :: k < |job.bbs| && Targeted(job.bbs, n, k) ==>
          HasPred(heap, out, job.StandIn(k)))
  }

  /** What additionally holds while everything is good, between two body blocks. */
  ghost predicate Strong(g: Adj, job: Job, heap: map<nat, Bb>, n: nat, out: seq<nat>, fin: nat)
    requires job.ret < |job.bbs|
  {
    && Distinct(out)
    && ClosedList(job, heap, out)
    && (forall y :: y in out && y < job.Limit() ==> y < job.base + n)
    && PredsFound(job, heap, n, out)
    && ReturnsAt(g, job, heap, n, out, fin)
    && NothingToInline(g, heap, out)
  }

  /** The same inside body block n: cur is the part being filled. It is the body block itself until
      a call has been expanded, and the last block of that callee afterwards. */
  ghost predicate StrongAt(g: Adj, job: Job, heap: map<nat, Bb>, n: nat, out: seq<nat>, fin: nat, cur: nat, count: nat)
    requires job.ret < |job.bbs|
  {
    && n < |job.bbs| && cur in heap && Distinct(out + [cur])
    && ClosedAt(job, heap, n, out, cur)
    && PredsAt(job, heap, n, out, cur)
    && ReturnsAt(g, job, heap, n, out, fin)
    && NothingToInline(g, heap, out + [cur])
    && (count == 0 ==> cur == job.base + n && !heap[cur].isReturn && !heap[cur].isErr)
    && (count > 0 ==> cur >= job.Limit() && heap[cur].isReturn)
  }

  ghost predicate ClosedAt(job: Job, heap: map<nat, Bb>, n: nat, out: seq<nat>, cur: nat) {
    && (forall y, s :: y in out && y in heap && s in Succs(heap[y]) ==> s in out || s == cur || job.base <= s < job.Limit())
    && (forall y :: y in out && y < job.Limit() ==> y <= job.base + n)
    && job.base + n in out + [cur]
  }

  ghost predicate PredsAt(job: Job, heap: map<nat, Bb>, n: nat, out: seq<nat>, cur: nat) {
    && n < |job.bbs|
    && (forall x :: x in out + [cur] && x >= job.Limit() ==> HasPred(heap, out, x))
    && (forall k: nat {:trigger HasPred(heap, out, job.StandIn(k))} :: k < |job.bbs| && Targeted(job.bbs, n, k) ==>
          HasPred(heap, out, job.StandIn(k)))
  }

  /** Entering body block n with its own stand-in as the current part. */
  lemma Enter(g: Adj, job: Job, heap: map<nat, Bb>, n: nat, out: seq<nat>, fin: nat, hi: nat)
    requires job.Valid() && n < |job.bbs| && Weak(job, heap, n, out, hi)
    requires job.base + n in heap && heap[job.base + n] == Bb([], [], None, false, false)
    ensures WeakAt(job, heap, n, out, job.base + n, hi)
    ensures Strong(g, job, heap, n, out, fin) ==> StrongAt(g, job, heap, n, out, fin, job.base + n, 0)
    ensures Broken(job, heap, out, out) ==> Broken(job, heap, out, out + [job.base + n])
  {
    var cur := job.base + n;
    if Strong(g, job, heap, n, out, fin) {
      DistinctAppend(out, [cur]);
    }
    BrokenGrows(job, heap, out, out, out + [cur]);
  }

  lemma BrokenGrows(job: Job, heap: map<nat, Bb>, out: seq<nat>, all: seq<nat>, all': seq<nat>)
    requires multiset(all) <= multiset(all')
    ensures Broken(job, heap, out, all) ==> Broken(job, heap, out, all')
  {
    forall x | x in all
      ensures x in all'
    {
      assert x in multiset(all) && x in multiset(all');
    }
  }

  function Appended(heap: map<nat, Bb>, cur: nat, op: Op): map<nat, Bb>
    requires cur in heap
  {
    heap[cur := heap[cur].(ops := heap[cur].ops + [op])]
  }

  lemma AppendedSuccs(heap: map<nat, Bb>, cur: nat, op: Op, out: seq<nat>, x: nat)
    requires cur in heap
    ensures forall y :: y in heap ==> y in Appended(heap, cur, op) && Succs(Appended(heap, cur, op)[y]) == Succs(heap[y])
    ensures HasPred(Appended(heap, cur, op), out, x) <==> HasPred(heap, out, x)
  {
    var heap' := Appended(heap, cur, op);
    assert Succs(heap'[cur]) == Succs(heap[cur]);
    if HasPred(heap, out, x) {
      var y :| y in out && y in heap && x in Succs(heap[y]);
      assert y in heap' && x in Succs(heap'[y]);
    }
    if HasPred(heap', out, x) {
      var y :| y in out && y in heap' && x in Succs(heap'[y]);
      assert y in heap && x in Succs(heap[y]);
    }
  }

  /** Appending a kept operation to the current part. */
  lemma AppendOp(job: Job, heap: map<nat, Bb>, n: nat, out: seq<nat>, cur: nat, hi: nat, op: Op)
    requires job.Valid() && WeakAt(job, heap, n, out, cur, hi)
    ensures WeakAt(job, Appended(heap, cur, op), n, out, cur, hi)
    ensures Broken(job, heap, out, out + [cur]) ==> Broken(job, Appended(heap, cur, op), out, out + [cur])
  {
    AppendedSuccs(heap, cur, op, out, cur);
    forall y, s: nat | y in out
      ensures JumpRight(job, Appended(heap, cur, op), n, hi, y, s)
    {
      assert JumpRight(job, heap, n, hi, y, s);
    }
    if x :| x >= job.Limit() && x in out + [cur] && !HasPred(heap, out, x) {
      AppendedSuccs(heap, cur, op, out, x);
    }
  }

  lemma AppendStrong(g: Adj, job: Job, heap: map<nat, Bb>, n: nat, out: seq<nat>, fin: nat, cur: nat, count: nat, op: Op)
    requires job.Valid() && StrongAt(g, job, heap, n, out, fin, cur, count) && !Inlined(g, op)
    ensures StrongAt(g, job, Appended(heap, cur, op), n, out, fin, cur, count)
  {
    var heap' := Appended(heap, cur, op);
    AppendedSuccs(heap, cur, op, out, cur);
    assert ClosedAt(job, heap', n, out, cur);
    assert PredsAt(job, heap', n, out, cur) by {
      forall x: nat
        ensures HasPred(heap', out, x) <==> HasPred(heap, out, x)
      {
        AppendedSuccs(heap, cur, op, out, x);
      }
    }
    assert ReturnsAt(g, job, heap', n, out, fin);
  }
}
