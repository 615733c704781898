/** Every run of an expansion that stays good lays out what it should: the blocks completed hold their
    contents, and the part being filled the contents so far. */
module InlineLaid {
  import opened Options
  import opened Graph
  import opened InlineModel
  import opened InlineState
  import opened InlineSteps
  import opened InlineBroken
  import opened InlineContents
  import opened InlineRun

  ghost predicate Sound(p: Progress) {
    && p.e.Valid() && p.f < |p.e.funcs| && p.job.bbs == p.e.funcs[p.f] && p.t.base == p.job.base && p.job.Limit() <= p.hi
    && p.n <= |p.job.bbs| && (p.inside ==> p.n < |p.job.bbs| && p.j <= |p.job.bbs[p.n].ops|)
  }

  ghost function CallIndex(p: Progress): nat
    requires Sound(p) && p.n < |p.job.bbs|
  {
    FirstCall(p.e.g, p.job.bbs[p.n].ops)
  }

  /** Block q has been laid out: it belongs to an earlier body block, or to this one and its call has
      been expanded. */
  ghost predicate Seen(p: Progress, q: Place)
    requires Sound(p)
  {
    p.e.IsPlace(p.f, q) && (q[0] < p.n || (p.inside && p.count > 0 && q[0] == p.n))
  }

  /** Block q is the callee's last one, which the rest of the body block is added to. */
  ghost predicate Open(p: Progress, q: Place)
    requires Sound(p) && p.e.IsPlace(p.f, q)
  {
    p.inside && |q| > 1 && q[0] == p.n && p.e.IsLast(p.e.CalleeAt(p.f, q[0]), q[1..])
  }

  ghost predicate InPlace(p: Progress, q: Place)
    requires Sound(p) && p.e.IsPlace(p.f, q)
  {
    && (|q| > 1 ==> p.job.Limit() <= p.t.Addr(q)) && p.t.Addr(q) < p.hi
    && (if Open(p, q) then p.t.Addr(q) == p.cur && Continues(p, q) else p.t.Addr(q) in p.out && Holds(p.e, p.f, p.heap, p.t, q))
  }

  /** The part being filled holds the callee's last block and the operations after the call so far. */
  ghost predicate Continues(p: Progress, q: Place)
    requires Sound(p) && p.e.IsPlace(p.f, q) && Open(p, q)
  {
    && p.cur in p.heap && CallIndex(p) < p.j && p.heap[p.cur].defaultNext == Some(p.cur)
    && p.heap[p.cur].ops == p.e.ContentAt(p.e.CalleeAt(p.f, p.n), q[1..]).ops + p.job.bbs[p.n].ops[CallIndex(p) + 1..p.j]
  }

  ghost predicate Listed(p: Progress, x: nat)
    requires Sound(p)
  {
    exists q :: Seen(p, q) && !Open(p, q) && p.t.Addr(q) == x
  }

  ghost predicate OpenExists(p: Progress)
    requires Sound(p)
  {
    exists q :: Seen(p, q) && Open(p, q)
  }

  /** The part being filled. */
  ghost predicate Filling(p: Progress)
    requires Sound(p) && p.inside
  {
    var ops := p.job.bbs[p.n].ops;
    if p.count == 0 then
      && p.cur == p.job.base + p.n && p.cur in p.heap && p.heap[p.cur] == Bb(ops[..p.j], [], None, false, false)
      && p.j <= CallIndex(p)
    else OpenExists(p)
  }

  ghost predicate SeenApart(p: Progress)
    requires Sound(p)
  {
    forall q, r :: Seen(p, q) && Seen(p, r) && p.t.Addr(q) == p.t.Addr(r) ==> q == r
  }

  ghost predicate Told(p: Progress) {
    && Sound(p)
    && (forall q :: Seen(p, q) ==> InPlace(p, q))
    && SeenApart(p)
    && (forall x :: x in p.out ==> Listed(p, x))
    && (p.inside ==> Filling(p))
  }

  lemma Entering(p: Progress)
    requires Told(p) && p.CanEnter()
    ensures Told(p.Entered())
  {
    var r := p.Entered();
    assert Sound(r);
    forall q: Place
      ensures Seen(r, q) <==> Seen(p, q)
      ensures Seen(p, q) ==> InPlace(r, q)
    {
      assert Seen(p, q) ==> InPlace(p, q);
    }
    forall x | x in r.out
      ensures Listed(r, x)
    {
      var q :| Seen(p, q) && !Open(p, q) && p.t.Addr(q) == x;
    }
  }

  /** Only the part being filled has another address than it. */
  lemma OtherAddress(p: Progress, q: Place)
    requires Told(p) && p.inside && Seen(p, q) && !Open(p, q)
    ensures p.t.Addr(q) != p.cur
  {
    assert InPlace(p, q);
    if p.count > 0 {
      var r :| Seen(p, r) && Open(p, r);
      assert InPlace(p, r);
    }
  }

  lemma CopyingAt(p: Progress, op: Op, q: Place)
    requires Sound(p) && p.NextIs(op) && p.cur in p.heap && p.e.IsPlace(p.f, q) && InPlace(p, q)
    requires !Open(p, q) ==> p.t.Addr(q) != p.cur
    ensures Sound(p.Copied(op)) && InPlace(p.Copied(op), q) && (Open(p.Copied(op), q) <==> Open(p, q))
  {
    if Open(p, q) {
      CopyingOpen(p, op, q);
    }
  }

  lemma CopyingOpen(p: Progress, op: Op, q: Place)
    requires Sound(p) && p.NextIs(op) && p.cur in p.heap && p.e.IsPlace(p.f, q) && Open(p, q) && Continues(p, q)
    ensures Sound(p.Copied(op)) && Open(p.Copied(op), q) && Continues(p.Copied(op), q)
  {
    SliceSnoc(p.job.bbs[p.n].ops, CallIndex(p) + 1, p.j);
  }

  lemma SliceSnoc(ops: seq<Op>, a: nat, b: nat)
    requires a <= b < |ops|
    ensures ops[a..b + 1] == ops[a..b] + [ops[b]]
  {
  }

  lemma Copying(p: Progress, op: Op)
    requires Told(p) && p.NextIs(op) && !Inlined(p.e.g, op) && p.cur in p.heap
    ensures Told(p.Copied(op))
  {
    var r := p.Copied(op);
    var ops := p.job.bbs[p.n].ops;
    assert Sound(r) && ops[..p.j + 1] == ops[..p.j] + [op];
    forall q | Seen(p, q)
      ensures InPlace(r, q) && (Open(r, q) <==> Open(p, q))
    {
      assert InPlace(p, q);
      if !Open(p, q) {
        OtherAddress(p, q);
      }
      CopyingAt(p, op, q);
    }
    assert forall q :: Seen(r, q) <==> Seen(p, q);
    forall x | x in r.out
      ensures Listed(r, x)
    {
      var q :| Seen(p, q) && !Open(p, q) && p.t.Addr(q) == x;
    }
    if p.count > 0 {
      var q :| Seen(p, q) && Open(p, q);
      assert Seen(r, q) && Open(r, q);
    }
  }

  /** The splice of a good callee, whose blocks are L, into a body block that has had no call expanded. */
  datatype Merge = Merge(p: Progress, op: Op, after: map<nat, Bb>, L: seq<nat>, hi: nat, u: Layout) {
    ghost function Result(): Progress {
      p.Spliced(after, L, hi, true, u)
    }

    ghost predicate Valid() {
      Told(p) && p.CanSplice(op, after, L, hi, true, u) && p.count == 0 && p.ok
    }

    /** What the splice takes from the callee. */
    ghost predicate Given() {
      op.Call? && InRange(after, p.hi, hi, L) && Laid(p.e, op.callee, after, L, u)
    }

    /** The state after the splice in full. */
    ghost predicate Done() {
      && Sound(p) && op.Call? && p.inside && p.n < |p.job.bbs| && p.count == 0 && L != [] && p.j < |p.job.bbs[p.n].ops|
      && CallIndex(p) == p.j && p.e.CalleeAt(p.f, p.n) == op.callee
      && p.cur == p.job.base + p.n && p.cur in after && after[p.cur] == Bb(p.job.bbs[p.n].ops[..p.j], [], None, false, false)
      && p.hi <= L[|L| - 1] && L[|L| - 1] in after
      && Result() == p.(heap := after[p.cur := after[p.cur].(defaultNext := Some(L[0]), branches := [])]
                                     [L[|L| - 1] := after[L[|L| - 1]].(defaultNext := Some(L[|L| - 1]), branches := [])],
                        hi := hi, out := p.out + L[..|L| - 1] + [p.cur], cur := L[|L| - 1], count := 1, j := p.j + 1,
                        t := p.t.(parts := p.t.parts[p.n := u]))
      && p.hi <= hi
    }

    /** A block of the callee, with its address among L. */
    ghost predicate Inner(inner: Place)
      requires p.e.Valid() && op.Call?
    {
      && p.e.IsPlace(op.callee, inner) && u.Addr(inner) in L && p.hi <= u.Addr(inner) < hi && Holds(p.e, op.callee, after, u, inner)
      && (p.e.IsLast(op.callee, inner) <==> u.Addr(inner) == L[|L| - 1])
    }
  }

  lemma MergeDone(m: Merge)
    requires Sound(m.p) && m.p.ok && m.p.count == 0 && m.p.NextIs(m.op) && Inlined(m.p.e.g, m.op) && Filling(m.p)
    requires Framed(m.p.heap, m.after, m.p.hi) && m.p.hi <= m.hi && InRange(m.after, m.p.hi, m.hi, m.L)
    ensures m.Done()
  {
    assert m.L[|m.L| - 1] in m.L;
  }

  lemma MergeInner(m: Merge, inner: Place)
    requires m.Done() && m.Given() && m.p.e.IsPlace(m.op.callee, inner)
    ensures m.Inner(inner)
  {
    var last :| m.p.e.IsLast(m.op.callee, last);
    LastIsPlace(m.p.e, m.op.callee, last);
  }

  lemma MergedEarlier(m: Merge, q: Place)
    requires m.Done() && Framed(m.p.heap, m.after, m.p.hi)
    requires Seen(m.p, q) && InPlace(m.p, q) && m.p.t.Addr(q) != m.p.cur
    ensures Sound(m.Result()) && Seen(m.Result(), q) && !Open(m.Result(), q) && InPlace(m.Result(), q)
    ensures m.Result().t.Addr(q) == m.p.t.Addr(q) < m.p.hi
  {
    JumpsInside(m.p.e, m.p.f, q);
    PutSame(m.p.t, m.Result().t, m.p.e.ContentAt(m.p.f, q), q[0]);
  }

  lemma MergedStandIn(m: Merge)
    requires m.Done() && m.L[0] == m.u.Addr([m.p.e.EntryOf(m.op.callee)])
    ensures var r := m.Result();
            Sound(r) && Seen(r, [m.p.n]) && !Open(r, [m.p.n]) && InPlace(r, [m.p.n]) && r.t.Addr([m.p.n]) == m.p.cur
  {
    var entry := m.p.e.EntryOf(m.op.callee);
    assert [m.p.n] + [entry] == [m.p.n, entry];
    AddrUnder(m.Result().t, m.p.n, [entry]);
    assert m.Result().t.Addrs([]) == [];
    assert m.Result().out[|m.Result().out| - 1] == m.p.cur;
  }

  lemma MergedInner(m: Merge, inner: Place)
    requires m.Done() && m.Inner(inner)
    ensures var r, q := m.Result(), [m.p.n] + inner;
            Sound(r) && Seen(r, q) && InPlace(r, q) && r.t.Addr(q) == m.u.Addr(inner) && (Open(r, q) <==> m.p.e.IsLast(m.op.callee, inner))
  {
    var r, q, ops := m.Result(), [m.p.n] + inner, m.p.job.bbs[m.p.n].ops;
    assert q[1..] == inner;
    AddrUnder(r.t, m.p.n, inner);
    if m.p.e.IsLast(m.op.callee, inner) {
      assert ops[m.p.j + 1..m.p.j + 1] == [];
    } else {
      assert m.L == m.L[..|m.L| - 1] + [m.L[|m.L| - 1]];
      JumpsInside(m.p.e, m.op.callee, inner);
      PutUnder(r.t, m.p.n, m.p.e.ContentAt(m.op.callee, inner), inner[0]);
    }
  }

  /** There are three kinds of blocks after the splice: earlier ones, the stand-in of the body block,
      and the callee's. */
  ghost predicate Kind(m: Merge, q: Place)
    requires m.Done() && q != []
  {
    if q[0] < m.p.n then Seen(m.p, q) && m.Result().t.Addr(q) == m.p.t.Addr(q) < m.p.hi && m.p.t.Addr(q) != m.p.cur
    else if |q| > 1 then m.p.e.IsPlace(m.op.callee, q[1..]) && q == [m.p.n] + q[1..] &&
                         m.Result().t.Addr(q) == m.u.Addr(q[1..]) >= m.p.hi
    else q == [m.p.n] && m.Result().t.Addr(q) == m.p.cur < m.p.hi
  }

  lemma BlockEarlier(m: Merge, q: Place)
    requires m.Done() && Told(m.p) && Framed(m.p.heap, m.after, m.p.hi) && Seen(m.p, q) && !Open(m.p, q)
    ensures Sound(m.Result()) && Seen(m.Result(), q) && !Open(m.Result(), q) && InPlace(m.Result(), q) && q[0] < m.p.n && Kind(m, q)
  {
    assert InPlace(m.p, q);
    OtherAddress(m.p, q);
    MergedEarlier(m, q);
  }

  lemma BlockInner(m: Merge, q: Place)
    requires m.Done() && m.Given() && Sound(m.Result()) && Seen(m.Result(), q) && q[0] == m.p.n && |q| > 1
    ensures InPlace(m.Result(), q) && Kind(m, q)
  {
    assert q == [m.p.n] + q[1..];
    MergeInner(m, q[1..]);
    MergedInner(m, q[1..]);
  }

  lemma MergedBlock(m: Merge, q: Place)
    requires m.Done() && m.Given() && Told(m.p) && Framed(m.p.heap, m.after, m.p.hi)
    requires Sound(m.Result()) && Seen(m.Result(), q)
    ensures InPlace(m.Result(), q) && Kind(m, q)
  {
    if q[0] < m.p.n {
      BlockEarlier(m, q);
    } else if |q| > 1 {
      BlockInner(m, q);
    } else {
      assert q == [m.p.n];
      MergedStandIn(m);
    }
  }

  lemma MergedApart(m: Merge, q: Place, s: Place)
    requires m.Done() && SeenApart(m.p) && Apart(m.p.e, m.op.callee, m.u)
    requires q != [] && s != [] && Kind(m, q) && Kind(m, s) && m.Result().t.Addr(q) == m.Result().t.Addr(s)
    ensures q == s
  {
  }

  lemma ListedEarlier(m: Merge, x: nat)
    requires Told(m.p) && m.Done() && Framed(m.p.heap, m.after, m.p.hi) && x in m.p.out
    ensures Sound(m.Result()) && Listed(m.Result(), x)
  {
    var q :| Seen(m.p, q) && !Open(m.p, q) && m.p.t.Addr(q) == x;
    BlockEarlier(m, q);
  }

  lemma InnerOf(m: Merge, x: nat) returns (inner: Place)
    requires m.Done() && m.Given() && x in m.L
    ensures m.Inner(inner) && m.u.Addr(inner) == x
  {
    assert IsAddress(m.p.e, m.op.callee, m.u, x);
    inner :| m.p.e.IsPlace(m.op.callee, inner) && m.u.Addr(inner) == x;
    MergeInner(m, inner);
  }

  lemma FrontOf(L: seq<nat>, x: nat)
    requires Distinct(L) && L != [] && x in L[..|L| - 1]
    ensures x in L && x != L[|L| - 1]
  {
    assert L == L[..|L| - 1] + [L[|L| - 1]];
    LastIsNew(L[..|L| - 1], L[|L| - 1]);
  }

  lemma ListedInner(m: Merge, x: nat)
    requires m.Done() && m.Given() && Distinct(m.L) && x in m.L[..|m.L| - 1]
    ensures Sound(m.Result()) && Listed(m.Result(), x)
  {
    FrontOf(m.L, x);
    var inner := InnerOf(m, x);
    MergedInner(m, inner);
  }

  lemma MergedListed(m: Merge, x: nat)
    requires m.Done() && m.Given() && Told(m.p) && Framed(m.p.heap, m.after, m.p.hi) && Distinct(m.L) && x in m.Result().out
    ensures Sound(m.Result()) && Listed(m.Result(), x)
  {
    if x in m.p.out {
      ListedEarlier(m, x);
    } else if x in m.L[..|m.L| - 1] {
      ListedInner(m, x);
    } else {
      MergedStandIn(m);
    }
  }

  lemma MergedOpen(m: Merge)
    requires m.Done() && m.Given()
    ensures Sound(m.Result()) && OpenExists(m.Result())
  {
    var last :| m.p.e.IsLast(m.op.callee, last);
    LastIsPlace(m.p.e, m.op.callee, last);
    MergeInner(m, last);
    MergedInner(m, last);
  }

  lemma Merging(m: Merge)
    requires m.Valid()
    ensures Told(m.Result())
  {
    MergeDone(m);
    MergedOpen(m);
    var r := m.Result();
    forall q | Seen(r, q)
      ensures InPlace(r, q) && Kind(m, q)
    {
      MergedBlock(m, q);
    }
    forall q, s | Seen(r, q) && Seen(r, s) && r.t.Addr(q) == r.t.Addr(s)
      ensures q == s
    {
      MergedApart(m, q, s);
    }
    forall x | x in r.out
      ensures Listed(r, x)
    {
      MergedListed(m, x);
    }
  }

  lemma JumpsPut(p: Progress)
    requires Sound(p) && p.n < |p.job.bbs|
    ensures p.t.Addrs(Singles(p.job.bbs[p.n].branches)) == Targets(p.job.base, p.job.bbs[p.n].branches)
  {
  }

  /** Finishing completes the callee's last block and touches no other. */
  lemma FinishingAt(p: Progress, q: Place)
    requires Sound(p) && p.CanFinish() && p.cur in p.heap && p.e.IsPlace(p.f, q) && InPlace(p, q)
    requires !Open(p, q) ==> p.t.Addr(q) != p.cur
    ensures Sound(p.Finished()) && InPlace(p.Finished(), q) && !Open(p.Finished(), q)
  {
    JumpsPut(p);
    assert p.Finished().out == p.out + [p.cur];
    if Open(p, q) {
      var ops := p.job.bbs[p.n].ops;
      assert ops[CallIndex(p) + 1..|ops|] == ops[CallIndex(p) + 1..];
    }
  }

  /** A body block without a call is copied as it is. */
  lemma FinishingAlone(p: Progress)
    requires Sound(p) && p.CanFinish() && Filling(p) && p.count == 0
    ensures Sound(p.Finished()) && !p.e.Expanding(p.f, p.n)
    ensures p.e.IsPlace(p.f, [p.n]) && InPlace(p.Finished(), [p.n]) && p.t.Addr([p.n]) == p.cur
  {
    JumpsPut(p);
    var ops := p.job.bbs[p.n].ops;
    assert p.Finished().out == p.out + [p.cur] && ops[..|ops|] == ops;
  }

  lemma Finishing(p: Progress)
    requires Told(p) && p.CanFinish() && p.cur in p.heap
    ensures Told(p.Finished())
  {
    var r := p.Finished();
    assert Sound(r) && r.out == p.out + [p.cur];
    if p.count == 0 {
      FinishingAlone(p);
    }
    forall q | Seen(r, q)
      ensures InPlace(r, q) && (Seen(p, q) || (p.count == 0 && q == [p.n]))
    {
      if Seen(p, q) {
        assert InPlace(p, q);
        if !Open(p, q) {
          OtherAddress(p, q);
        }
        FinishingAt(p, q);
      } else {
        assert q == [p.n];
      }
    }
    FinishingApart(p);
    forall x | x in r.out
      ensures Listed(r, x)
    {
      FinishingListed(p, x);
    }
  }

  lemma FinishingApart(p: Progress)
    requires Told(p) && p.CanFinish() && p.cur in p.heap && Sound(p.Finished())
    requires forall q :: Seen(p.Finished(), q) ==> Seen(p, q) || (p.count == 0 && q == [p.n])
    ensures SeenApart(p.Finished())
  {
    var r := p.Finished();
    forall q, s | Seen(r, q) && Seen(r, s) && r.t.Addr(q) == r.t.Addr(s)
      ensures q == s
    {
      if Seen(p, q) && p.count == 0 {
        OtherAddress(p, q);
      }
      if Seen(p, s) && p.count == 0 {
        OtherAddress(p, s);
      }
    }
  }

  lemma FinishingListed(p: Progress, x: nat)
    requires Told(p) && p.CanFinish() && p.cur in p.heap && Sound(p.Finished()) && x in p.Finished().out
    ensures Listed(p.Finished(), x)
  {
    var r := p.Finished();
    if x in p.out {
      var q :| Seen(p, q) && !Open(p, q) && p.t.Addr(q) == x;
      assert Seen(r, q) && !Open(r, q);
    } else if p.count == 0 {
      FinishingAlone(p);
      assert Seen(r, [p.n]) && !Open(r, [p.n]);
    } else {
      var q :| Seen(p, q) && Open(p, q);
      assert InPlace(p, q) && Seen(r, q) && !Open(r, q);
    }
  }

  /** Whatever the step: if everything is still good after it, everything is still laid out right. */
  lemma StepTold(p: Progress, q: Progress)
    requires p.Valid() && (p.ok ==> Told(p)) && Step(p, q)
    ensures q.ok ==> Told(q)
  {
    if q.ok {
      if p.CanEnter() && q == p.Entered() {
        Entering(p);
      } else if p.CanFinish() && q == p.Finished() {
        Finishing(p);
      } else if op :| p.NextIs(op) && !Inlined(p.e.g, op) && q == p.Copied(op) {
        Copying(p, op);
      } else {
        var op, after, L, hi, good, u :| p.CanSplice(op, after, L, hi, good, u) && q == p.Spliced(after, L, hi, good, u);
        SpliceKeeps(p, op, after, L, hi, good, u);
        Merging(Merge(p, op, after, L, hi, u));
      }
    }
  }

  lemma StartTold(p: Progress)
    requires p.Initial()
    ensures Told(p)
  {
  }

  /** At the end of a run that stayed good everything so far is laid out right. */
  lemma {:induction false} RunTold(run: seq<Progress>)
    requires IsRun(run) && Last(run).ok
    ensures Told(Last(run))
    decreases |run|
  {
    if |run| == 1 {
      assert StepAt(run, 0);
      StartTold(Last(run));
    } else {
      FrontRun(run);
      RunValid(run[..|run| - 1]);
      if Last(run[..|run| - 1]).ok {
        RunTold(run[..|run| - 1]);
      }
      StepTold(Last(run[..|run| - 1]), Last(run));
    }
  }

  /** After the last body block every block of the expansion stands at an address of its own. */
  lemma AllApart(p: Progress)
    requires Told(p) && !p.inside && p.n == |p.job.bbs|
    ensures Apart(p.e, p.f, p.t)
  {
    assert forall q :: p.e.IsPlace(p.f, q) ==> Seen(p, q);
  }

  lemma AllHeld(p: Progress, q: Place)
    requires Told(p) && !p.inside && p.n == |p.job.bbs| && p.e.IsPlace(p.f, q)
    ensures p.t.Addr(q) in p.out && Holds(p.e, p.f, p.heap, p.t, q)
  {
    assert Seen(p, q) && InPlace(p, q);
  }

  /** The block that returns is the last one of an expansion, wherever it is listed. */
  lemma LastHeld(p: Progress, L: seq<nat>, q: Place)
    requires Told(p) && !p.inside && p.n == |p.job.bbs| && p.e.IsLast(p.f, q)
    requires Expansion(p.e.g, p.heap, L) && (forall x :: x in L <==> x in p.out)
    ensures L[|L| - 1] == p.t.Addr(q)
  {
    LastIsPlace(p.e, p.f, q);
    AllHeld(p, q);
  }

  /** The whole expansion is laid out. */
  lemma AllLaid(p: Progress, L: seq<nat>)
    requires Told(p) && !p.inside && p.n == |p.job.bbs| && Expandable(p.e.funcs, p.e.g, p.f)
    requires Expansion(p.e.g, p.heap, L) && (forall x :: x in L <==> x in p.out)
    requires L == p.t.Addrs(Order(p.e, p.f)) && L[0] == p.t.Addr([p.e.EntryOf(p.f)])
    ensures Laid(p.e, p.f, p.heap, L, p.t)
  {
    AllApart(p);
    forall q | p.e.IsPlace(p.f, q)
      ensures p.t.Addr(q) in L && Holds(p.e, p.f, p.heap, p.t, q)
    {
      AllHeld(p, q);
    }
    forall x | x in L
      ensures IsAddress(p.e, p.f, p.t, x)
    {
      assert Listed(p, x);
    }
    LastFound(p.e, p.f);
    forall q | p.e.IsLast(p.f, q)
      ensures L[|L| - 1] == p.t.Addr(q)
    {
      LastHeld(p, L, q);
    }
  }

  lemma EntryIs(p: Progress)
    requires Sound(p) && p.job.Valid()
    ensures p.e.EntryOf(p.f) == p.job.entry
  {
    var ret: nat :| SingleEntryExit(p.job.bbs, p.e.EntryOf(p.f), ret);
    UniqueEntryExit(p.job.bbs, p.e.EntryOf(p.f), ret, p.job.entry, p.job.ret);
  }
}
