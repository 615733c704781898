/** Every run of an expansion that stays good lists the blocks in the order it should. */
module InlineOrder {
  import opened Graph
  import opened CallGraph
  import opened InlineModel
  import opened InlineState
  import opened InlineFinish
  import opened InlineContents
  import opened InlineRun
  import opened InlineLaid

  /** The places that should have been listed by now. */
  ghost function SoFar(p: Progress): seq<Place>
    requires Sound(p) && Expandable(p.e.funcs, p.e.g, p.f)
  {
    if p.inside && p.count > 0 && p.e.Expanding(p.f, p.n) then
      ExpandedCallee(p.e, p.f, p.n);
      BodyOrder(p.e, p.f, p.n) + Under(p.n, Front(Order(p.e, p.e.CalleeAt(p.f, p.n)))) + [[p.n]]
    else BodyOrder(p.e, p.f, p.n)
  }

  ghost predicate Ordered(p: Progress) {
    Sound(p) && Expandable(p.e.funcs, p.e.g, p.f) && p.out == p.t.Addrs(SoFar(p))
  }

  /** The places in the order lists are blocks of the expansion. */
  lemma {:induction false} OrderPlaces(e: Element, f: nat)
    requires e.Valid() && f < |e.funcs| && Expandable(e.funcs, e.g, f)
    ensures forall q :: q in Order(e, f) ==> e.IsPlace(f, q)
    decreases ReachSet(e.g, f), 1, 0
  {
    var entry: nat, ret: nat :| SingleEntryExit(e.funcs[f], entry, ret);
    var s := BodyOrder(e, f, |e.funcs[f]|);
    BodyPlaces(e, f, |e.funcs[f]|);
    LastIsPlace(e, f, LastPlace(e, f));
    MinusPart(s, LastPlace(e, f));
    MinusPart(Minus(s, LastPlace(e, f)), [e.EntryOf(f)]);
  }

  lemma {:induction false} MinusMember(s: seq<Place>, a: Place, q: Place)
    ensures q in Minus(s, a) <==> q in s && q != a
  {
    if s != [] {
      MinusMember(s[..|s| - 1], a, q);
      assert s == s[..|s| - 1] + [s[|s| - 1]];
    }
  }

  lemma MinusPart(s: seq<Place>, a: Place)
    ensures forall q :: q in Minus(s, a) ==> q in s
  {
    forall q | q in Minus(s, a)
      ensures q in s
    {
      MinusMember(s, a, q);
    }
  }

  lemma {:induction false} BodyPlaces(e: Element, f: nat, n: nat)
    requires e.Valid() && f < |e.funcs| && n <= |e.funcs[f]| && Expandable(e.funcs, e.g, f)
    ensures forall q :: q in BodyOrder(e, f, n) ==> e.IsPlace(f, q) && q[0] < n
    decreases ReachSet(e.g, f), 0, n
  {
    if n > 0 {
      BodyPlaces(e, f, n - 1);
      PartPlaces(e, f, n - 1);
      var before, part := BodyOrder(e, f, n - 1), PartOrder(e, f, n - 1);
      forall q | q in before + part
        ensures e.IsPlace(f, q) && q[0] < n
      {
        assert q in before || q in part;
      }
    }
  }

  lemma PartPlaces(e: Element, f: nat, k: nat)
    requires e.Valid() && e.HasBlock(f, k) && Expandable(e.funcs, e.g, f)
    ensures forall q :: q in PartOrder(e, f, k) ==> e.IsPlace(f, q) && q[0] == k
    decreases ReachSet(e.g, f), 0, 0
  {
    if e.Expanding(f, k) {
      ExpandedCallee(e, f, k);
      var c := e.CalleeAt(f, k);
      OrderPlaces(e, c);
      LastIsPlace(e, c, LastPlace(e, c));
      forall q | q in Under(k, Front(Order(e, c)))
        ensures e.IsPlace(f, q) && q[0] == k
      {
        UnderMember(k, Front(Order(e, c)), q);
        assert q[1..] in Order(e, c);
      }
      assert ([k] + LastPlace(e, c))[1..] == LastPlace(e, c);
    }
  }

  lemma UnderMember(k: nat, s: seq<Place>, q: Place)
    requires q in Under(k, s)
    ensures q != [] && q[0] == k && q[1..] in s
  {
    var i :| 0 <= i < |s| && Under(k, s)[i] == q;
    assert ([k] + s[i])[1..] == s[i];
  }

  lemma AddrsConcat(t: Layout, s: seq<Place>, r: seq<Place>)
    ensures t.Addrs(s + r) == t.Addrs(s) + t.Addrs(r)
  {
  }

  /** Laying out another call moves none of the places listed so far. */
  lemma AddrsSame(t: Layout, n: nat, u: Layout, s: seq<Place>)
    requires forall q :: q in s ==> q != [] && q[0] != n
    ensures t.(parts := t.parts[n := u]).Addrs(s) == t.Addrs(s)
  {
    forall i | 0 <= i < |s|
      ensures t.(parts := t.parts[n := u]).Addr(s[i]) == t.Addr(s[i])
    {
      assert s[i] in s;
    }
  }

  lemma AddrsUnder(t: Layout, k: nat, s: seq<Place>)
    requires k in t.parts && forall q :: q in s ==> q != []
    ensures t.Addrs(Under(k, s)) == t.parts[k].Addrs(s)
  {
    forall i | 0 <= i < |s|
      ensures t.Addr(Under(k, s)[i]) == t.parts[k].Addr(s[i])
    {
      assert s[i] in s;
      AddrUnder(t, k, s[i]);
    }
  }

  /** The list after a splice. */
  lemma SplicedOrder(e: Element, f: nat, n: nat, t: Layout, u: Layout, L: seq<nat>)
    requires e.Valid() && e.HasBlock(f, n) && e.Expanding(f, n) && Expandable(e.funcs, e.g, f)
    requires Expandable(e.funcs, e.g, e.CalleeAt(f, n)) && L == u.Addrs(Order(e, e.CalleeAt(f, n)))
    ensures L != []
    ensures t.Addrs(BodyOrder(e, f, n)) + L[..|L| - 1] + [t.base + n] ==
            t.(parts := t.parts[n := u]).Addrs(BodyOrder(e, f, n) + Under(n, Front(Order(e, e.CalleeAt(f, n)))) + [[n]])
  {
    var c, t' := e.CalleeAt(f, n), t.(parts := t.parts[n := u]);
    var before, front := BodyOrder(e, f, n), Front(Order(e, c));
    BodyPlaces(e, f, n);
    AddrsSame(t, n, u, before);
    OrderPlaces(e, c);
    assert forall q :: q in front ==> q in Order(e, c);
    AddrsUnder(t', n, front);
    assert L[..|L| - 1] == u.Addrs(front);
    assert t'.Addrs([[n]]) == [t.base + n];
    AddrsConcat(t', before, Under(n, front));
    AddrsConcat(t', before + Under(n, front), [[n]]);
  }

  lemma MergeOrdered(m: Merge)
    requires m.Done() && Ordered(m.p) && Expandable(m.p.e.funcs, m.p.e.g, m.op.callee) && m.L == m.u.Addrs(Order(m.p.e, m.op.callee))
    ensures Ordered(m.Result())
  {
    ExpandedCallee(m.p.e, m.p.f, m.p.n);
    SplicedOrder(m.p.e, m.p.f, m.p.n, m.p.t, m.u, m.L);
    MergedList(m, BodyOrder(m.p.e, m.p.f, m.p.n) + Under(m.p.n, Front(Order(m.p.e, m.op.callee))) + [[m.p.n]]);
  }

  lemma MergedList(m: Merge, s: seq<Place>)
    requires m.Done() && Expandable(m.p.e.funcs, m.p.e.g, m.p.f) && Expandable(m.p.e.funcs, m.p.e.g, m.op.callee)
    requires s == BodyOrder(m.p.e, m.p.f, m.p.n) + Under(m.p.n, Front(Order(m.p.e, m.op.callee))) + [[m.p.n]]
    requires m.p.t.(parts := m.p.t.parts[m.p.n := m.u]).Addrs(s) == m.p.out + m.L[..|m.L| - 1] + [m.p.cur]
    ensures Ordered(m.Result())
  {
    var r := m.Result();
    assert r.out == m.p.out + m.L[..|m.L| - 1] + [m.p.cur] && SoFar(r) == s;
  }

  lemma FinishedAlone(e: Element, f: nat, n: nat, t: Layout)
    requires e.Valid() && e.HasBlock(f, n) && !e.Expanding(f, n) && Expandable(e.funcs, e.g, f)
    ensures t.Addrs(BodyOrder(e, f, n + 1)) == t.Addrs(BodyOrder(e, f, n)) + [t.base + n]
  {
    AddrsConcat(t, BodyOrder(e, f, n), [[n]]);
    assert t.Addrs([[n]]) == [t.base + n];
  }

  lemma FinishedCall(e: Element, f: nat, n: nat, t: Layout, q: Place)
    requires e.Valid() && e.HasBlock(f, n) && e.Expanding(f, n) && Expandable(e.funcs, e.g, f)
    requires |q| > 1 && q[0] == n && e.IsLast(e.CalleeAt(f, n), q[1..])
    requires Expandable(e.funcs, e.g, e.CalleeAt(f, n))
    ensures t.Addrs(BodyOrder(e, f, n + 1)) ==
            t.Addrs(BodyOrder(e, f, n) + Under(n, Front(Order(e, e.CalleeAt(f, n)))) + [[n]]) + [t.Addr(q)]
  {
    var c := e.CalleeAt(f, n);
    LastUnique(e, c, q[1..], LastPlace(e, c));
    assert q == [n] + LastPlace(e, c);
    var listed := BodyOrder(e, f, n) + Under(n, Front(Order(e, c))) + [[n]];
    assert BodyOrder(e, f, n + 1) == listed + [q];
    AddrsConcat(t, listed, [q]);
    assert t.Addrs([q]) == [t.Addr(q)];
  }

  lemma FinishOrderedAlone(p: Progress)
    requires Ordered(p) && p.inside && p.n < |p.job.bbs| && p.cur in p.heap
    requires p.count == 0 && !p.e.Expanding(p.f, p.n) && p.cur == p.t.base + p.n
    ensures Ordered(p.Finished())
  {
    FinishedAlone(p.e, p.f, p.n, p.t);
    FinishedList(p, BodyOrder(p.e, p.f, p.n + 1));
  }

  lemma FinishOrderedCall(p: Progress, q: Place)
    requires Ordered(p) && p.inside && p.n < |p.job.bbs| && p.cur in p.heap
    requires p.count > 0 && p.e.Expanding(p.f, p.n) && |q| > 1 && q[0] == p.n && p.e.IsLast(p.e.CalleeAt(p.f, p.n), q[1..])
    requires p.t.Addr(q) == p.cur
    ensures Ordered(p.Finished())
  {
    ExpandedCallee(p.e, p.f, p.n);
    FinishedCall(p.e, p.f, p.n, p.t, q);
    FinishedList(p, BodyOrder(p.e, p.f, p.n + 1));
  }

  lemma FinishedList(p: Progress, s: seq<Place>)
    requires Sound(p) && Expandable(p.e.funcs, p.e.g, p.f) && p.inside && p.n < |p.job.bbs| && p.cur in p.heap
    requires s == BodyOrder(p.e, p.f, p.n + 1) && p.t.Addrs(s) == p.out + [p.cur]
    ensures Ordered(p.Finished())
  {
    var r := p.Finished();
    assert r.out == p.out + [p.cur] && r.t == p.t && SoFar(r) == s;
  }

  lemma FinishOrdered(p: Progress)
    requires Told(p) && Ordered(p) && p.CanFinish() && p.cur in p.heap
    ensures Ordered(p.Finished())
  {
    if p.count == 0 {
      FinishingAlone(p);
      FinishOrderedAlone(p);
    } else {
      var q :| Seen(p, q) && Open(p, q);
      assert InPlace(p, q);
      FinishOrderedCall(p, q);
    }
  }

  lemma EnterOrdered(p: Progress)
    requires Ordered(p) && p.CanEnter()
    ensures Ordered(p.Entered())
  {
  }

  lemma CopyOrdered(p: Progress, op: Op)
    requires Ordered(p) && p.NextIs(op) && p.cur in p.heap
    ensures Ordered(p.Copied(op))
  {
  }

  lemma StepOrdered(p: Progress, q: Progress)
    requires p.Valid() && Told(p) && Ordered(p) && p.ok && Step(p, q)
    ensures q.ok ==> Ordered(q)
  {
    if q.ok {
      if p.CanEnter() && q == p.Entered() {
        EnterOrdered(p);
      } else if p.CanFinish() && q == p.Finished() {
        FinishOrdered(p);
      } else if op :| p.NextIs(op) && !Inlined(p.e.g, op) && q == p.Copied(op) {
        CopyOrdered(p, op);
      } else {
        var op, after, L, hi, good, u :| p.CanSplice(op, after, L, hi, good, u) && q == p.Spliced(after, L, hi, good, u);
        SpliceKeeps(p, op, after, L, hi, good, u);
        MergeDone(Merge(p, op, after, L, hi, u));
        MergeOrdered(Merge(p, op, after, L, hi, u));
      }
    }
  }

  lemma StepStays(p: Progress, q: Progress)
    requires Step(p, q)
    ensures q.e == p.e && q.f == p.f && q.job == p.job && (q.ok ==> p.ok)
  {
  }

  lemma StartOrdered(p: Progress)
    requires p.Initial() && Expandable(p.e.funcs, p.e.g, p.f)
    ensures Ordered(p)
  {
    StartTold(p);
  }

  /** At the end of a run that stayed good the blocks are listed in order. */
  lemma {:induction false} RunOrdered(run: seq<Progress>)
    requires IsRun(run) && Last(run).ok && Last(run).f < |Last(run).e.funcs| && Last(run).e.Valid()
    requires Expandable(Last(run).e.funcs, Last(run).e.g, Last(run).f)
    ensures Ordered(Last(run))
    decreases |run|
  {
    if |run| == 1 {
      assert StepAt(run, 0);
      StartOrdered(Last(run));
    } else {
      FrontRun(run);
      var front := run[..|run| - 1];
      StepStays(Last(front), Last(run));
      RunValid(front);
      RunTold(front);
      RunOrdered(front);
      StepOrdered(Last(front), Last(run));
    }
  }

  lemma AddrsFront(t: Layout, s: seq<Place>)
    requires s != []
    ensures t.Addrs(s) == t.Addrs(s[..|s| - 1]) + [t.Addr(s[|s| - 1])]
  {
  }

  /** Removing an address is removing the place. */
  lemma {:induction false} MinusAddrs(t: Layout, s: seq<Place>, a: Place)
    requires forall q :: q in s ==> (t.Addr(q) == t.Addr(a) <==> q == a)
    ensures Without(t.Addrs(s), t.Addr(a)) == t.Addrs(Minus(s, a))
  {
    if s == [] {
      assert t.Addrs(s) == [];
    } else {
      var r, q := s[..|s| - 1], s[|s| - 1];
      assert q in s && forall x :: x in r ==> x in s;
      MinusAddrs(t, r, a);
      AddrsFront(t, s);
      WithoutSnoc(t.Addrs(r), t.Addr(q), t.Addr(a));
      if q != a {
        AddrsSnoc(t, Minus(r, a), q);
      }
    }
  }

  lemma AddrsSnoc(t: Layout, s: seq<Place>, q: Place)
    ensures t.Addrs(s + [q]) == t.Addrs(s) + [t.Addr(q)]
  {
  }

  lemma WithoutSnoc(s: seq<nat>, y: nat, x: nat)
    ensures Without(s + [y], x) == Without(s, x) + (if y == x then [] else [y])
  {
    assert (s + [y])[..|s|] == s;
  }

  lemma {:induction false} WithoutBetween(s: seq<nat>, x: nat, r: seq<nat>)
    requires x !in s && x !in r
    ensures Without(s + [x] + r, x) == s + r
  {
    if r == [] {
      WithoutSnoc(s, x, x);
      WithoutNone(s, x);
      assert s + [x] + r == s + [x] && s + r == s;
    } else {
      var r', y := r[..|r| - 1], r[|r| - 1];
      assert y in r && forall z :: z in r' ==> z in r;
      WithoutBetween(s, x, r');
      WithoutSnoc(s + [x] + r', y, x);
      assert s + [x] + r == s + [x] + r' + [y] && s + r == s + r' + [y];
    }
  }

  /** Taking out the one position that holds an element. */
  lemma WithoutAt(s: seq<nat>, i: nat)
    requires i < |s| && Distinct(s)
    ensures Without(s, s[i]) == s[..i] + s[i + 1..]
  {
    assert s == s[..i] + [s[i]] + s[i + 1..];
    WithoutBetween(s[..i], s[i], s[i + 1..]);
  }

  lemma {:induction false} WithoutNone(s: seq<nat>, x: nat)
    requires x !in s
    ensures Without(s, x) == s
  {
    if s != [] {
      assert s[|s| - 1] in s && forall y :: y in s[..|s| - 1] ==> y in s;
      WithoutNone(s[..|s| - 1], x);
      assert s == s[..|s| - 1] + [s[|s| - 1]];
    }
  }

  lemma MinusBoth(t: Layout, s: seq<Place>, a: Place, b: Place)
    requires forall q :: q in s ==> (t.Addr(q) == t.Addr(a) <==> q == a) && (t.Addr(q) == t.Addr(b) <==> q == b)
    ensures Without(Without(t.Addrs(s), t.Addr(b)), t.Addr(a)) == t.Addrs(Minus(Minus(s, b), a))
  {
    MinusAddrs(t, s, b);
    MinusPart(s, b);
    MinusAddrs(t, Minus(s, b), a);
  }

  lemma EndsAddrs(t: Layout, a: Place, rest: seq<Place>, b: Place)
    ensures t.Addrs([a] + rest + [b]) == [t.Addr(a)] + t.Addrs(rest) + [t.Addr(b)]
  {
    AddrsConcat(t, [a], rest);
    AddrsSnoc(t, [a] + rest, b);
    assert t.Addrs([a]) == [t.Addr(a)];
  }

  /** Arranging the list of the body blocks puts it in the order of the expansion. */
  lemma ArrangedOrder(t: Layout, s: seq<Place>, a: Place, b: Place, out: seq<nat>, idx: nat)
    requires out == t.Addrs(s) && Distinct(out) && idx < |out| && out[idx] == t.Addr(b)
    requires Without(Without(out, t.Addr(b)), t.Addr(a)) == t.Addrs(Minus(Minus(s, b), a))
    ensures Arrange(out, t.Addr(a), idx) == t.Addrs([a] + Minus(Minus(s, b), a) + [b])
  {
    WithoutAt(out, idx);
    EndsAddrs(t, a, Minus(Minus(s, b), a), b);
  }

  lemma AddressesApart(e: Element, f: nat, t: Layout, a: Place, s: seq<Place>)
    requires e.Valid() && Apart(e, f, t) && e.IsPlace(f, a) && forall q :: q in s ==> e.IsPlace(f, q)
    ensures forall q :: q in s ==> (t.Addr(q) == t.Addr(a) <==> q == a)
  {
  }

  lemma BodyApart(e: Element, f: nat, t: Layout, a: Place)
    requires e.Valid() && f < |e.funcs| && Expandable(e.funcs, e.g, f) && Apart(e, f, t) && e.IsPlace(f, a)
    ensures forall q :: q in BodyOrder(e, f, |e.funcs[f]|) ==> (t.Addr(q) == t.Addr(a) <==> q == a)
  {
    BodyPlaces(e, f, |e.funcs[f]|);
    AddressesApart(e, f, t, a, BodyOrder(e, f, |e.funcs[f]|));
  }

  lemma OrderIs(e: Element, f: nat, t: Layout, start: nat, out: seq<nat>, idx: nat, L: seq<nat>)
    requires e.Valid() && f < |e.funcs| && Expandable(e.funcs, e.g, f)
    requires e.IsPlace(f, [e.EntryOf(f)]) && e.IsPlace(f, LastPlace(e, f)) && Apart(e, f, t) && start == t.Addr([e.EntryOf(f)])
    requires out == t.Addrs(BodyOrder(e, f, |e.funcs[f]|)) && Distinct(out) && idx < |out| && out[idx] == t.Addr(LastPlace(e, f))
    requires L == Arrange(out, start, idx)
    ensures L == t.Addrs(Order(e, f))
  {
    BodyApart(e, f, t, [e.EntryOf(f)]);
    BodyApart(e, f, t, LastPlace(e, f));
    MinusBoth(t, BodyOrder(e, f, |e.funcs[f]|), [e.EntryOf(f)], LastPlace(e, f));
    ArrangedOrder(t, BodyOrder(e, f, |e.funcs[f]|), [e.EntryOf(f)], LastPlace(e, f), out, idx);
  }

  lemma ArrangedSame(out: seq<nat>, start: nat, idx: nat)
    requires idx < |out| && start in out
    ensures forall x: nat :: x in Arrange(out, start, idx) <==> x in out
  {
    forall x: nat
      ensures x in Arrange(out, start, idx) <==> x in out
    {
      ArrangeElements(out, start, idx, x);
    }
  }

  /** What the end of an expansion that stayed good says about the arranged list. */
  lemma EndFacts(p: Progress, L: seq<nat>, idx: nat)
    requires Told(p) && Expandable(p.e.funcs, p.e.g, p.f) && !p.inside && p.n == |p.job.bbs| && p.job.Valid()
    requires Expansion(p.e.g, p.heap, L) && idx < |p.out| && L == Arrange(p.out, p.job.base + p.job.entry, idx)
    ensures p.e.IsPlace(p.f, [p.e.EntryOf(p.f)]) && p.e.IsPlace(p.f, LastPlace(p.e, p.f))
    ensures L[0] == p.job.base + p.job.entry == p.t.Addr([p.e.EntryOf(p.f)])
    ensures (forall x :: x in L <==> x in p.out) && Apart(p.e, p.f, p.t) && p.out[idx] == p.t.Addr(LastPlace(p.e, p.f))
  {
    EntryIs(p);
    AllHeld(p, [p.job.entry]);
    ArrangedSame(p.out, p.job.base + p.job.entry, idx);
    LastHeld(p, L, LastPlace(p.e, p.f));
    LastIsPlace(p.e, p.f, LastPlace(p.e, p.f));
    AllApart(p);
  }

  /** At the end of an expansion that stayed good the arranged list is the expansion of f, in order. */
  lemma EndLaid(p: Progress, L: seq<nat>, idx: nat)
    requires Told(p) && Ordered(p) && !p.inside && p.n == |p.job.bbs| && p.job.Valid()
    requires Expansion(p.e.g, p.heap, L) && Distinct(p.out)
    requires idx < |p.out| && L == Arrange(p.out, p.job.base + p.job.entry, idx)
    ensures Laid(p.e, p.f, p.heap, L, p.t)
  {
    EndFacts(p, L, idx);
    OrderIs(p.e, p.f, p.t, L[0], p.out, idx, L);
    AllLaid(p, L);
  }

  /** Every run that stays good to the end of the body gives the expansion of f, in order. */
  lemma RunLaid(run: seq<Progress>, L: seq<nat>, idx: nat)
    requires IsRun(run) && Last(run).ok && !Last(run).inside && Last(run).n == |Last(run).job.bbs|
    requires Last(run).e.Valid() && Last(run).f < |Last(run).e.funcs| && Expandable(Last(run).e.funcs, Last(run).e.g, Last(run).f)
    requires Expansion(Last(run).e.g, Last(run).heap, L)
    requires idx < |Last(run).out| && L == Arrange(Last(run).out, Last(run).job.base + Last(run).job.entry, idx)
    ensures Laid(Last(run).e, Last(run).f, Last(run).heap, L, Last(run).t)
  {
    RunValid(run);
    RunTold(run);
    RunOrdered(run);
    EndLaid(Last(run), L, idx);
  }
}
