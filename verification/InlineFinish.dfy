/** The end of an expansion: in-degrees, the two asserted counts, and the order of the result. */
module InlineFinish {
  import opened Options
  import opened Reachability
  import opened Graph
  import opened InlineModel
  import opened InlineState
  import opened InlineBroken

  ghost predicate CountedUpTo(heap: map<nat, Bb>, out: seq<nat>, seen: seq<nat>, deg: map<nat, nat>) {
    && (forall x :: x in out ==> x in deg)
    && (forall x :: x in deg ==> (deg[x] == 0 <==> !HasPred(heap, seen, x)))
    && (forall x :: x in deg && deg[x] == 0 ==> x in out)
  }

  function Bump(deg: map<nat, nat>, x: nat): map<nat, nat> {
    deg[x := (if x in deg then deg[x] else 0) + 1]
  }

  function BumpAll(deg: map<nat, nat>, xs: seq<nat>): map<nat, nat>
    decreases |xs|
  {
    if xs == [] then deg else BumpAll(Bump(deg, xs[0]), xs[1..])
  }

  lemma {:induction false} BumpAllZero(deg: map<nat, nat>, xs: seq<nat>, x: nat)
    ensures x in BumpAll(deg, xs) <==> x in deg || x in xs
    ensures x in BumpAll(deg, xs) && BumpAll(deg, xs)[x] == 0 <==> x in deg && deg[x] == 0 && x !in xs
    decreases |xs|
  {
    if xs != [] {
      BumpAllZero(Bump(deg, xs[0]), xs[1..], x);
      assert x in xs <==> x == xs[0] || x in xs[1..];
    }
  }

  /** The jumps of a block that count, as a list. */
  function JumpList(b: Bb): (r: seq<nat>)
    ensures forall s :: s in r <==> s in Succs(b)
  {
    if b.isReturn || b.isErr then []
    else (if b.defaultNext.Some? then [b.defaultNext.value] else []) + b.branches
  }

  lemma HasPredSnoc(heap: map<nat, Bb>, seen: seq<nat>, y: nat, x: nat)
    requires y in heap
    ensures HasPred(heap, seen + [y], x) <==> HasPred(heap, seen, x) || x in Succs(heap[y])
  {
    if HasPred(heap, seen, x) {
      var z :| z in seen && z in heap && x in Succs(heap[z]);
      assert z in seen + [y];
    }
    if x in Succs(heap[y]) {
      assert y in seen + [y];
    }
  }

  lemma CountStep(heap: map<nat, Bb>, out: seq<nat>, seen: seq<nat>, deg: map<nat, nat>, y: nat)
    requires CountedUpTo(heap, out, seen, deg) && y in heap
    ensures CountedUpTo(heap, out, seen + [y], BumpAll(deg, JumpList(heap[y])))
  {
    var deg' := BumpAll(deg, JumpList(heap[y]));
    forall x: nat
      ensures x in out ==> x in deg'
      ensures x in deg' ==> (deg'[x] == 0 <==> !HasPred(heap, seen + [y], x))
      ensures x in deg' && deg'[x] == 0 ==> x in out
    {
      BumpAllZero(deg, JumpList(heap[y]), x);
      HasPredSnoc(heap, seen, y, x);
    }
  }

  /** The blocks of the list that no block of the list jumps to. */
  method InDegreeZero(heap: map<nat, Bb>, out: seq<nat>) returns (zeros: set<nat>)
    requires forall y :: y in out ==> y in heap
    ensures forall x :: x in zeros <==> x in out && !HasPred(heap, out, x)
  {
    var deg: map<nat, nat> := map x | x in out :: 0;
    var i := 0;
    assert out[..0] == [];
    while i < |out|
      invariant i <= |out| && CountedUpTo(heap, out, out[..i], deg)
    {
      assert out[..i + 1] == out[..i] + [out[i]];
      CountStep(heap, out, out[..i], deg, out[i]);
      deg := BumpAll(deg, JumpList(heap[out[i]]));
      i := i + 1;
    }
    assert out[..i] == out;
    zeros := set x | x in deg && deg[x] == 0;
  }

  ghost predicate TwoReturns(heap: map<nat, Bb>, out: seq<nat>) {
    exists j, k :: 0 <= j < k < |out| && out[j] in heap && out[k] in heap && heap[out[j]].isReturn && heap[out[k]].isReturn
  }

  lemma OneReturn(heap: map<nat, Bb>, out: seq<nat>, fin: nat)
    requires Distinct(out) && forall y :: y in out ==> y in heap && (heap[y].isReturn <==> y == fin)
    ensures !TwoReturns(heap, out)
  {
    assert forall k :: 0 <= k < |out| ==> out[k] in out;
  }

  ghost predicate ReturnsCounted(heap: map<nat, Bb>, out: seq<nat>, num: nat, idx: nat) {
    && (num > 0 ==> idx < |out| && out[idx] in heap && heap[out[idx]].isReturn)
    && (num == 0 ==> forall y :: y in out && y in heap ==> !heap[y].isReturn)
    && (num > 1 ==> TwoReturns(heap, out))
  }

  /** How many positions hold a return block, and the last such position. */
  method CountReturns(heap: map<nat, Bb>, out: seq<nat>) returns (num: nat, idx: nat)
    requires forall y :: y in out ==> y in heap
    ensures ReturnsCounted(heap, out, num, idx)
  {
    num, idx := 0, 0;
    var i := 0;
    while i < |out|
      invariant i <= |out|
      invariant num > 0 ==> idx < i && heap[out[idx]].isReturn
      invariant num == 0 ==> forall j :: 0 <= j < i ==> !heap[out[j]].isReturn
      invariant num > 1 ==> TwoReturns(heap, out)
    {
      if heap[out[i]].isReturn {
        num := num + 1;
        idx := i;
      }
      i := i + 1;
    }
  }

  function Without(s: seq<nat>, x: nat): seq<nat> {
    if s == [] then []
    else if s[|s| - 1] == x then Without(s[..|s| - 1], x)
    else Without(s[..|s| - 1], x) + [s[|s| - 1]]
  }

  lemma {:induction false} WithoutCount(s: seq<nat>, x: nat, y: nat)
    ensures multiset(Without(s, x))[y] == if y == x then 0 else multiset(s)[y]
  {
    if s != [] {
      var t, z := s[..|s| - 1], s[|s| - 1];
      assert s == t + [z];
      assert multiset(s) == multiset(t) + multiset{z};
      WithoutCount(t, x, y);
    }
  }

  /** Start first, return block last, the others in between. */
  function Arrange(out: seq<nat>, start: nat, idx: nat): seq<nat>
    requires idx < |out|
  {
    [start] + Without(out[..idx] + out[idx + 1..], start) + [out[idx]]
  }

  lemma ArrangeCount(out: seq<nat>, start: nat, idx: nat, x: nat)
    requires idx < |out|
    ensures multiset(Arrange(out, start, idx))[x] ==
            if x == start then 1 + (if out[idx] == start then 1 else 0) else multiset(out)[x]
  {
    var rest := out[..idx] + out[idx + 1..];
    assert out == out[..idx] + [out[idx]] + out[idx + 1..];
    assert multiset(out) == multiset(rest) + multiset{out[idx]};
    WithoutCount(rest, start, x);
    var w := Without(rest, start);
    assert multiset(Arrange(out, start, idx)) == multiset{start} + multiset(w) + multiset{out[idx]};
  }

  lemma ArrangeElements(out: seq<nat>, start: nat, idx: nat, x: nat)
    requires idx < |out| && start in out
    ensures x in Arrange(out, start, idx) <==> x in out
  {
    ArrangeCount(out, start, idx, x);
    assert x in out <==> x in multiset(out);
    assert x in Arrange(out, start, idx) <==> x in multiset(Arrange(out, start, idx));
  }

  /** The stand-in of the entry block has in-degree zero, good or not. */
  lemma EntryHasNoPred(job: Job, heap: map<nat, Bb>, out: seq<nat>, hi: nat)
    requires job.Valid() && Weak(job, heap, |job.bbs|, out, hi)
    ensures job.base + job.entry in out && !HasPred(heap, out, job.base + job.entry)
  {
    var x := job.base + job.entry;
    assert x - job.base == job.entry;
    forall y | y in out && y in heap
      ensures x !in Succs(heap[y])
    {
      assert JumpRight(job, heap, |job.bbs|, hi, y, x) && !Targeted(job.bbs, |job.bbs|, job.entry);
    }
  }

  /** While everything is good it is the only one. */
  lemma EntryOnly(job: Job, heap: map<nat, Bb>, out: seq<nat>, x: nat)
    requires job.Valid() && PredsFound(job, heap, |job.bbs|, out)
    requires x in out && x >= job.base && !HasPred(heap, out, x)
    ensures x == job.base + job.entry
  {
    if x < job.Limit() {
      var k: nat := x - job.base;
      assert job.StandIn(k) == x && !HasPred(heap, out, job.StandIn(k));
      assert k < |job.bbs| && !Targeted(job.bbs, |job.bbs|, k);
    }
  }

  /** Rearranging keeps ranges and jumps. */
  lemma ArrangedInRange(job: Job, heap: map<nat, Bb>, out: seq<nat>, hi: nat, start: nat, idx: nat)
    requires job.Valid() && Weak(job, heap, |job.bbs|, out, hi) && idx < |out| && start in out
    ensures InRange(heap, job.base, hi, Arrange(out, start, idx))
  {
    forall y | y in Arrange(out, start, idx)
      ensures y in out
    {
      ArrangeElements(out, start, idx, y);
    }
    forall y, s | y in Arrange(out, start, idx) && y in heap && s in Succs(heap[y])
      ensures job.base <= s < hi
    {
      assert JumpRight(job, heap, |job.bbs|, hi, y, s);
    }
  }

  lemma ArrangedDistinct(out: seq<nat>, start: nat, idx: nat)
    requires idx < |out|
    ensures Distinct(out) && out[idx] != start ==> Distinct(Arrange(out, start, idx))
    ensures out[idx] == start ==> !Distinct(Arrange(out, start, idx))
  {
    var R := Arrange(out, start, idx);
    DuplicateInMultiset(out);
    DuplicateInMultiset(R);
    ArrangeCount(out, start, idx, start);
    if Distinct(out) && out[idx] != start {
      forall x
        ensures multiset(R)[x] <= 1
      {
        ArrangeCount(out, start, idx, x);
      }
    }
  }

  lemma ArrangedEntry(job: Job, heap: map<nat, Bb>, out: seq<nat>, hi: nat, idx: nat, x: nat)
    requires job.Valid() && Weak(job, heap, |job.bbs|, out, hi) && PredsFound(job, heap, |job.bbs|, out) && idx < |out|
    requires x in out
    ensures job.base + job.entry in out
    ensures x == job.base + job.entry <==> !HasPred(heap, Arrange(out, job.base + job.entry, idx), x)
  {
    EntryHasNoPred(job, heap, out, hi);
    SamePreds(heap, out, job.base + job.entry, idx, x);
    if !HasPred(heap, out, x) {
      EntryOnly(job, heap, out, x);
    }
  }

  lemma StandInsListed(job: Job, heap: map<nat, Bb>, out: seq<nat>, hi: nat, y: nat, s: nat)
    requires job.Valid() && Weak(job, heap, |job.bbs|, out, hi) && ClosedList(job, heap, out)
    requires y in out && y in heap && s in Succs(heap[y])
    ensures s in out
  {
  }

  lemma ArrangedExpansion(g: Adj, job: Job, heap: map<nat, Bb>, out: seq<nat>, fin: nat, hi: nat, start: nat, idx: nat)
    requires job.Valid() && Weak(job, heap, |job.bbs|, out, hi) && Strong(g, job, heap, |job.bbs|, out, fin)
    requires start == job.base + job.entry && idx < |out| && out[idx] == fin && fin != start
    ensures Expansion(g, heap, Arrange(out, start, idx))
  {
    var R := Arrange(out, start, idx);
    EntryHasNoPred(job, heap, out, hi);
    ArrangedDistinct(out, start, idx);
    forall x: nat
      ensures x in R <==> x in out
    {
      ArrangeElements(out, start, idx, x);
    }
    forall x | x in R
      ensures x == R[0] <==> !HasPred(heap, R, x)
    {
      ArrangedEntry(job, heap, out, hi, idx, x);
    }
    forall y, s | y in R && s in Succs(heap[y])
      ensures s in R
    {
      StandInsListed(job, heap, out, hi, y, s);
    }
    assert R[|R| - 1] == fin;
  }

  lemma SamePreds(heap: map<nat, Bb>, out: seq<nat>, start: nat, idx: nat, x: nat)
    requires idx < |out| && start in out
    ensures HasPred(heap, Arrange(out, start, idx), x) <==> HasPred(heap, out, x)
  {
    if HasPred(heap, out, x) {
      var y :| y in out && y in heap && x in Succs(heap[y]);
      ArrangeElements(out, start, idx, y);
    }
    if HasPred(heap, Arrange(out, start, idx), x) {
      var y :| y in Arrange(out, start, idx) && y in heap && x in Succs(heap[y]);
      ArrangeElements(out, start, idx, y);
    }
  }

  lemma BrokenArranged(job: Job, heap: map<nat, Bb>, out: seq<nat>, hi: nat, zeros: set<nat>, start: nat, idx: nat)
    requires job.Valid() && Weak(job, heap, |job.bbs|, out, hi) && Broken(job, heap, out, out)
    requires forall x :: x in zeros <==> x in out && !HasPred(heap, out, x)
    requires zeros == {start} && idx < |out|
    ensures !Distinct(Arrange(out, start, idx))
  {
    EntryHasNoPred(job, heap, out, hi);
    assert start == job.base + job.entry;
    if x :| x >= job.Limit() && x in out && !HasPred(heap, out, x) {
      assert x in zeros;
    }
    var x :| x >= job.Limit() && multiset(out)[x] >= 2;
    ArrangeCount(out, start, idx, x);
    DuplicateInMultiset(Arrange(out, start, idx));
  }

  /** While everything is good both asserted counts are one. */
  lemma GoodCounts(g: Adj, job: Job, heap: map<nat, Bb>, out: seq<nat>, fin: nat, hi: nat, zeros: set<nat>)
    requires job.Valid() && Weak(job, heap, |job.bbs|, out, hi) && Strong(g, job, heap, |job.bbs|, out, fin)
    requires forall x :: x in zeros <==> x in out && !HasPred(heap, out, x)
    ensures zeros == {job.base + job.entry}
    ensures Distinct(out) && fin in out && forall y :: y in out ==> y in heap && (heap[y].isReturn <==> y == fin)
  {
    EntryHasNoPred(job, heap, out, hi);
    forall x | x in zeros
      ensures x == job.base + job.entry
    {
      EntryOnly(job, heap, out, x);
    }
  }

  lemma GoodEnd(g: Adj, job: Job, heap: map<nat, Bb>, out: seq<nat>, fin: nat, hi: nat, zeros: set<nat>, num: nat, idx: nat)
    requires job.Valid() && Weak(job, heap, |job.bbs|, out, hi) && Strong(g, job, heap, |job.bbs|, out, fin)
    requires forall x :: x in zeros <==> x in out && !HasPred(heap, out, x)
    requires ReturnsCounted(heap, out, num, idx)
    ensures |zeros| == 1 && num == 1 && idx < |out| && out[idx] == fin
  {
    GoodCounts(g, job, heap, out, fin, hi, zeros);
    OneReturn(heap, out, fin);
    assert num > 0 ==> out[idx] in out;
  }

  /** Orders the blocks of a finished expansion, or fails where the source asserts one entry and
      one return block. */
  method Finish(ghost g: Adj, ghost job: Job, heap: map<nat, Bb>, out: seq<nat>, ghost hi: nat, ghost fin: nat)
    returns (r: Option<seq<nat>>, ghost idx: nat)
    requires job.Valid() && Weak(job, heap, |job.bbs|, out, hi)
    ensures r.Some? ==> InRange(heap, job.base, hi, r.value)
    ensures r.Some? ==> idx < |out| && r.value == Arrange(out, job.base + job.entry, idx)
    ensures Strong(g, job, heap, |job.bbs|, out, fin) && fin != job.base + job.entry ==>
              r.Some? && Expansion(g, heap, r.value)
    ensures Strong(g, job, heap, |job.bbs|, out, fin) && fin == job.base + job.entry && r.Some? ==> !Distinct(r.value)
    ensures Broken(job, heap, out, out) && r.Some? ==> !Distinct(r.value)
  {
    var zeros := InDegreeZero(heap, out);
    var numReturn, at := CountReturns(heap, out);
    idx := at;
    if Strong(g, job, heap, |job.bbs|, out, fin) {
      GoodEnd(g, job, heap, out, fin, hi, zeros, numReturn, at);
    }
    if |zeros| != 1 || numReturn != 1 {
      return None, at;
    }
    var start :| start in zeros;
    Finished(g, job, heap, out, hi, fin, zeros, start, at);
    r := Some(Arrange(out, start, at));
  }

  lemma Finished(g: Adj, job: Job, heap: map<nat, Bb>, out: seq<nat>, hi: nat, fin: nat, zeros: set<nat>, start: nat, idx: nat)
    requires job.Valid() && Weak(job, heap, |job.bbs|, out, hi) && idx < |out|
    requires forall x :: x in zeros <==> x in out && !HasPred(heap, out, x)
    requires |zeros| == 1 && start in zeros
    requires Strong(g, job, heap, |job.bbs|, out, fin) ==> out[idx] == fin
    ensures InRange(heap, job.base, hi, Arrange(out, start, idx))
    ensures start == job.base + job.entry
    ensures Strong(g, job, heap, |job.bbs|, out, fin) ==>
        if fin != job.base + job.entry then Expansion(g, heap, Arrange(out, start, idx)) else !Distinct(Arrange(out, start, idx))
    ensures Broken(job, heap, out, out) ==> !Distinct(Arrange(out, start, idx))
  {
    SingletonSet(zeros, start);
    EntryHasNoPred(job, heap, out, hi);
    ArrangedInRange(job, heap, out, hi, start, idx);
    if Strong(g, job, heap, |job.bbs|, out, fin) {
      if fin != start {
        ArrangedExpansion(g, job, heap, out, fin, hi, start, idx);
      } else {
        ArrangedDistinct(out, start, idx);
      }
    }
    if Broken(job, heap, out, out) {
      BrokenArranged(job, heap, out, hi, zeros, start, idx);
    }
  }

  lemma SingletonSet(s: set<nat>, x: nat)
    requires |s| == 1 && x in s
    ensures s == {x}
  {
    assert |s - {x}| == 0;
    assert s == {x} + (s - {x});
  }
}
