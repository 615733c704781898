/** What the expansion of a function is to hold, told from the functions and their call graph alone:
    its blocks, and the operations, jumps and flags of each. */
module InlineContents {
  import opened Options
  import opened Reachability
  import opened CallGraph
  import opened InlineModel

  /** A block of an expansion by where it comes from: [k] is the k-th block of the body, up to the call
      expanded in it, if any; [k] + p is the block p of the expansion of that call. */
  type Place = seq<nat>

  /** The contents of a block, with jumps to places. */
  datatype Piece = Piece(ops: seq<Op>, branches: seq<Place>, next: Option<Place>, isReturn: bool, isErr: bool)

  /** The index of the first call to expand, or the length of the list. */
  ghost function FirstCall(g: Adj, ops: seq<Op>): (j: nat)
    ensures j <= |ops| && (forall k :: 0 <= k < j ==> !Inlined(g, ops[k])) && (j < |ops| ==> Inlined(g, ops[j]))
  {
    if ops == [] || Inlined(g, ops[0]) then 0 else 1 + FirstCall(g, ops[1..])
  }

  function Singles(targets: seq<nat>): (r: seq<Place>)
    ensures |r| == |targets| && forall i :: 0 <= i < |r| ==> r[i] == [targets[i]]
  {
    seq(|targets|, i requires 0 <= i < |targets| => [targets[i]])
  }

  function Under(k: nat, places: seq<Place>): (r: seq<Place>)
    ensures |r| == |places| && forall i :: 0 <= i < |r| ==> r[i] == [k] + places[i]
  {
    seq(|places|, i requires 0 <= i < |places| => [k] + places[i])
  }

  /** The functions of an element and the calls among them. */
  datatype Element = Element(funcs: seq<seq<Bb>>, g: Adj) {
    ghost predicate Valid() {
      WellFormedProgram(funcs, g)
    }

    ghost predicate HasBlock(f: nat, k: nat) {
      f < |funcs| && k < |funcs[f]|
    }

    /** Block k of f holds a call to expand. */
    ghost predicate Expanding(f: nat, k: nat)
      requires HasBlock(f, k)
    {
      FirstCall(g, funcs[f][k].ops) < |funcs[f][k].ops|
    }

    ghost function CalleeAt(f: nat, k: nat): (c: nat)
      requires Valid() && HasBlock(f, k) && Expanding(f, k)
      ensures c < |funcs|
    {
      var op := funcs[f][k].ops[FirstCall(g, funcs[f][k].ops)];
      assert op in funcs[f][k].ops && Edge(g, f, op.callee);
      op.callee
    }

    ghost function EntryOf(f: nat): nat
      requires f < |funcs|
    {
      if entry: nat, ret: nat :| SingleEntryExit(funcs[f], entry, ret) then entry else 0
    }

    /** The blocks of the expansion of f. */
    ghost predicate IsPlace(f: nat, p: Place)
      requires Valid()
      decreases |p|
    {
      && p != [] && HasBlock(f, p[0])
      && (|p| > 1 ==> Expanding(f, p[0]) && IsPlace(CalleeAt(f, p[0]), p[1..]))
    }

    /** The block that returns: where control ends after the return block of f and what it calls. */
    ghost predicate IsLast(f: nat, p: Place)
      requires Valid()
      decreases |p|
    {
      && p != [] && HasBlock(f, p[0]) && funcs[f][p[0]].isReturn
      && (if Expanding(f, p[0]) then |p| > 1 && IsLast(CalleeAt(f, p[0]), p[1..]) else |p| == 1)
    }

    /** A body block keeps its operations up to the call expanded in it and jumps to the callee's entry.
        The callee's last block goes on with the operations after the call, and then jumps where the
        body block does. Without a call the body block is copied as it is. */
    ghost function ContentAt(f: nat, p: Place): Piece
      requires Valid() && IsPlace(f, p)
      decreases |p|
    {
      var k, bb := p[0], funcs[f][p[0]];
      var j := FirstCall(g, bb.ops);
      if |p| == 1 && !Expanding(f, k) then
        Piece(bb.ops, Singles(bb.branches), if bb.defaultNext.Some? then Some([bb.defaultNext.value]) else None, bb.isReturn, bb.isErr)
      else if |p| == 1 then
        Piece(bb.ops[..j], [], Some([k, EntryOf(CalleeAt(f, k))]), false, false)
      else
        var inner := ContentAt(CalleeAt(f, k), p[1..]);
        if IsLast(CalleeAt(f, k), p[1..]) then
          Piece(inner.ops + bb.ops[j + 1..], Singles(bb.branches),
                if bb.defaultNext.Some? then Some([bb.defaultNext.value]) else Some(p), bb.isReturn, bb.isErr)
        else
          Piece(inner.ops, Under(k, inner.branches), if inner.next.Some? then Some([k] + inner.next.value) else None,
                inner.isReturn, inner.isErr)
    }
  }

  /** Where an expansion was laid out: its body's stand-ins from `base` on, and the expansions of the
      calls in its blocks. */
  datatype Layout = Layout(base: nat, parts: map<nat, Layout>) {
    function Addr(p: Place): nat
      decreases |p|
    {
      if p == [] then 0
      else if |p| == 1 then base + p[0]
      else if p[0] in parts then parts[p[0]].Addr(p[1..])
      else 0
    }

    function Addrs(places: seq<Place>): (r: seq<nat>)
      ensures |r| == |places| && forall i :: 0 <= i < |r| ==> r[i] == Addr(places[i])
    {
      seq(|places|, i requires 0 <= i < |places| => Addr(places[i]))
    }

    function Put(piece: Piece): Bb {
      Bb(piece.ops, Addrs(piece.branches), if piece.next.Some? then Some(Addr(piece.next.value)) else None, piece.isReturn, piece.isErr)
    }
  }

  lemma {:induction false} LastIsPlace(e: Element, f: nat, p: Place)
    requires e.Valid() && e.IsLast(f, p)
    ensures e.IsPlace(f, p) && e.ContentAt(f, p).isReturn
    decreases |p|
  {
    if |p| > 1 {
      LastIsPlace(e, e.CalleeAt(f, p[0]), p[1..]);
    }
  }

  /** An expandable function has a block that returns. */
  lemma {:induction false} LastExists(e: Element, f: nat) returns (p: Place)
    requires e.Valid() && f < |e.funcs| && Expandable(e.funcs, e.g, f)
    ensures e.IsLast(f, p)
    decreases ReachSet(e.g, f)
  {
    var entry: nat, r: nat :| SingleEntryExit(e.funcs[f], entry, r);
    if e.Expanding(f, r) {
      var c := e.CalleeAt(f, r);
      assert Calls(e.g, e.funcs[f], c);
      CalleeShrinks(e.funcs, e.g, f, c);
      var q := LastExists(e, c);
      p := [r] + q;
      assert p[1..] == q;
    } else {
      p := [r];
    }
  }

  /** There is only one. */
  lemma {:induction false} LastUnique(e: Element, f: nat, p: Place, q: Place)
    requires e.Valid() && f < |e.funcs| && Expandable(e.funcs, e.g, f) && e.IsLast(f, p) && e.IsLast(f, q)
    ensures p == q
    decreases |p|
  {
    var entry: nat, r: nat :| SingleEntryExit(e.funcs[f], entry, r);
    assert p[0] == r == q[0];
    if |p| > 1 {
      var c := e.CalleeAt(f, r);
      assert Calls(e.g, e.funcs[f], c);
      CalleeShrinks(e.funcs, e.g, f, c);
      LastUnique(e, c, p[1..], q[1..]);
      assert p == [r] + p[1..] && q == [r] + q[1..];
    } else {
      assert p == [r] && q == [r];
    }
  }

  lemma ExpandedCallee(e: Element, f: nat, k: nat)
    requires e.Valid() && e.HasBlock(f, k) && e.Expanding(f, k) && Expandable(e.funcs, e.g, f)
    ensures Expandable(e.funcs, e.g, e.CalleeAt(f, k)) && ReachSet(e.g, e.CalleeAt(f, k)) < ReachSet(e.g, f)
  {
    assert Calls(e.g, e.funcs[f], e.CalleeAt(f, k));
    CalleeShrinks(e.funcs, e.g, f, e.CalleeAt(f, k));
  }

  ghost function LastPlace(e: Element, f: nat): (p: Place)
    requires e.Valid() && f < |e.funcs| && Expandable(e.funcs, e.g, f)
    ensures e.IsLast(f, p)
  {
    LastFound(e, f);
    var p :| e.IsLast(f, p);
    p
  }

  lemma LastFound(e: Element, f: nat)
    requires e.Valid() && f < |e.funcs| && Expandable(e.funcs, e.g, f)
    ensures exists p :: e.IsLast(f, p)
  {
    var p := LastExists(e, f);
  }

  function Front(s: seq<Place>): seq<Place> {
    if s == [] then [] else s[..|s| - 1]
  }

  /** The list without one of its places. */
  function Minus(s: seq<Place>, a: Place): seq<Place> {
    if s == [] then []
    else Minus(s[..|s| - 1], a) + if s[|s| - 1] == a then [] else [s[|s| - 1]]
  }

  /** The order of the blocks that body block k leads to: those of the callee but its last, the body
      block itself, and the callee's last block. */
  ghost function PartOrder(e: Element, f: nat, k: nat): seq<Place>
    requires e.Valid() && e.HasBlock(f, k) && Expandable(e.funcs, e.g, f)
    decreases ReachSet(e.g, f), 0, 0
  {
    if !e.Expanding(f, k) then [[k]]
    else
      ExpandedCallee(e, f, k);
      var c := e.CalleeAt(f, k);
      Under(k, Front(Order(e, c))) + [[k]] + [[k] + LastPlace(e, c)]
  }

  ghost function BodyOrder(e: Element, f: nat, n: nat): seq<Place>
    requires e.Valid() && f < |e.funcs| && n <= |e.funcs[f]| && Expandable(e.funcs, e.g, f)
    decreases ReachSet(e.g, f), 1, n
  {
    if n == 0 then [] else BodyOrder(e, f, n - 1) + PartOrder(e, f, n - 1)
  }

  /** The blocks of an expansion in order: the entry first, the block that returns last, and the
      others in between as the body lists them. */
  ghost function Order(e: Element, f: nat): (s: seq<Place>)
    requires e.Valid() && f < |e.funcs| && Expandable(e.funcs, e.g, f)
    ensures s != [] && s[0] == [e.EntryOf(f)] && s[|s| - 1] == LastPlace(e, f)
    decreases ReachSet(e.g, f), 2, 0
  {
    [[e.EntryOf(f)]] + Minus(Minus(BodyOrder(e, f, |e.funcs[f]|), LastPlace(e, f)), [e.EntryOf(f)]) + [LastPlace(e, f)]
  }

  /** Block p of the expansion stands in the heap with the contents it should have. */
  ghost predicate Holds(e: Element, f: nat, heap: map<nat, Bb>, t: Layout, p: Place)
    requires e.Valid() && e.IsPlace(f, p)
  {
    t.Addr(p) in heap && heap[t.Addr(p)] == t.Put(e.ContentAt(f, p))
  }

  /** L lists the blocks of the expansion of f in order, one for each place, with the contents they
      should have. */
  ghost predicate Laid(e: Element, f: nat, heap: map<nat, Bb>, L: seq<nat>, t: Layout) {
    && e.Valid() && f < |e.funcs| && L != []
    && (forall p :: e.IsPlace(f, p) ==> t.Addr(p) in L && Holds(e, f, heap, t, p))
    && (forall x :: x in L ==> IsAddress(e, f, t, x))
    && Apart(e, f, t)
    && L[0] == t.Addr([e.EntryOf(f)])
    && (exists p :: e.IsLast(f, p)) && (forall p :: e.IsLast(f, p) ==> L[|L| - 1] == t.Addr(p))
    && Expandable(e.funcs, e.g, f) && L == t.Addrs(Order(e, f))
  }

  /** No two blocks share an address. */
  ghost predicate Apart(e: Element, f: nat, t: Layout)
    requires e.Valid()
  {
    forall p, q :: e.IsPlace(f, p) && e.IsPlace(f, q) && t.Addr(p) == t.Addr(q) ==> p == q
  }

  ghost predicate IsAddress(e: Element, f: nat, t: Layout, x: nat)
    requires e.Valid()
  {
    exists p :: e.IsPlace(f, p) && t.Addr(p) == x
  }

  /** Jumps lead to stand-ins or stay within the expansion of the same call. */
  ghost predicate JumpsFrom(piece: Piece, k: nat) {
    && (forall i :: 0 <= i < |piece.branches| ==> JumpFrom(piece.branches[i], k))
    && (piece.next.Some? ==> JumpFrom(piece.next.value, k))
  }

  predicate JumpFrom(r: Place, k: nat) {
    r != [] && (|r| == 1 || r[0] == k)
  }

  lemma JumpsInside(e: Element, f: nat, p: Place)
    requires e.Valid() && e.IsPlace(f, p)
    ensures JumpsFrom(e.ContentAt(f, p), p[0])
  {
  }

  /** Laying out another call does not move a block. */
  lemma PutSame(t: Layout, t': Layout, piece: Piece, k: nat)
    requires JumpsFrom(piece, k) && t'.base == t.base && (k in t.parts <==> k in t'.parts) && (k in t.parts ==> t'.parts[k] == t.parts[k])
    ensures t'.Put(piece) == t.Put(piece)
  {
    assert forall i :: 0 <= i < |piece.branches| ==> t'.Addr(piece.branches[i]) == t.Addr(piece.branches[i]);
    assert t'.Addrs(piece.branches) == t.Addrs(piece.branches);
  }

  lemma AddrUnder(t: Layout, k: nat, p: Place)
    requires k in t.parts && p != []
    ensures t.Addr([k] + p) == t.parts[k].Addr(p)
  {
    assert ([k] + p)[1..] == p;
  }

  /** A block of a callee's expansion is the same block of the whole. */
  lemma PutUnder(t: Layout, k: nat, inner: Piece, j: nat)
    requires k in t.parts && JumpsFrom(inner, j)
    ensures t.Put(Piece(inner.ops, Under(k, inner.branches), if inner.next.Some? then Some([k] + inner.next.value) else None,
                        inner.isReturn, inner.isErr)) == t.parts[k].Put(inner)
  {
    forall i | 0 <= i < |inner.branches|
      ensures t.Addr(Under(k, inner.branches)[i]) == t.parts[k].Addr(inner.branches[i])
    {
      AddrUnder(t, k, inner.branches[i]);
    }
    assert t.Addrs(Under(k, inner.branches)) == t.parts[k].Addrs(inner.branches);
    if inner.next.Some? {
      AddrUnder(t, k, inner.next.value);
    }
  }

  /** No operation is lost: each one of a body block, but for the call expanded there, stands in the
      block's own part or, if it comes after the call, in the part that the callee's last block starts. */
  lemma KeptSomewhere(e: Element, f: nat, k: nat, i: nat) returns (p: Place, pos: nat)
    requires e.Valid() && e.HasBlock(f, k) && Expandable(e.funcs, e.g, f)
    requires i < |e.funcs[f][k].ops| && i != FirstCall(e.g, e.funcs[f][k].ops)
    ensures e.IsPlace(f, p) && p[0] == k
    ensures pos < |e.ContentAt(f, p).ops| && e.ContentAt(f, p).ops[pos] == e.funcs[f][k].ops[i]
    ensures i < FirstCall(e.g, e.funcs[f][k].ops) <==> p == [k]
  {
    var j := FirstCall(e.g, e.funcs[f][k].ops);
    if i < j {
      p, pos := [k], i;
    } else {
      var c := e.CalleeAt(f, k);
      assert Calls(e.g, e.funcs[f], c);
      CalleeShrinks(e.funcs, e.g, f, c);
      var last := LastExists(e, c);
      LastIsPlace(e, c, last);
      p := [k] + last;
      assert p[1..] == last;
      pos := |e.ContentAt(c, last).ops| + i - j - 1;
    }
  }
}
