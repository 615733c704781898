/** Removal of operations whose results are never needed. */
module DeadOps {
  import opened Options

  datatype OpType =
    | ALLOCA | ARITH | LOAD | STORE | STRUCT_SET | STRUCT_GET | GEP | BITCAST | PHINODE | SELECT
    | FUNC_CALL(demangledName: Option<string>)
    | PKT_HDR_LOAD | PKT_HDR_STORE | PKT_ENCAP | PKT_DECAP | UNREACHABLE

  /** External stands for a constant, a parameter or a global; Local for the result of an operation. */
  datatype Var = External(id: nat) | Local(id: nat)

  datatype Operation = Operation(opType: OpType, dstVars: seq<Var>, args: seq<Var>)

  datatype Branch = Branch(condVar: Var, next: nat)

  /** A block refers to its operations by their index in the function's operation table. */
  datatype Block = Block(ops: seq<nat>, branches: seq<Branch>, defaultNext: nat,
                         isReturn: bool, isErr: bool, returnVal: Option<Var>)

  predicate FuncHasSideEffect(demangledName: Option<string>) {
    !(demangledName.Some? && demangledName.value in
        ["WritablePacket::ip_header() const", "Packet::ip_header() const",
         "Packet::transport_header() const", "Packet::uniqueify()"])
  }

  predicate HasSideEffect(op: Operation) {
    match op.opType
    case ARITH | BITCAST | GEP | LOAD | STRUCT_GET | PHINODE | PKT_HDR_LOAD | SELECT => false
    case FUNC_CALL(name) => FuncHasSideEffect(name)
    case _ => true
  }

  /** o is placed in some block of the function. */
  ghost predicate Placed(blocks: seq<Block>, o: nat) {
    exists b :: 0 <= b < |blocks| && o in blocks[b].ops
  }

  ghost predicate Defines(ops: seq<Operation>, blocks: seq<Block>, o: nat, v: nat) {
    Placed(blocks, o) && o < |ops| && Local(v) in ops[o].dstVars
  }

  /** x needs no definition or has one in the function. */
  ghost predicate Resolved(ops: seq<Operation>, blocks: seq<Block>, x: Var) {
    x.Local? ==> exists o :: Defines(ops, blocks, o, x.id)
  }

  /** What the pass takes for granted: static single assignment, and a source operation behind
      every local argument, every returned value and every branch condition. */
  ghost predicate WellFormed(ops: seq<Operation>, blocks: seq<Block>) {
    && (forall b, o :: 0 <= b < |blocks| && o in blocks[b].ops ==> o < |ops|)
    && (forall o, p, v :: Defines(ops, blocks, o, v) && Defines(ops, blocks, p, v) ==> o == p)
    && (forall b, o, a :: 0 <= b < |blocks| && o in blocks[b].ops && a in ops[o].args ==> Resolved(ops, blocks, a))
    && (forall b :: 0 <= b < |blocks| && blocks[b].isReturn && blocks[b].returnVal.Some? ==>
          blocks[b].returnVal.value.Local? && Resolved(ops, blocks, blocks[b].returnVal.value))
    && (forall b, e :: 0 <= b < |blocks| && e in blocks[b].branches ==>
          e.condVar.Local? && Resolved(ops, blocks, e.condVar))
  }

  /** Every operation that defines x is in K. */
  ghost predicate SourceIn(ops: seq<Operation>, blocks: seq<Block>, K: set<nat>, x: Var) {
    x.Local? ==> forall o :: Defines(ops, blocks, o, x.id) ==> o in K
  }

  /** The operations a block needs whatever else is kept. */
  ghost predicate RootsIn(ops: seq<Operation>, blocks: seq<Block>, K: set<nat>, block: Block)
    requires forall o :: o in block.ops ==> o < |ops|
  {
    && (forall o :: o in block.ops && HasSideEffect(ops[o]) ==> o in K)
    && (block.isReturn && block.returnVal.Some? ==> SourceIn(ops, blocks, K, block.returnVal.value))
  }

  ghost predicate ConditionsIn(ops: seq<Operation>, blocks: seq<Block>, K: set<nat>, block: Block) {
    forall e :: e in block.branches ==> SourceIn(ops, blocks, K, e.condVar)
  }

  ghost predicate ArgsIn(ops: seq<Operation>, blocks: seq<Block>, K: set<nat>, o: nat)
    requires o < |ops|
  {
    forall a :: a in ops[o].args ==> SourceIn(ops, blocks, K, a)
  }

  /** K contains every effectful, returned and branch-condition operation and is closed under
      "defines an argument of a kept operation". */
  ghost predicate Closed(ops: seq<Operation>, blocks: seq<Block>, K: set<nat>)
    requires WellFormed(ops, blocks)
  {
    forall b :: 0 <= b < |blocks| ==>
      && RootsIn(ops, blocks, K, blocks[b])
      && ConditionsIn(ops, blocks, K, blocks[b])
      && BodyClosed(ops, blocks, K, b)
  }

  /** K holds what its operations in block b need. */
  ghost predicate BodyClosed(ops: seq<Operation>, blocks: seq<Block>, K: set<nat>, b: nat)
    requires WellFormed(ops, blocks) && b < |blocks|
  {
    forall o :: o in blocks[b].ops && o in K ==> ArgsIn(ops, blocks, K, o)
  }

  /** K is the least closed set. */
  ghost predicate Needed(ops: seq<Operation>, blocks: seq<Block>, K: set<nat>)
    requires WellFormed(ops, blocks)
  {
    Closed(ops, blocks, K) && forall C :: Closed(ops, blocks, C) ==> K <= C
  }

  /** o is effectful, or the source of a returned value or of a branch condition. */
  ghost predicate Root(ops: seq<Operation>, blocks: seq<Block>, o: nat) {
    || (Placed(blocks, o) && o < |ops| && HasSideEffect(ops[o]))
    || (exists b :: 0 <= b < |blocks| && ExitReads(ops, blocks, blocks[b], o))
  }

  ghost predicate ExitReads(ops: seq<Operation>, blocks: seq<Block>, block: Block, o: nat) {
    || (block.isReturn && block.returnVal.Some? && block.returnVal.value.Local? && Defines(ops, blocks, o, block.returnVal.value.id))
    || (exists e :: e in block.branches && e.condVar.Local? && Defines(ops, blocks, o, e.condVar.id))
  }

  /** o computes an argument of p. */
  ghost predicate Feeds(ops: seq<Operation>, blocks: seq<Block>, o: nat, p: nat) {
    Placed(blocks, p) && p < |ops| && exists a :: a in ops[p].args && a.Local? && Defines(ops, blocks, o, a.id)
  }

  /** Each operation of the chain computes an argument of the one before it, and the first is a root. */
  ghost predicate Chain(ops: seq<Operation>, blocks: seq<Block>, c: seq<nat>) {
    c != [] && Root(ops, blocks, c[0]) && forall i :: 0 < i < |c| ==> Feeds(ops, blocks, c[i], c[i - 1])
  }

  ghost predicate Wanted(ops: seq<Operation>, blocks: seq<Block>, o: nat) {
    exists c :: Chain(ops, blocks, c) && c[|c| - 1] == o
  }

  lemma RootWanted(ops: seq<Operation>, blocks: seq<Block>, o: nat)
    requires Root(ops, blocks, o)
    ensures Wanted(ops, blocks, o)
  {
    assert Chain(ops, blocks, [o]) && [o][|[o]| - 1] == o;
  }

  lemma FeedWanted(ops: seq<Operation>, blocks: seq<Block>, o: nat, p: nat)
    requires Wanted(ops, blocks, p) && Feeds(ops, blocks, o, p)
    ensures Wanted(ops, blocks, o)
  {
    var c :| Chain(ops, blocks, c) && c[|c| - 1] == p;
    var d := c + [o];
    assert Chain(ops, blocks, d) && d[|d| - 1] == o;
  }

  lemma {:induction false} ChainKept(ops: seq<Operation>, blocks: seq<Block>, K: set<nat>, c: seq<nat>)
    requires WellFormed(ops, blocks) && Closed(ops, blocks, K) && Chain(ops, blocks, c)
    ensures c[|c| - 1] in K
    decreases |c|
  {
    var n := |c| - 1;
    if n == 0 {
      var b :| 0 <= b < |blocks| && (c[0] in blocks[b].ops || ExitReads(ops, blocks, blocks[b], c[0]));
      assert RootsIn(ops, blocks, K, blocks[b]) && ConditionsIn(ops, blocks, K, blocks[b]);
    } else {
      assert Feeds(ops, blocks, c[n], c[n - 1]);
      ChainKept(ops, blocks, K, c[..n]);
      var b :| 0 <= b < |blocks| && c[n - 1] in blocks[b].ops;
      assert ArgsIn(ops, blocks, K, c[n - 1]);
    }
  }

  lemma ExitsWanted(ops: seq<Operation>, blocks: seq<Block>, C: set<nat>, b: nat, x: Var)
    requires b < |blocks| && forall o: nat :: o < |ops| && Wanted(ops, blocks, o) ==> o in C
    requires (blocks[b].isReturn && blocks[b].returnVal == Some(x)) || (exists e :: e in blocks[b].branches && e.condVar == x)
    ensures SourceIn(ops, blocks, C, x)
  {
    if x.Local? {
      forall o | Defines(ops, blocks, o, x.id)
        ensures o in C
      {
        assert ExitReads(ops, blocks, blocks[b], o);
        RootWanted(ops, blocks, o);
      }
    }
  }

  lemma ArgsWanted(ops: seq<Operation>, blocks: seq<Block>, C: set<nat>, p: nat)
    requires forall o: nat :: o < |ops| && Wanted(ops, blocks, o) ==> o in C
    requires Placed(blocks, p) && p < |ops| && Wanted(ops, blocks, p)
    ensures ArgsIn(ops, blocks, C, p)
  {
    forall a, o | a in ops[p].args && a.Local? && Defines(ops, blocks, o, a.id)
      ensures o in C
    {
      assert Feeds(ops, blocks, o, p);
      FeedWanted(ops, blocks, o, p);
    }
  }

  lemma WantedClosed(ops: seq<Operation>, blocks: seq<Block>, C: set<nat>)
    requires WellFormed(ops, blocks)
    requires forall o: nat :: o in C <==> o < |ops| && Wanted(ops, blocks, o)
    ensures Closed(ops, blocks, C)
  {
    forall b | 0 <= b < |blocks|
      ensures RootsIn(ops, blocks, C, blocks[b]) && ConditionsIn(ops, blocks, C, blocks[b])
      ensures forall o :: o in blocks[b].ops && o in C ==> ArgsIn(ops, blocks, C, o)
    {
      forall o | o in blocks[b].ops && HasSideEffect(ops[o])
        ensures o in C
      {
        RootWanted(ops, blocks, o);
      }
      forall x | (blocks[b].isReturn && blocks[b].returnVal == Some(x)) || (exists e :: e in blocks[b].branches && e.condVar == x)
        ensures SourceIn(ops, blocks, C, x)
      {
        ExitsWanted(ops, blocks, C, b, x);
      }
      forall o | o in blocks[b].ops && o in C
        ensures ArgsIn(ops, blocks, C, o)
      {
        ArgsWanted(ops, blocks, C, o);
      }
    }
  }

  /** The needed operations are exactly those that some root depends on. */
  lemma NeededIff(ops: seq<Operation>, blocks: seq<Block>, K: set<nat>)
    requires WellFormed(ops, blocks) && Needed(ops, blocks, K)
    ensures forall o: nat :: o in K <==> Wanted(ops, blocks, o)
  {
    var C := set o | 0 <= o < |ops| && Wanted(ops, blocks, o);
    WantedClosed(ops, blocks, C);
    forall o: nat | Wanted(ops, blocks, o)
      ensures o in K
    {
      var c :| Chain(ops, blocks, c) && c[|c| - 1] == o;
      ChainKept(ops, blocks, K, c);
    }
  }

  function Keep(s: seq<nat>, K: set<nat>): (r: seq<nat>)
    ensures forall o :: o in r <==> o in s && o in K
  {
    if s == [] then []
    else if s[0] in K then [s[0]] + Keep(s[1..], K)
    else Keep(s[1..], K)
  }

  /** The function with only the operations of K left in its blocks. */
  ghost predicate Pruned(before: seq<Block>, after: seq<Block>, K: set<nat>) {
    |after| == |before| &&
    forall b :: 0 <= b < |before| ==> after[b] == before[b].(ops := Keep(before[b].ops, K))
  }

  ghost predicate SourceMap(ops: seq<Operation>, blocks: seq<Block>, src: map<nat, nat>) {
    forall o, v :: Defines(ops, blocks, o, v) ==> v in src && src[v] == o
  }

  function Marked(marks: seq<bool>): set<nat> {
    set i | 0 <= i < |marks| && marks[i]
  }

  function Unmarked(marks: seq<bool>): set<nat> {
    set i | 0 <= i < |marks| && !marks[i]
  }

  lemma MoreMarked(before: seq<bool>, after: seq<bool>)
    requires |before| == |after| && Marked(before) <= Marked(after)
    ensures Marked(before) == Marked(after) ==> Unmarked(after) == Unmarked(before)
    ensures Marked(before) != Marked(after) ==> Unmarked(after) < Unmarked(before)
  {
    assert forall i :: 0 <= i < |before| ==> (before[i] <==> i in Marked(before)) && (after[i] <==> i in Marked(after));
    if Marked(before) != Marked(after) {
      var i :| i in Marked(after) && i !in Marked(before);
      assert i in Unmarked(before) && i !in Unmarked(after);
    }
  }

  lemma SourceMarked(ops: seq<Operation>, blocks: seq<Block>, src: map<nat, nat>, K: set<nat>, x: Var)
    requires WellFormed(ops, blocks) && SourceMap(ops, blocks, src) && Resolved(ops, blocks, x) && x.Local?
    ensures x.id in src && src[x.id] < |ops|
    ensures SourceIn(ops, blocks, K, x) <==> src[x.id] in K
  {
    var o :| Defines(ops, blocks, o, x.id);
  }

  /** A function under transformation: its operation table and its blocks. */
  class Function {
    const ops: seq<Operation>
    var blocks: seq<Block>
    var srcOp: map<nat, nat>

    constructor (ops: seq<Operation>, blocks: seq<Block>)
      ensures this.ops == ops && this.blocks == blocks
    {
      this.ops := ops;
      this.blocks := blocks;
      srcOp := map[];
    }

    /** Records one operation as the source of its results. */
    method RecordResults(o: nat)
      requires o < |ops| && Placed(blocks, o)
      requires forall v :: v in srcOp ==> Defines(ops, blocks, srcOp[v], v)
      modifies this`srcOp
      ensures forall v :: v in srcOp ==> Defines(ops, blocks, srcOp[v], v)
      ensures forall v :: v in old(srcOp) || Local(v) in ops[o].dstVars ==> v in srcOp
    {
      var m := 0;
      while m < |ops[o].dstVars|
        invariant m <= |ops[o].dstVars|
        invariant forall v :: v in srcOp ==> Defines(ops, blocks, srcOp[v], v)
        invariant forall v :: v in old(srcOp) || Local(v) in ops[o].dstVars[..m] ==> v in srcOp
      {
        var d := ops[o].dstVars[m];
        if d.Local? {
          srcOp := srcOp[d.id := o];
        }
        m := m + 1;
      }
      assert ops[o].dstVars[..m] == ops[o].dstVars;
    }

    method RecordBlock(b: nat)
      requires WellFormed(ops, blocks) && b < |blocks|
      requires forall v :: v in srcOp ==> Defines(ops, blocks, srcOp[v], v)
      modifies this`srcOp
      ensures forall v :: v in srcOp ==> Defines(ops, blocks, srcOp[v], v)
      ensures forall v :: v in old(srcOp) ==> v in srcOp
      ensures forall o, v :: o in blocks[b].ops && Local(v) in ops[o].dstVars ==> v in srcOp
    {
      var k := 0;
      while k < |blocks[b].ops|
        invariant k <= |blocks[b].ops|
        invariant forall v :: v in srcOp ==> Defines(ops, blocks, srcOp[v], v)
        invariant forall v :: v in old(srcOp) ==> v in srcOp
        invariant forall o, v :: o in blocks[b].ops[..k] && o < |ops| && Local(v) in ops[o].dstVars ==> v in srcOp
      {
        assert blocks[b].ops[k] in blocks[b].ops;
        RecordResults(blocks[b].ops[k]);
        assert blocks[b].ops[..k + 1] == blocks[b].ops[..k] + [blocks[b].ops[k]];
        k := k + 1;
      }
      assert blocks[b].ops[..k] == blocks[b].ops;
    }

    /** Records for every local its source operation. */
    method UpdateUses()
      requires WellFormed(ops, blocks)
      modifies this`srcOp
      ensures SourceMap(ops, blocks, srcOp)
    {
      srcOp := map[];
      var b := 0;
      while b < |blocks|
        invariant b <= |blocks|
        invariant forall v :: v in srcOp ==> Defines(ops, blocks, srcOp[v], v)
        invariant forall c, o, v :: 0 <= c < b && o in blocks[c].ops && Local(v) in ops[o].dstVars ==> v in srcOp
      {
        RecordBlock(b);
        b := b + 1;
      }
    }

    /** Marks the source operation of x. */
    method MarkSource(marks: array<bool>, x: Var) returns (changed: bool)
      requires WellFormed(ops, blocks) && SourceMap(ops, blocks, srcOp)
      requires Resolved(ops, blocks, x) && x.Local? && marks.Length == |ops|
      modifies marks
      ensures SourceIn(ops, blocks, Marked(marks[..]), x)
      ensures Marked(old(marks[..])) <= Marked(marks[..])
      ensures changed <==> Marked(old(marks[..])) != Marked(marks[..])
      ensures forall C :: SourceIn(ops, blocks, C, x) && Marked(old(marks[..])) <= C ==> Marked(marks[..]) <= C
    {
      SourceMarked(ops, blocks, srcOp, Marked(marks[..]), x);
      ghost var M := Marked(marks[..]);
      var o := srcOp[x.id];
      changed := !marks[o];
      marks[o] := true;
      assert Marked(marks[..]) == M + {o};
      SourceMarked(ops, blocks, srcOp, Marked(marks[..]), x);
      forall C | SourceIn(ops, blocks, C, x) && M <= C
        ensures Marked(marks[..]) <= C
      {
        SourceMarked(ops, blocks, srcOp, C, x);
      }
    }

    /** Marks the sources of the arguments of a marked operation. */
    method MarkArgs(marks: array<bool>, o: nat) returns (changed: bool)
      requires WellFormed(ops, blocks) && SourceMap(ops, blocks, srcOp)
      requires o < |ops| && marks.Length == |ops|
      requires forall a :: a in ops[o].args ==> Resolved(ops, blocks, a)
      modifies marks
      ensures ArgsIn(ops, blocks, Marked(marks[..]), o)
      ensures Marked(old(marks[..])) <= Marked(marks[..])
      ensures changed <==> Marked(old(marks[..])) != Marked(marks[..])
      ensures forall C :: ArgsIn(ops, blocks, C, o) && Marked(old(marks[..])) <= C ==> Marked(marks[..]) <= C
    {
      changed := false;
      var k := 0;
      ghost var M := Marked(marks[..]);
      while k < |ops[o].args|
        invariant k <= |ops[o].args|
        invariant M <= Marked(marks[..])
        invariant changed <==> M != Marked(marks[..])
        invariant forall j :: 0 <= j < k ==> SourceIn(ops, blocks, Marked(marks[..]), ops[o].args[j])
        invariant forall C :: ArgsIn(ops, blocks, C, o) && M <= C ==> Marked(marks[..]) <= C
      {
        var a := ops[o].args[k];
        if a.Local? {
          var delta := MarkSource(marks, a);
          changed := changed || delta;
        }
        k := k + 1;
      }
    }

    /** Marks the sources of the branch conditions of a block. */
    method MarkConditions(marks: array<bool>, b: nat) returns (changed: bool)
      requires WellFormed(ops, blocks) && SourceMap(ops, blocks, srcOp)
      requires b < |blocks| && marks.Length == |ops|
      modifies marks
      ensures ConditionsIn(ops, blocks, Marked(marks[..]), blocks[b])
      ensures Marked(old(marks[..])) <= Marked(marks[..])
      ensures changed <==> Marked(old(marks[..])) != Marked(marks[..])
      ensures forall C :: ConditionsIn(ops, blocks, C, blocks[b]) && Marked(old(marks[..])) <= C ==> Marked(marks[..]) <= C
    {
      changed := false;
      var k := 0;
      ghost var M := Marked(marks[..]);
      while k < |blocks[b].branches|
        invariant k <= |blocks[b].branches|
        invariant M <= Marked(marks[..])
        invariant changed <==> M != Marked(marks[..])
        invariant forall j :: 0 <= j < k ==> SourceIn(ops, blocks, Marked(marks[..]), blocks[b].branches[j].condVar)
        invariant forall C :: ConditionsIn(ops, blocks, C, blocks[b]) && M <= C ==> Marked(marks[..]) <= C
      {
        var e := blocks[b].branches[k];
        assert e in blocks[b].branches;
        var delta := MarkSource(marks, e.condVar);
        changed := changed || delta;
        k := k + 1;
      }
    }

    /** Marks the effectful operations and the source of the returned value of a block. */
    method MarkRoots(marks: array<bool>, b: nat)
      requires WellFormed(ops, blocks) && SourceMap(ops, blocks, srcOp)
      requires b < |blocks| && marks.Length == |ops|
      modifies marks
      ensures RootsIn(ops, blocks, Marked(marks[..]), blocks[b])
      ensures Marked(old(marks[..])) <= Marked(marks[..])
      ensures forall C :: RootsIn(ops, blocks, C, blocks[b]) && Marked(old(marks[..])) <= C ==> Marked(marks[..]) <= C
    {
      var k := 0;
      ghost var M := Marked(marks[..]);
      var s := blocks[b].ops;
      while k < |s|
        invariant k <= |s| && M <= Marked(marks[..])
        invariant forall j :: 0 <= j < k && s[j] < |ops| && HasSideEffect(ops[s[j]]) ==> s[j] in Marked(marks[..])
        invariant forall o :: o in Marked(marks[..]) ==> o in M || (o in s && o < |ops| && HasSideEffect(ops[o]))
      {
        assert s[k] in s;
        if HasSideEffect(ops[s[k]]) {
          marks[s[k]] := true;
        }
        k := k + 1;
      }
      if blocks[b].isReturn && blocks[b].returnVal.Some? {
        var delta := MarkSource(marks, blocks[b].returnVal.value);
      }
    }

    /** One block's part of a sweep: arguments of marked operations, then branch conditions. */
    method SweepBlock(marks: array<bool>, b: nat) returns (changed: bool)
      requires WellFormed(ops, blocks) && SourceMap(ops, blocks, srcOp)
      requires b < |blocks| && marks.Length == |ops|
      modifies marks
      ensures Marked(old(marks[..])) <= Marked(marks[..])
      ensures changed <==> Marked(old(marks[..])) != Marked(marks[..])
      ensures !changed ==> ConditionsIn(ops, blocks, Marked(marks[..]), blocks[b])
      ensures !changed ==> BodyClosed(ops, blocks, Marked(marks[..]), b)
      ensures forall C :: Closed(ops, blocks, C) && Marked(old(marks[..])) <= C ==> Marked(marks[..]) <= C
    {
      changed := false;
      var k := 0;
      ghost var M := Marked(marks[..]);
      var s := blocks[b].ops;
      while k < |s|
        invariant k <= |s| && M <= Marked(marks[..])
        invariant changed <==> M != Marked(marks[..])
        invariant !changed ==> forall j :: 0 <= j < k && s[j] in M ==> ArgsIn(ops, blocks, M, s[j])
        invariant forall C :: Closed(ops, blocks, C) && M <= C ==> Marked(marks[..]) <= C
      {
        var o := s[k];
        assert o in s;
        if marks[o] {
          var delta := MarkArgs(marks, o);
          changed := changed || delta;
        }
        k := k + 1;
      }
      var delta := MarkConditions(marks, b);
      changed := changed || delta;
    }

    method Sweep(marks: array<bool>) returns (haveDelta: bool)
      requires WellFormed(ops, blocks) && SourceMap(ops, blocks, srcOp) && marks.Length == |ops|
      modifies marks
      ensures Marked(old(marks[..])) <= Marked(marks[..])
      ensures haveDelta <==> Marked(old(marks[..])) != Marked(marks[..])
      ensures !haveDelta ==> forall b :: 0 <= b < |blocks| ==>
          ConditionsIn(ops, blocks, Marked(marks[..]), blocks[b]) && BodyClosed(ops, blocks, Marked(marks[..]), b)
      ensures forall C :: Closed(ops, blocks, C) && Marked(old(marks[..])) <= C ==> Marked(marks[..]) <= C
    {
      haveDelta := false;
      var b := 0;
      ghost var M := Marked(marks[..]);
      while b < |blocks|
        invariant b <= |blocks| && M <= Marked(marks[..])
        invariant haveDelta <==> M != Marked(marks[..])
        invariant !haveDelta ==> forall c :: 0 <= c < b ==>
            ConditionsIn(ops, blocks, M, blocks[c]) && BodyClosed(ops, blocks, M, c)
        invariant forall C :: Closed(ops, blocks, C) && M <= C ==> Marked(marks[..]) <= C
      {
        var delta := SweepBlock(marks, b);
        haveDelta := haveDelta || delta;
        b := b + 1;
      }
    }

    /** The mark phase computes exactly the needed operations, whatever the order of the blocks. */
    method MarkNeeded(marks: array<bool>)
      requires WellFormed(ops, blocks) && SourceMap(ops, blocks, srcOp) && marks.Length == |ops|
      requires Marked(marks[..]) == {}
      modifies marks
      ensures Needed(ops, blocks, Marked(marks[..]))
    {
      var b := 0;
      while b < |blocks|
        invariant b <= |blocks|
        invariant forall c :: 0 <= c < b ==> RootsIn(ops, blocks, Marked(marks[..]), blocks[c])
        invariant forall C :: Closed(ops, blocks, C) ==> Marked(marks[..]) <= C
      {
        MarkRoots(marks, b);
        b := b + 1;
      }
      var haveDelta := true;
      while haveDelta
        invariant forall c :: 0 <= c < |blocks| ==> RootsIn(ops, blocks, Marked(marks[..]), blocks[c])
        invariant forall C :: Closed(ops, blocks, C) ==> Marked(marks[..]) <= C
        invariant !haveDelta ==> Closed(ops, blocks, Marked(marks[..]))
        decreases Unmarked(marks[..]), haveDelta
      {
        ghost var before := marks[..];
        haveDelta := Sweep(marks);
        MoreMarked(before, marks[..]);
      }
    }

    /** Keeps the needed operations of every block, in order, and changes nothing else. */
    method RemoveUnusedOps() returns (ghost K: set<nat>)
      requires WellFormed(ops, blocks) && SourceMap(ops, blocks, srcOp)
      modifies this`blocks
      ensures Needed(ops, old(blocks), K) && Pruned(old(blocks), blocks, K)
    {
      var marks := new bool[|ops|](i => false);
      MarkNeeded(marks);
      K := Marked(marks[..]);
      var b := 0;
      ghost var B := blocks;
      while b < |blocks|
        invariant b <= |blocks| == |B| && Marked(marks[..]) == K
        invariant forall c :: 0 <= c < b ==> blocks[c] == B[c].(ops := Keep(B[c].ops, K))
        invariant forall c :: b <= c < |B| ==> blocks[c] == B[c]
      {
        var newOps := KeepMarked(blocks[b].ops, marks);
        blocks := blocks[b := blocks[b].(ops := newOps)];
        b := b + 1;
      }
    }

    method KeepMarked(s: seq<nat>, marks: array<bool>) returns (newOps: seq<nat>)
      requires forall o :: o in s ==> o < marks.Length
      ensures newOps == Keep(s, Marked(marks[..]))
    {
      newOps := [];
      var k := 0;
      ghost var K := Marked(marks[..]);
      assert s[0..] == s;
      while k < |s|
        invariant k <= |s| && newOps + Keep(s[k..], K) == Keep(s, K)
      {
        assert s[k] in s;
        assert marks[s[k]] <==> s[k] in K;
        KeepFrom(s, k, K);
        ghost var before, rest := newOps, Keep(s[k + 1..], K);
        if marks[s[k]] {
          newOps := newOps + [s[k]];
          assert newOps + rest == before + ([s[k]] + rest);
        } else {
          assert newOps + rest == before + ([] + rest);
        }
        k := k + 1;
      }
      assert newOps + [] == newOps;
    }

    /** The pass as run on each function: source operations are recorded before and after. */
    method Run() returns (ghost K: set<nat>)
      requires WellFormed(ops, blocks)
      modifies this
      ensures Needed(ops, old(blocks), K) && Pruned(old(blocks), blocks, K)
      ensures WellFormed(ops, blocks) && SourceMap(ops, blocks, srcOp)
    {
      UpdateUses();
      ghost var B := blocks;
      K := RemoveUnusedOps();
      PrunedWellFormed(ops, B, blocks, K);
      UpdateUses();
    }
  }

  lemma KeepFrom(s: seq<nat>, k: nat, K: set<nat>)
    requires k < |s|
    ensures Keep(s[k..], K) == (if s[k] in K then [s[k]] else []) + Keep(s[k + 1..], K)
  {
    assert s[k..][0] == s[k] && s[k..][1..] == s[k + 1..];
  }

  lemma PrunedPlaced(before: seq<Block>, after: seq<Block>, K: set<nat>, o: nat)
    requires Pruned(before, after, K)
    ensures Placed(after, o) <==> Placed(before, o) && o in K
  {
    if Placed(before, o) && o in K {
      var b :| 0 <= b < |before| && o in before[b].ops;
      assert o in after[b].ops;
    }
    if Placed(after, o) {
      var b :| 0 <= b < |after| && o in after[b].ops;
      assert o in before[b].ops;
    }
  }

  lemma StillResolved(ops: seq<Operation>, before: seq<Block>, after: seq<Block>, K: set<nat>, x: Var)
    requires Pruned(before, after, K) && Resolved(ops, before, x) && SourceIn(ops, before, K, x)
    ensures Resolved(ops, after, x)
  {
    if x.Local? {
      var o :| Defines(ops, before, o, x.id);
      PrunedPlaced(before, after, K, o);
      assert Defines(ops, after, o, x.id);
    }
  }

  /** Pruning leaves a function whose remaining operands, conditions and return value are all
      still defined. */
  lemma PrunedWellFormed(ops: seq<Operation>, before: seq<Block>, after: seq<Block>, K: set<nat>)
    requires WellFormed(ops, before) && Closed(ops, before, K) && Pruned(before, after, K)
    ensures WellFormed(ops, after)
  {
    forall o, p, v | Defines(ops, after, o, v) && Defines(ops, after, p, v)
      ensures o == p
    {
      PrunedPlaced(before, after, K, o);
      PrunedPlaced(before, after, K, p);
      assert Defines(ops, before, o, v) && Defines(ops, before, p, v);
    }
    forall b, o, a | 0 <= b < |after| && o in after[b].ops && a in ops[o].args
      ensures Resolved(ops, after, a)
    {
      assert o in before[b].ops && o in K;
      assert ArgsIn(ops, before, K, o);
      StillResolved(ops, before, after, K, a);
    }
    forall b | 0 <= b < |after| && after[b].isReturn && after[b].returnVal.Some?
      ensures after[b].returnVal.value.Local? && Resolved(ops, after, after[b].returnVal.value)
    {
      assert RootsIn(ops, before, K, before[b]);
      StillResolved(ops, before, after, K, after[b].returnVal.value);
    }
    forall b, e | 0 <= b < |after| && e in after[b].branches
      ensures e.condVar.Local? && Resolved(ops, after, e.condVar)
    {
      assert e in before[b].branches && ConditionsIn(ops, before, K, before[b]);
      StillResolved(ops, before, after, K, e.condVar);
    }
  }

  lemma SourceBack(ops: seq<Operation>, before: seq<Block>, after: seq<Block>, K: set<nat>, L: set<nat>, x: Var)
    requires Pruned(before, after, K) && SourceIn(ops, before, K, x) && SourceIn(ops, after, L, x)
    ensures SourceIn(ops, before, K * L, x)
  {
    if x.Local? {
      forall o | Defines(ops, before, o, x.id)
        ensures o in K * L
      {
        PrunedPlaced(before, after, K, o);
        assert Defines(ops, after, o, x.id);
      }
    }
  }

  /** What is needed after pruning is everything that was kept: a second run removes nothing. */
  lemma NothingLeftToRemove(ops: seq<Operation>, before: seq<Block>, after: seq<Block>, K: set<nat>, L: set<nat>)
    requires WellFormed(ops, before) && Needed(ops, before, K) && Pruned(before, after, K)
    requires WellFormed(ops, after) && Closed(ops, after, L)
    ensures K <= L
    ensures Pruned(after, after, L)
  {
    var C := K * L;
    forall b | 0 <= b < |before|
      ensures RootsIn(ops, before, C, before[b]) && ConditionsIn(ops, before, C, before[b])
      ensures forall o :: o in before[b].ops && o in C ==> ArgsIn(ops, before, C, o)
    {
      assert RootsIn(ops, before, K, before[b]) && RootsIn(ops, after, L, after[b]);
      assert ConditionsIn(ops, before, K, before[b]) && ConditionsIn(ops, after, L, after[b]);
      forall x | (before[b].isReturn && before[b].returnVal == Some(x)) || (exists e :: e in before[b].branches && e.condVar == x)
        ensures SourceIn(ops, before, C, x)
      {
        SourceBack(ops, before, after, K, L, x);
      }
      forall o, a | o in before[b].ops && o in C && a in ops[o].args
        ensures SourceIn(ops, before, C, a)
      {
        assert o in after[b].ops && ArgsIn(ops, before, K, o) && ArgsIn(ops, after, L, o);
        SourceBack(ops, before, after, K, L, a);
      }
    }
    assert Closed(ops, before, C);
    forall b | 0 <= b < |after|
      ensures after[b] == after[b].(ops := Keep(after[b].ops, L))
    {
      assert forall o :: o in after[b].ops ==> o in before[b].ops && o in K;
      KeepAll(after[b].ops, L);
    }
  }

  lemma {:induction false} KeepAll(s: seq<nat>, K: set<nat>)
    requires forall o :: o in s ==> o in K
    ensures Keep(s, K) == s
  {
    if s != [] {
      assert s[0] in s && forall o :: o in s[1..] ==> o in s;
      KeepAll(s[1..], K);
    }
  }
}
