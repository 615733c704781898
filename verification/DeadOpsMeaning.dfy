/** Dead-operation removal preserves the meaning of a function. */
module DeadOpsMeaning {
  import opened DeadOps
  import opened Options

  /** What an operation may do besides computing its results. */
  datatype Reach = Computes | WritesMemory | Observable

  /** The calls that only look something up in a packet. */
  predicate IsAccessor(name: string) {
    || name == "WritablePacket::ip_header() const"
    || name == "Packet::ip_header() const"
    || name == "Packet::transport_header() const"
    || name == "Packet::uniqueify()"
  }

  /** The instruction set: stores change the memory; calls, changes of a packet's extent and the end
      of the program are seen from outside, and may change the memory as well. */
  function ReachOf(t: OpType): Reach {
    match t
    case ALLOCA | STORE | STRUCT_SET | PKT_HDR_STORE => WritesMemory
    case PKT_ENCAP | PKT_DECAP | UNREACHABLE => Observable
    case FUNC_CALL(None) => Observable
    case FUNC_CALL(Some(name)) => if IsAccessor(name) then Computes else Observable
    case ARITH | BITCAST | GEP | SELECT | PHINODE => Computes
    case LOAD | STRUCT_GET | PKT_HDR_LOAD => Computes
  }

  /** An interpretation of the operations. `result` gives the k-th result of an operation from its
      argument values, the memory, the block control came from and what has been observed so far;
      `write` is the memory after an operation that changes it. */
  datatype Machine<!Value, !Memory> = Machine(
    result: (nat, seq<Value>, Memory, nat, seq<Effect<Value>>, nat) -> Value,
    write: (nat, seq<Value>, Memory, seq<Effect<Value>>) -> Memory,
    external: nat -> Value,
    undefined: Value,
    isTrue: Value -> bool)

  /** An observed operation with the values of its arguments. */
  datatype Effect<Value> = Effect(op: nat, args: seq<Value>)

  datatype State<Value, Memory> = State(env: map<nat, Value>, memory: Memory, trace: seq<Effect<Value>>)

  /** Where control stands between blocks. */
  datatype Control<Value> = Running(block: nat, from: nat) | Returned(value: Option<Value>) | Failed

  function Eval<V, M>(m: Machine<V, M>, env: map<nat, V>, x: Var): V {
    match x
    case External(id) => m.external(id)
    case Local(id) => if id in env then env[id] else m.undefined
  }

  function EvalAll<V, M>(m: Machine<V, M>, env: map<nat, V>, xs: seq<Var>): (r: seq<V>)
    ensures |r| == |xs| && forall k :: 0 <= k < |xs| ==> r[k] == Eval(m, env, xs[k])
  {
    if xs == [] then [] else [Eval(m, env, xs[0])] + EvalAll(m, env, xs[1..])
  }

  /** The first n results of an operation. */
  function Results<V, M>(m: Machine<V, M>, o: nat, args: seq<V>, memory: M, from: nat, trace: seq<Effect<V>>, n: nat): (r: seq<V>)
    ensures |r| == n
  {
    if n == 0 then [] else Results(m, o, args, memory, from, trace, n - 1) + [m.result(o, args, memory, from, trace, n - 1)]
  }

  /** Binds results to destinations, in order. */
  function Bind<V>(env: map<nat, V>, dsts: seq<Var>, results: seq<V>): map<nat, V>
    requires |results| == |dsts|
    decreases |dsts|
  {
    if dsts == [] then env
    else Bind(if dsts[0].Local? then env[dsts[0].id := results[0]] else env, dsts[1..], results[1..])
  }

  function ExecOp<V, M>(m: Machine<V, M>, ops: seq<Operation>, o: nat, from: nat, s: State<V, M>): State<V, M>
    requires o < |ops|
  {
    var args := EvalAll(m, s.env, ops[o].args);
    var results := Results(m, o, args, s.memory, from, s.trace, |ops[o].dstVars|);
    var env := Bind(s.env, ops[o].dstVars, results);
    match ReachOf(ops[o].opType)
    case Computes => State(env, s.memory, s.trace)
    case WritesMemory => State(env, m.write(o, args, s.memory, s.trace), s.trace)
    case Observable => State(env, m.write(o, args, s.memory, s.trace), s.trace + [Effect(o, args)])
  }

  function ExecOps<V, M>(m: Machine<V, M>, ops: seq<Operation>, body: seq<nat>, from: nat, s: State<V, M>): State<V, M>
    requires forall o :: o in body ==> o < |ops|
  {
    if body == [] then s
    else
      assert body[0] in body && forall o :: o in body[1..] ==> o in body;
      ExecOps(m, ops, body[1..], from, ExecOp(m, ops, body[0], from, s))
  }

  /** The first branch whose condition holds, else the default successor. */
  function NextBlock<V, M>(m: Machine<V, M>, env: map<nat, V>, branches: seq<Branch>, defaultNext: nat): nat {
    if branches == [] then defaultNext
    else if m.isTrue(Eval(m, env, branches[0].condVar)) then branches[0].next
    else NextBlock(m, env, branches[1..], defaultNext)
  }

  function Leave<V, M>(m: Machine<V, M>, env: map<nat, V>, block: Block, b: nat): Control<V> {
    if block.isReturn then Returned(if block.returnVal.Some? then Some(Eval(m, env, block.returnVal.value)) else None)
    else if block.isErr then Failed
    else Running(NextBlock(m, env, block.branches, block.defaultNext), b)
  }

  /** n blocks of a run. A jump out of the function fails. */
  function Run<V, M>(m: Machine<V, M>, ops: seq<Operation>, blocks: seq<Block>, n: nat, c: Control<V>, s: State<V, M>)
    : (Control<V>, State<V, M>)
    requires forall b, o :: 0 <= b < |blocks| && o in blocks[b].ops ==> o < |ops|
    decreases n
  {
    if n == 0 || !c.Running? then (c, s)
    else if c.block >= |blocks| then (Failed, s)
    else
      var block := blocks[c.block];
      var t := ExecOps(m, ops, block.ops, c.from, s);
      Run(m, ops, blocks, n - 1, Leave(m, t.env, block, c.block), t)
  }

  /** Environments that agree on every local whose definition is kept. */
  ghost predicate Agree<V, M>(m: Machine<V, M>, ops: seq<Operation>, blocks: seq<Block>, K: set<nat>, e: map<nat, V>, f: map<nat, V>) {
    forall v :: SourceIn(ops, blocks, K, Local(v)) && Resolved(ops, blocks, Local(v)) ==> Eval(m, e, Local(v)) == Eval(m, f, Local(v))
  }

  ghost predicate Similar<V, M>(m: Machine<V, M>, ops: seq<Operation>, blocks: seq<Block>, K: set<nat>, s: State<V, M>, t: State<V, M>) {
    s.memory == t.memory && s.trace == t.trace && Agree(m, ops, blocks, K, s.env, t.env)
  }

  /** The pass calls exactly those operations harmless that can only compute. */
  lemma HarmlessIff(op: Operation)
    ensures !HasSideEffect(op) <==> ReachOf(op.opType) == Computes
  {
    if op.opType.FUNC_CALL? && op.opType.demangledName.Some? {
      var name := op.opType.demangledName.value;
      var names := ["WritablePacket::ip_header() const", "Packet::ip_header() const",
                    "Packet::transport_header() const", "Packet::uniqueify()"];
      assert name in names <==> IsAccessor(name) by {
        assert names[0] in names && names[1] in names && names[2] in names && names[3] in names;
      }
    }
  }

  /** On every machine a harmless operation leaves memory and trace alone. */
  lemma HarmlessKeeps<V, M>(m: Machine<V, M>, ops: seq<Operation>, o: nat, from: nat, s: State<V, M>)
    requires o < |ops| && !HasSideEffect(ops[o])
    ensures ExecOp(m, ops, o, from, s).memory == s.memory && ExecOp(m, ops, o, from, s).trace == s.trace
  {
    HarmlessIff(ops[o]);
  }

  /** The memory of this machine counts the operations that may change it. */
  function Counter(): Machine<nat, nat> {
    Machine((o, args, memory, from, trace, k) => 0, (o, args, memory, trace) => memory + 1, id => 0, 0, v => v != 0)
  }

  /** Any other operation shows on some machine, wherever it is executed. */
  lemma EffectShows(ops: seq<Operation>, o: nat, from: nat, s: State<nat, nat>)
    requires o < |ops|
    ensures ExecOp(Counter(), ops, o, from, s).memory != s.memory <==> HasSideEffect(ops[o])
  {
    HarmlessIff(ops[o]);
  }

  lemma {:induction false} BindOther<V>(env: map<nat, V>, dsts: seq<Var>, results: seq<V>, v: nat)
    requires |results| == |dsts| && Local(v) !in dsts
    ensures var r := Bind(env, dsts, results); (v in r <==> v in env) && (v in env ==> r[v] == env[v])
    decreases |dsts|
  {
    if dsts != [] {
      assert dsts[0] in dsts;
      BindOther(if dsts[0].Local? then env[dsts[0].id := results[0]] else env, dsts[1..], results[1..], v);
    }
  }

  /** After binding, a local's value depends on the old environment only if it was not bound. */
  lemma {:induction false} BindSame<V, M>(m: Machine<V, M>, e: map<nat, V>, f: map<nat, V>, dsts: seq<Var>, results: seq<V>, v: nat)
    requires |results| == |dsts|
    requires Eval(m, e, Local(v)) == Eval(m, f, Local(v))
    ensures Eval(m, Bind(e, dsts, results), Local(v)) == Eval(m, Bind(f, dsts, results), Local(v))
    decreases |dsts|
  {
    if dsts != [] {
      var e' := if dsts[0].Local? then e[dsts[0].id := results[0]] else e;
      var f' := if dsts[0].Local? then f[dsts[0].id := results[0]] else f;
      BindSame(m, e', f', dsts[1..], results[1..], v);
    }
  }

  lemma ArgsAgree<V, M>(m: Machine<V, M>, ops: seq<Operation>, blocks: seq<Block>, K: set<nat>, e: map<nat, V>, f: map<nat, V>, xs: seq<Var>)
    requires Agree(m, ops, blocks, K, e, f)
    requires forall x :: x in xs ==> Resolved(ops, blocks, x) && SourceIn(ops, blocks, K, x)
    ensures EvalAll(m, e, xs) == EvalAll(m, f, xs)
  {
    forall k | 0 <= k < |xs|
      ensures Eval(m, e, xs[k]) == Eval(m, f, xs[k])
    {
      assert xs[k] in xs;
      assert xs[k].Local? ==> Local(xs[k].id) == xs[k];
    }
  }

  /** Both runs execute a kept operation alike. */
  lemma KeptStep<V, M>(m: Machine<V, M>, ops: seq<Operation>, blocks: seq<Block>, K: set<nat>, o: nat, from: nat, s: State<V, M>, t: State<V, M>)
    requires WellFormed(ops, blocks) && Closed(ops, blocks, K) && Placed(blocks, o) && o < |ops| && o in K
    requires Similar(m, ops, blocks, K, s, t)
    ensures Similar(m, ops, blocks, K, ExecOp(m, ops, o, from, s), ExecOp(m, ops, o, from, t))
  {
    var b :| 0 <= b < |blocks| && o in blocks[b].ops;
    ArgsAgree(m, ops, blocks, K, s.env, t.env, ops[o].args);
    var args := EvalAll(m, s.env, ops[o].args);
    var dsts := ops[o].dstVars;
    var results := Results(m, o, args, s.memory, from, s.trace, |dsts|);
    forall v: nat | SourceIn(ops, blocks, K, Local(v)) && Resolved(ops, blocks, Local(v))
      ensures Eval(m, Bind(s.env, dsts, results), Local(v)) == Eval(m, Bind(t.env, dsts, results), Local(v))
    {
      BindSame(m, s.env, t.env, dsts, results, v);
    }
  }

  /** Executing a dropped operation in one run only is not noticed. */
  lemma DroppedStep<V, M>(m: Machine<V, M>, ops: seq<Operation>, blocks: seq<Block>, K: set<nat>, o: nat, from: nat, s: State<V, M>, t: State<V, M>)
    requires WellFormed(ops, blocks) && Closed(ops, blocks, K) && Placed(blocks, o) && o < |ops| && o !in K
    requires Similar(m, ops, blocks, K, s, t)
    ensures Similar(m, ops, blocks, K, ExecOp(m, ops, o, from, s), t)
  {
    var b :| 0 <= b < |blocks| && o in blocks[b].ops;
    HarmlessKeeps(m, ops, o, from, s);
    var args := EvalAll(m, s.env, ops[o].args);
    var dsts := ops[o].dstVars;
    var results := Results(m, o, args, s.memory, from, s.trace, |dsts|);
    forall v: nat | SourceIn(ops, blocks, K, Local(v)) && Resolved(ops, blocks, Local(v))
      ensures Eval(m, Bind(s.env, dsts, results), Local(v)) == Eval(m, t.env, Local(v))
    {
      assert Local(v) in ops[o].dstVars ==> Defines(ops, blocks, o, v);
      BindOther(s.env, dsts, results, v);
    }
  }

  lemma {:induction false} BodySimilar<V, M>(m: Machine<V, M>, ops: seq<Operation>, blocks: seq<Block>, K: set<nat>, body: seq<nat>, from: nat, s: State<V, M>, t: State<V, M>)
    requires WellFormed(ops, blocks) && Closed(ops, blocks, K)
    requires forall o :: o in body ==> o < |ops| && Placed(blocks, o)
    requires Similar(m, ops, blocks, K, s, t)
    ensures Similar(m, ops, blocks, K, ExecOps(m, ops, body, from, s), ExecOps(m, ops, Keep(body, K), from, t))
  {
    if body != [] {
      var o := body[0];
      assert forall p :: p in body[1..] ==> p in body;
      if o in K {
        KeptStep(m, ops, blocks, K, o, from, s, t);
        BodySimilar(m, ops, blocks, K, body[1..], from, ExecOp(m, ops, o, from, s), ExecOp(m, ops, o, from, t));
        assert Keep(body, K)[0] == o && Keep(body, K)[1..] == Keep(body[1..], K);
      } else {
        DroppedStep(m, ops, blocks, K, o, from, s, t);
        BodySimilar(m, ops, blocks, K, body[1..], from, ExecOp(m, ops, o, from, s), t);
      }
    }
  }

  lemma {:induction false} SameBranch<V, M>(m: Machine<V, M>, ops: seq<Operation>, blocks: seq<Block>, K: set<nat>, e: map<nat, V>, f: map<nat, V>, branches: seq<Branch>, d: nat)
    requires Agree(m, ops, blocks, K, e, f)
    requires forall br :: br in branches ==> Resolved(ops, blocks, br.condVar) && SourceIn(ops, blocks, K, br.condVar)
    ensures NextBlock(m, e, branches, d) == NextBlock(m, f, branches, d)
  {
    if branches != [] {
      assert branches[0] in branches;
      var x := branches[0].condVar;
      assert x.Local? ==> Local(x.id) == x;
      assert Eval(m, e, x) == Eval(m, f, x);
      SameBranch(m, ops, blocks, K, e, f, branches[1..], d);
    }
  }

  lemma SameExit<V, M>(m: Machine<V, M>, ops: seq<Operation>, blocks: seq<Block>, K: set<nat>, e: map<nat, V>, f: map<nat, V>, b: nat)
    requires WellFormed(ops, blocks) && Closed(ops, blocks, K) && b < |blocks|
    requires Agree(m, ops, blocks, K, e, f)
    ensures Leave(m, e, blocks[b], b) == Leave(m, f, blocks[b], b)
  {
    var block := blocks[b];
    assert RootsIn(ops, blocks, K, block) && ConditionsIn(ops, blocks, K, block);
    if block.isReturn {
      if block.returnVal.Some? {
        var x := block.returnVal.value;
        assert Local(x.id) == x;
      }
    } else if !block.isErr {
      SameBranch(m, ops, blocks, K, e, f, block.branches, block.defaultNext);
    }
  }

  /** From every initial state and for every number of blocks executed: the pruned function takes
      the same path, performs the same effects with the same arguments, leaves the same memory
      and returns the same value. */
  lemma {:induction false} MeaningPreserved<V, M>(m: Machine<V, M>, ops: seq<Operation>, blocks: seq<Block>, after: seq<Block>, K: set<nat>, n: nat, c: Control<V>, s: State<V, M>, t: State<V, M>)
    requires WellFormed(ops, blocks) && Needed(ops, blocks, K) && Pruned(blocks, after, K)
    requires Similar(m, ops, blocks, K, s, t)
    ensures forall b, o :: 0 <= b < |after| && o in after[b].ops ==> o < |ops|
    ensures var (c1, s1) := Run(m, ops, blocks, n, c, s);
            var (c2, s2) := Run(m, ops, after, n, c, t);
            c1 == c2 && s1.memory == s2.memory && s1.trace == s2.trace
    decreases n
  {
    if n > 0 && c.Running? && c.block < |blocks| {
      var block := blocks[c.block];
      assert forall o :: o in block.ops ==> o < |ops| && Placed(blocks, o);
      BodySimilar(m, ops, blocks, K, block.ops, c.from, s, t);
      var s1 := ExecOps(m, ops, block.ops, c.from, s);
      var t1 := ExecOps(m, ops, Keep(block.ops, K), c.from, t);
      SameExit(m, ops, blocks, K, s1.env, t1.env, c.block);
      MeaningPreserved(m, ops, blocks, after, K, n - 1, Leave(m, s1.env, block, c.block), s1, t1);
    }
  }

  /** The same, from one common initial state. */
  lemma RemovalPreservesRuns<V, M>(m: Machine<V, M>, ops: seq<Operation>, blocks: seq<Block>, after: seq<Block>, K: set<nat>, n: nat, entry: nat, s: State<V, M>)
    requires WellFormed(ops, blocks) && Needed(ops, blocks, K) && Pruned(blocks, after, K) && WellFormed(ops, after)
    ensures var (c1, s1) := Run(m, ops, blocks, n, Running(entry, entry), s);
            var (c2, s2) := Run(m, ops, after, n, Running(entry, entry), s);
            c1 == c2 && s1.memory == s2.memory && s1.trace == s2.trace
  {
    MeaningPreserved(m, ops, blocks, after, K, n, Running(entry, entry), s, s);
  }
}
