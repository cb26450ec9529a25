/** Regions of blocks in SSA form: values, uses, paths, dominance, and execution. */
module ControlFlow {

  /** An argument of a block, or a result of an operation in it (the terminator is the last). */
  datatype Value = Arg(block: nat, index: nat) | Res(block: nat, op: nat, index: nat)

  datatype Edge = Edge(target: nat, args: seq<Value>)

  /** `isBranch`: the operands it passes to its successors can be extended. */
  datatype Op = Op(kind: int, operands: seq<Value>, results: nat, isBranch: bool, edges: seq<Edge>)

  datatype Block = Block(numArgs: nat, ops: seq<Op>, term: Op)

  // ---------------------------------------------------------------------------------------------
  // Uses
  // ---------------------------------------------------------------------------------------------

  predicate OpUses(op: Op, v: Value) {
    v in op.operands || exists e: nat :: e < |op.edges| && v in op.edges[e].args
  }

  predicate BlockUses(block: Block, v: Value) {
    OpUses(block.term, v) || exists k: nat :: k < |block.ops| && OpUses(block.ops[k], v)
  }

  /** All uses of the value are in the block that defines it. */
  ghost predicate IsLocal(f: seq<Block>, v: Value) {
    forall b: nat :: b < |f| && BlockUses(f[b], v) ==> b == v.block
  }

  /** Every operand of every operation is defined in the block that uses it. */
  ghost predicate IsMaximized(f: seq<Block>) {
    forall b: nat, v: Value :: b < |f| && BlockUses(f[b], v) ==> v.block == b
  }

  predicate Exists(f: seq<Block>, v: Value) {
    v.block < |f| &&
    match v
    case Arg(b, i) => i < f[b].numArgs
    case Res(b, k, i) => if k < |f[b].ops| then i < f[b].ops[k].results else k == |f[b].ops| && i < f[b].term.results
  }

  /** Operands exist, and branches pass as many values to a block as it has arguments. */
  ghost predicate IsWellFormed(f: seq<Block>) {
    && (forall b: nat, v: Value :: b < |f| && BlockUses(f[b], v) ==> Exists(f, v))
    && (forall b: nat, e: nat :: b < |f| && e < |f[b].term.edges| ==> EdgeOk(f, f[b].term.edges[e]))
  }

  ghost predicate EdgeOk(f: seq<Block>, edge: Edge) {
    edge.target < |f| && |edge.args| == f[edge.target].numArgs
  }

  // ---------------------------------------------------------------------------------------------
  // Paths and dominance
  // ---------------------------------------------------------------------------------------------

  ghost predicate HasEdge(f: seq<Block>, p: nat, b: nat) {
    p < |f| && exists e: nat :: e < |f[p].term.edges| && f[p].term.edges[e].target == b
  }

  ghost predicate IsPath(f: seq<Block>, path: seq<nat>) {
    path != [] && forall i: nat :: i + 1 < |path| ==> HasEdge(f, path[i], path[i + 1])
  }

  /** Every path from the entry block to `b` goes through `d`. */
  ghost predicate Dominates(f: seq<Block>, d: nat, b: nat) {
    forall path :: IsPath(f, path) && path[0] == 0 && path[|path| - 1] == b ==> d in path
  }

  ghost predicate RespectsDominance(f: seq<Block>) {
    forall b: nat, v: Value :: b < |f| && BlockUses(f[b], v) ==> Dominates(f, v.block, b)
  }

  // ---------------------------------------------------------------------------------------------
  // Execution
  // ---------------------------------------------------------------------------------------------

  /** What operations compute from their inputs and the memory, and which successor a terminator branches to. */
  datatype Machine = Machine(eval: (int, seq<int>, int) -> (seq<int>, int), choose: (int, seq<int>, int) -> nat)

  /** An operation is executed on its inputs. */
  datatype Event = Event(block: nat, op: nat, inputs: seq<int>)

  datatype State = State(block: nat, env: map<Value, int>, mem: int, log: seq<Event>, halted: bool)

  function Lookup(env: map<Value, int>, v: Value): int {
    if v in env then env[v] else 0
  }

  function Values(env: map<Value, int>, vs: seq<Value>): (r: seq<int>)
    ensures |r| == |vs|
  {
    seq(|vs|, i requires 0 <= i < |vs| => Lookup(env, vs[i]))
  }

  function SetArgs(env: map<Value, int>, b: nat, vals: seq<int>): map<Value, int> {
    if vals == [] then env else
      var n := |vals| - 1;
      SetArgs(env, b, vals[..n])[Arg(b, n) := vals[n]]
  }

  function SetResults(env: map<Value, int>, b: nat, k: nat, vals: seq<int>): map<Value, int> {
    if vals == [] then env else
      var n := |vals| - 1;
      SetResults(env, b, k, vals[..n])[Res(b, k, n) := vals[n]]
  }

  function ExecOp(m: Machine, b: nat, k: nat, op: Op, s: State): State {
    var inputs := Values(s.env, op.operands);
    var r := m.eval(op.kind, inputs, s.mem);
    s.(env := SetResults(s.env, b, k, r.0), mem := r.1, log := s.log + [Event(b, k, inputs)])
  }

  /** Executes the first `n` operations of block `b`. */
  function ExecOps(m: Machine, b: nat, ops: seq<Op>, n: nat, s: State): State
    requires n <= |ops|
  {
    if n == 0 then s else ExecOp(m, b, n - 1, ops[n - 1], ExecOps(m, b, ops, n - 1, s))
  }

  /** Executes the terminator: it passes values to the arguments of the successor, or stops if there is none. */
  function ExecTerm(m: Machine, b: nat, k: nat, term: Op, s: State): State {
    var s1 := ExecOp(m, b, k, term, s);
    if term.edges == [] then s1.(halted := true) else
      var edge := term.edges[m.choose(term.kind, Values(s.env, term.operands), s.mem) % |term.edges|];
      s1.(block := edge.target, env := SetArgs(s1.env, edge.target, Values(s1.env, edge.args)))
  }

  function ExecBlock(f: seq<Block>, m: Machine, s: State): State {
    if s.halted || s.block >= |f| then s else
      var block := f[s.block];
      ExecTerm(m, s.block, |block.ops|, block.term, ExecOps(m, s.block, block.ops, |block.ops|, s))
  }

  function Start(inputs: seq<int>, mem: int): State {
    State(0, SetArgs(map[], 0, inputs), mem, [], false)
  }

  function Iterate(step: State -> State, s: State, n: nat): State {
    if n == 0 then s else step(Iterate(step, s, n - 1))
  }

  /** Executes `n` blocks. */
  function Run(f: seq<Block>, m: Machine, s: State, n: nat): State {
    Iterate(t => ExecBlock(f, m, t), s, n)
  }

  /** What each step keeps holds after any number of them. */
  lemma {:induction false} IterateKeeps(step: State -> State, step': State -> State, related: (State, State) -> bool,
                                        s: State, n: nat)
    requires related(s, s) && forall t, t' :: related(t, t') ==> related(step(t), step'(t'))
    ensures related(Iterate(step, s, n), Iterate(step', s, n))
  {
    if n > 0 {
      IterateKeeps(step, step', related, s, n - 1);
    }
  }

  /** What can be observed: where the execution is, the memory, and all operations executed so far with their inputs. */
  datatype Observation = Observation(block: nat, mem: int, log: seq<Event>, halted: bool)

  function Observe(s: State): Observation {
    Observation(s.block, s.mem, s.log, s.halted)
  }

  ghost predicate SameRun(f: seq<Block>, g: seq<Block>, m: Machine, inputs: seq<int>, mem: int, n: nat) {
    Observe(Run(f, m, Start(inputs, mem), n)) == Observe(Run(g, m, Start(inputs, mem), n))
  }

  /** All executions are the same, step for step. */
  ghost predicate SameRuns(f: seq<Block>, g: seq<Block>) {
    forall m, inputs, mem, n: nat :: SameRun(f, g, m, inputs, mem, n)
  }

  lemma SameRunsTransitive(f: seq<Block>, g: seq<Block>, h: seq<Block>)
    requires SameRuns(f, g) && SameRuns(g, h)
    ensures SameRuns(f, h)
  {
    forall m, inputs, mem, n: nat ensures SameRun(f, h, m, inputs, mem, n) {
      assert SameRun(f, g, m, inputs, mem, n) && SameRun(g, h, m, inputs, mem, n);
    }
  }

  lemma {:induction false} LookupArgs(env: map<Value, int>, b: nat, vals: seq<int>, v: Value)
    ensures Lookup(SetArgs(env, b, vals), v) ==
            if v.Arg? && v.block == b && v.index < |vals| then vals[v.index] else Lookup(env, v)
  {
    if vals != [] {
      LookupArgs(env, b, vals[..|vals| - 1], v);
    }
  }

  lemma {:induction false} LookupResults(env: map<Value, int>, b: nat, k: nat, vals: seq<int>, v: Value)
    ensures Lookup(SetResults(env, b, k, vals), v) ==
            if v.Res? && v.block == b && v.op == k && v.index < |vals| then vals[v.index] else Lookup(env, v)
  {
    if vals != [] {
      LookupResults(env, b, k, vals[..|vals| - 1], v);
    }
  }
}
