/** SSA maximization: values used outside of the block that defines them are passed there by block arguments. */
module MaximizeSsa {
  import opened ControlFlow
  import opened MaximizeTheory
  import opened MaximizeRuns
  import opened MaximizeSelection

  // ---------------------------------------------------------------------------------------------
  // Steps of the rewriting
  // ---------------------------------------------------------------------------------------------

  /** The value is appended to what is passed to block `t`. */
  function AppendTo(edges: seq<Edge>, t: nat, v: Value): (r: seq<Edge>)
    ensures |r| == |edges|
  {
    seq(|edges|, e requires 0 <= e < |edges| =>
      if edges[e].target == t then edges[e].(args := edges[e].args + [v]) else edges[e])
  }

  lemma AppendStep(f: seq<Block>, v: Value, done: set<nat>, passed: set<(nat, nat)>, p: nat, t: nat)
    requires p < |f| && (p, t) !in passed
    ensures var g := Extended(f, v, done, passed);
            var term := g[p].term;
            g[p := g[p].(term := term.(edges := AppendTo(term.edges, t, v)))]
            == Extended(f, v, done, passed + {(p, t)})
  {
    var g, g' := Extended(f, v, done, passed), Extended(f, v, done, passed + {(p, t)});
    var term := g[p].term;
    assert g'[p].term.edges == AppendTo(term.edges, t, v);
    forall b: nat | b < |f| && b != p ensures g'[b] == g[b] {
      assert ExtendEdges(f[b].term.edges, b, v, passed + {(p, t)}) == ExtendEdges(f[b].term.edges, b, v, passed);
    }
  }

  lemma ArgStep(f: seq<Block>, v: Value, done: set<nat>, passed: set<(nat, nat)>, t: nat)
    requires t < |f| && t !in done
    ensures var g := Extended(f, v, done, passed);
            && g[t].numArgs == f[t].numArgs
            && g[t := g[t].(numArgs := g[t].numArgs + 1)] == Extended(f, v, done + {t}, passed)
  {
  }

  lemma NothingExtended(f: seq<Block>, v: Value)
    ensures Extended(f, v, {}, {}) == f
  {
    forall b: nat | b < |f| ensures Extended(f, v, {}, {})[b] == f[b] {
      assert ExtendEdges(f[b].term.edges, b, v, {}) == f[b].term.edges;
    }
  }

  lemma ExtendedGraph(f: seq<Block>, v: Value, done: set<nat>, passed: set<(nat, nat)>, p: nat, t: nat)
    ensures HasEdge(Extended(f, v, done, passed), p, t) <==> HasEdge(f, p, t)
    ensures p < |f| ==> Extended(f, v, done, passed)[p].term.isBranch == f[p].term.isBranch
  {
    var g := Extended(f, v, done, passed);
    if p < |f| {
      forall e: nat | e < |f[p].term.edges| ensures g[p].term.edges[e].target == f[p].term.edges[e].target {
      }
      if e: nat :| e < |f[p].term.edges| && f[p].term.edges[e].target == t {
        assert g[p].term.edges[e].target == t;
      }
    }
  }

  /** The predecessors that pass the value already. */
  ghost predicate UniqueOk(f: seq<Block>, v: Value, block: nat, unique: set<nat>, using: set<nat>) {
    && unique <= PredecessorSet(f, block)
    && forall p <- unique :: p < |f| && f[p].term.isBranch && (p != v.block ==> p in using)
  }

  ghost predicate AllIn(preds: seq<nat>, n: nat, unique: set<nat>) {
    n <= |preds| && forall j: nat :: j < n ==> preds[j] in unique
  }

  lemma AllInNext(preds: seq<nat>, n: nat, unique: set<nat>, unique': set<nat>)
    requires AllIn(preds, n, unique) && n < |preds| && unique' == unique + {preds[n]}
    ensures AllIn(preds, n + 1, unique')
  {
  }

  lemma AllInEnds(f: seq<Block>, v: Value, block: nat, preds: seq<nat>, unique: set<nat>, using: set<nat>)
    requires AllIn(preds, |preds|, unique) && UniqueOk(f, v, block, unique, using)
    requires forall p: nat :: p in preds <==> p in PredecessorSet(f, block)
    ensures unique == PredecessorSet(f, block)
    ensures forall p: nat :: HasEdge(f, p, block) ==> f[p].term.isBranch && (p != v.block ==> p in using)
  {
    forall p: nat | HasEdge(f, p, block) ensures p in unique {
      assert p in PredecessorSet(f, block);
      assert p in preds;
    }
  }

  lemma UniqueNext(f: seq<Block>, v: Value, block: nat, unique: set<nat>, using: set<nat>, using': set<nat>, p: nat)
    requires UniqueOk(f, v, block, unique, using) && using <= using' && HasEdge(f, p, block) && f[p].term.isBranch
    requires p != v.block ==> p in using'
    ensures UniqueOk(f, v, block, unique + {p}, using')
  {
  }

  lemma ExtendedPredecessors(f: seq<Block>, v: Value, done: set<nat>, passed: set<(nat, nat)>, t: nat)
    ensures forall p: nat :: p in Predecessors(Extended(f, v, done, passed), t, |f|) <==> p in PredecessorSet(f, t)
  {
    forall p: nat
      ensures p in Predecessors(Extended(f, v, done, passed), t, |f|) <==> p in PredecessorSet(f, t)
    {
      ExtendedGraph(f, v, done, passed, p, t);
    }
  }

  function Repeat(x: nat, n: nat): (r: seq<nat>)
    ensures |r| == n && forall y :: y in r ==> y == x
  {
    seq(n, i => x)
  }

  function CountTo(edges: seq<Edge>, t: nat): (n: nat)
    ensures n > 0 <==> exists e: nat :: e < |edges| && edges[e].target == t
  {
    if edges == [] then 0 else
      var last := |edges| - 1;
      assert edges[..last] + [edges[last]] == edges;
      CountTo(edges[..last], t) + if edges[last].target == t then 1 else 0
  }

  /** The predecessors of a block among the first `n` blocks: a block that has several edges to it is repeated. */
  function Predecessors(f: seq<Block>, t: nat, n: nat): (r: seq<nat>)
    requires n <= |f|
    ensures forall p: nat :: p in r <==> p < n && HasEdge(f, p, t)
  {
    if n == 0 then [] else
      var count := CountTo(f[n - 1].term.edges, t);
      var rest := Predecessors(f, t, n - 1);
      assert count > 0 ==> Repeat(n - 1, count)[0] == n - 1;
      assert forall p: nat :: p in rest + Repeat(n - 1, count) <==> p in rest || (p == n - 1 && count > 0);
      rest + Repeat(n - 1, count)
  }

  ghost function PredecessorSet(f: seq<Block>, t: nat): set<nat> {
    set p: nat | p < |f| && HasEdge(f, p, t)
  }

  ghost function Range(n: nat): (r: set<nat>)
    ensures forall b: nat :: b in r <==> b < n
  {
    if n == 0 then {} else Range(n - 1) + {n - 1}
  }

  function Pairs(ps: set<nat>, t: nat): set<(nat, nat)> {
    set p | p in ps :: (p, t)
  }

  lemma PairsStep(passed: set<(nat, nat)>, ps: set<nat>, p: nat, t: nat)
    ensures passed + Pairs(ps + {p}, t) == passed + Pairs(ps, t) + {(p, t)}
  {
  }

  /** Terminators that pass a value to a block that needs it can do so. */
  ghost predicate CanPass(f: seq<Block>, v: Value) {
    forall p: nat, b: nat :: HasEdge(f, p, b) && Needs(f, v, b) ==> f[p].term.isBranch
  }

  ghost predicate RewritesTo(f: seq<Block>, v: Value, g: seq<Block>) {
    exists done, passed :: IsComplete(f, v, done, passed) && g == Rewritten(f, v, done, passed)
  }

  // ---------------------------------------------------------------------------------------------
  // The worklist
  // ---------------------------------------------------------------------------------------------

  /** Blocks that need the value (`using`) and are still to be visited (`stack`), or have been. */
  ghost predicate WorklistOk(f: seq<Block>, v: Value, using: set<nat>, stack: seq<nat>, done: set<nat>) {
    && (forall b <- using :: b < |f| && Needs(f, v, b))
    && (forall b: nat :: b < |f| && b != v.block && BlockUses(f[b], v) ==> b in using)
    && (forall b :: b in using <==> b in stack || b in done)
    && (forall b <- stack :: b !in done)
    && (forall i, j :: 0 <= i < j < |stack| ==> stack[i] != stack[j])
  }

  /** What has been done for the blocks visited. */
  ghost predicate VisitedOk(f: seq<Block>, v: Value, using: set<nat>, done: set<nat>, passed: set<(nat, nat)>) {
    && (forall p: nat, b: nat :: (p, b) in passed <==> HasEdge(f, p, b) && b in done)
    && (forall p: nat, b: nat :: HasEdge(f, p, b) && b in done ==>
          f[p].term.isBranch && (p != v.block ==> p in using))
  }

  /** The arguments that have been added. */
  ghost predicate ArgsOk(f: seq<Block>, done: set<nat>, blockToArg: map<nat, nat>) {
    && blockToArg.Keys == done
    && forall b <- blockToArg :: b < |f| && blockToArg[b] == f[b].numArgs
  }

  lemma WorklistEnds(f: seq<Block>, v: Value, using: set<nat>, done: set<nat>, passed: set<(nat, nat)>)
    requires WorklistOk(f, v, using, [], done) && VisitedOk(f, v, using, done, passed)
    ensures IsComplete(f, v, done, passed) && CanPass(f, v)
  {
    assert using == done;
    forall b: nat | b < |f| && Needs(f, v, b) ensures b in done {
      var path :| NeedsAlong(f, v, path) && path[0] == b;
      NeedsIsLeast(f, v, done, path);
    }
    forall p: nat, b: nat | HasEdge(f, p, b) && Needs(f, v, b) ensures f[p].term.isBranch {
      var path :| NeedsAlong(f, v, path) && path[0] == b;
      NeedsIsLeast(f, v, done, path);
    }
  }

  lemma ReplaceNothing(vs: seq<Value>, v: Value, w: Value)
    requires v !in vs
    ensures ReplaceAll(vs, v, w) == vs
  {
  }

  lemma ReplaceNothingInOp(op: Op, v: Value, w: Value)
    requires !OpUses(op, v)
    ensures ReplaceInOp(op, v, w) == op
  {
    ReplaceNothing(op.operands, v, w);
    forall e: nat | e < |op.edges| ensures ReplaceInEdges(op.edges, v, w)[e] == op.edges[e] {
      ReplaceNothing(op.edges[e].args, v, w);
    }
  }

  lemma ReplaceNothingInBlock(block: Block, v: Value, w: Value)
    requires !BlockUses(block, v)
    ensures ReplaceInBlock(block, v, w) == block
  {
    ReplaceNothingInOp(block.term, v, w);
    forall k: nat | k < |block.ops| ensures ReplaceInOps(block.ops, v, w)[k] == block.ops[k] {
      ReplaceNothingInOp(block.ops[k], v, w);
    }
  }

  /** Blocks that use the value before the replacement have an argument for it. */
  lemma UserIsDone(f: seq<Block>, v: Value, done: set<nat>, passed: set<(nat, nat)>, b: nat)
    requires IsComplete(f, v, done, passed) && b < |f| && b != v.block && b !in done
    ensures !BlockUses(Extended(f, v, done, passed)[b], v)
  {
    ExtendUses(f[b], b, v, done, passed, v);
    if BlockUses(f[b], v) {
      UserNeeds(f, v, b);
    }
    if e: nat :| e < |f[b].term.edges| && (b, f[b].term.edges[e].target) in passed {
      PredecessorNeeds(f, v, b, f[b].term.edges[e].target);
    }
  }

  /** The blocks up to `n` have been replaced. */
  function ReplacedTo(f: seq<Block>, g: seq<Block>, v: Value, done: set<nat>, n: nat): (r: seq<Block>)
    requires |g| == |f|
    ensures |r| == |f|
  {
    seq(|f|, b requires 0 <= b < |f| =>
      if b < n && b in done then ReplaceInBlock(g[b], v, Arg(b, f[b].numArgs)) else g[b])
  }

  // ---------------------------------------------------------------------------------------------
  // What maximization keeps
  // ---------------------------------------------------------------------------------------------

  ghost predicate AllBranch(f: seq<Block>) {
    forall b: nat :: b < |f| && f[b].term.edges != [] ==> f[b].term.isBranch
  }

  ghost predicate SameShape(f: seq<Block>, g: seq<Block>) {
    && |f| == |g|
    && (forall b: nat :: b < |f| ==> g[b].numArgs >= f[b].numArgs && |g[b].ops| == |f[b].ops|
                                     && g[b].term.results == f[b].term.results)
    && (forall b: nat, k: nat :: b < |f| && k < |f[b].ops| ==> g[b].ops[k].results == f[b].ops[k].results)
    && (f != [] ==> g[0].numArgs == f[0].numArgs)
  }

  ghost predicate KeepsLocal(f: seq<Block>, g: seq<Block>) {
    forall u :: IsLocal(f, u) || !Exists(f, u) ==> IsLocal(g, u)
  }

  ghost predicate RegionOk(f: seq<Block>) {
    IsWellFormed(f) && RespectsDominance(f)
  }

  /** All executions are the same, local values stay local, new values are local, and the entry block (the function's
      signature) has the same arguments. */
  ghost predicate Keeps(f: seq<Block>, g: seq<Block>) {
    && RegionOk(g) && SameRuns(f, g) && SameShape(f, g) && KeepsLocal(f, g)
    && (AllBranch(f) ==> AllBranch(g))
  }

  lemma KeepsNothing(f: seq<Block>)
    requires RegionOk(f)
    ensures Keeps(f, f)
  {
    forall u | !Exists(f, u) ensures IsLocal(f, u) {
      assert forall b: nat :: b < |f| && BlockUses(f[b], u) ==> Exists(f, u);
    }
    forall m, inputs, mem, n: nat ensures SameRun(f, f, m, inputs, mem, n) {
    }
  }

  lemma ShapeTransitive(f: seq<Block>, g: seq<Block>, h: seq<Block>)
    requires SameShape(f, g) && SameShape(g, h)
    ensures SameShape(f, h)
  {
  }

  lemma KeepsTransitive(f: seq<Block>, g: seq<Block>, h: seq<Block>)
    requires Keeps(f, g) && Keeps(g, h)
    ensures Keeps(f, h)
  {
    SameRunsTransitive(f, g, h);
    ShapeTransitive(f, g, h);
  }

  lemma RewritingShape(f: seq<Block>, v: Value, done: set<nat>, passed: set<(nat, nat)>)
    requires IsComplete(f, v, done, passed) && RespectsDominance(f)
    ensures SameShape(f, Rewritten(f, v, done, passed))
    ensures AllBranch(f) ==> AllBranch(Rewritten(f, v, done, passed))
  {
    EntryDoesNotNeed(f, v);
    forall b: nat | b < |f|
      ensures var g := Rewritten(f, v, done, passed);
              && |g| == |f| && g[b].numArgs >= f[b].numArgs && (b == 0 ==> g[b].numArgs == f[b].numArgs)
              && |g[b].ops| == |f[b].ops| && g[b].term.results == f[b].term.results
              && g[b].term.isBranch == f[b].term.isBranch && |g[b].term.edges| == |f[b].term.edges|
              && forall k: nat :: k < |f[b].ops| ==> g[b].ops[k].results == f[b].ops[k].results
    {
      RewrittenBlock(f, v, done, passed, b);
    }
  }

  lemma RewritingKeeps(f: seq<Block>, v: Value, g: seq<Block>)
    requires RegionOk(f) && Exists(f, v) && RewritesTo(f, v, g)
    ensures Keeps(f, g) && IsLocal(g, v) && OnlySelected(f, g, One(v))
  {
    var done, passed :| IsComplete(f, v, done, passed) && g == Rewritten(f, v, done, passed);
    RewritingTouchesOne(f, v, done, passed);
    WellFormedStays(f, v, done, passed);
    DominanceStays(f, v, done, passed);
    RewritingKeepsRuns(f, v, done, passed);
    RewritingShape(f, v, done, passed);
    RewrittenIsLocal(f, v, done, passed);
    forall u | IsLocal(f, u) || !Exists(f, u) ensures IsLocal(g, u) {
      LocalStays(f, v, done, passed, u);
    }
  }

  /** What to maximize. */
  datatype Strategy =
    Strategy(block: nat -> bool, argument: Value -> bool, op: (nat, nat) -> bool, result: Value -> bool)
  {
    predicate Selects(v: Value) {
      block(v.block) &&
      match v
      case Arg(_, _) => argument(v)
      case Res(b, k, _) => op(b, k) && result(v)
    }

    /** The results of one operation that are selected, if the operation is. */
    function InOp(b: nat, k: nat): Value -> bool {
      (u: Value) => u.Res? && u.block == b && u.op == k && result(u)
    }

    /** The results in a block that are selected, if the block is. */
    function InOps(b: nat): Value -> bool {
      (u: Value) => u.Res? && u.block == b && op(b, u.op) && result(u)
    }

    /** The values in a block that are selected, if the block is. */
    function InBlock(b: nat): Value -> bool {
      (u: Value) => u.block == b && if u.Arg? then argument(u) else op(b, u.op) && result(u)
    }

    function Selected(): Value -> bool {
      (u: Value) => Selects(u)
    }
  }

  /** Another value, operation or block has been maximized. */
  lemma MaximizedMore(f: seq<Block>, g: seq<Block>, h: seq<Block>, less: Value -> bool, selected: Value -> bool)
    requires Keeps(f, g) && Keeps(g, h)
    requires OnlySelected(f, g, selected) && OnlySelected(g, h, less) && forall u :: less(u) ==> selected(u)
    ensures Keeps(f, h) && OnlySelected(f, h, selected)
  {
    KeepsTransitive(f, g, h);
    ShapeKeepsValues(f, g);
    OnlySelectedStep(f, g, h, less, selected);
  }

  lemma ShapeKeepsValues(f: seq<Block>, g: seq<Block>)
    requires SameShape(f, g)
    ensures StillExist(f, g)
  {
  }

  lemma NothingMaximized(f: seq<Block>, selected: Value -> bool)
    requires RegionOk(f)
    ensures Keeps(f, f) && OnlySelected(f, f, selected)
  {
    KeepsNothing(f);
    NothingTouched(f, selected);
  }

  ghost predicate ArgsLocal(f: seq<Block>, s: Strategy, b: nat, i: nat) {
    forall u: Value :: u.Arg? && u.block == b && u.index < i && s.argument(u) ==> IsLocal(f, u)
  }

  ghost predicate ResultsLocal(f: seq<Block>, s: Strategy, b: nat, k: nat, i: nat) {
    forall u: Value :: u.Res? && u.block == b && u.op == k && u.index < i && s.result(u) ==> IsLocal(f, u)
  }

  function ResultsOf(f: seq<Block>, b: nat, k: nat): nat
    requires b < |f| && k <= |f[b].ops|
  {
    if k < |f[b].ops| then f[b].ops[k].results else f[b].term.results
  }

  ghost predicate OpsLocal(f: seq<Block>, s: Strategy, b: nat, k: nat) {
    forall u: Value :: u.Res? && u.block == b && u.op < k && Exists(f, u) && s.op(b, u.op) && s.result(u) ==>
                       IsLocal(f, u)
  }

  /** Of the values that `f` has got, those selected in the first `b` blocks are local in `g`. */
  ghost predicate SelectedLocal(f: seq<Block>, g: seq<Block>, s: Strategy, b: nat) {
    forall u: Value :: u.block < b && Exists(f, u) && s.Selects(u) ==> IsLocal(g, u)
  }

  lemma ArgsLocalStays(f: seq<Block>, g: seq<Block>, s: Strategy, b: nat, i: nat)
    requires Keeps(f, g) && ArgsLocal(f, s, b, i)
    ensures ArgsLocal(g, s, b, i)
  {
    forall u: Value | u.Arg? && u.block == b && u.index < i && s.argument(u) ensures IsLocal(g, u) {
      assert IsLocal(f, u);
    }
  }

  lemma ArgsLocalNext(f: seq<Block>, s: Strategy, b: nat, i: nat)
    requires ArgsLocal(f, s, b, i) && (s.argument(Arg(b, i)) ==> IsLocal(f, Arg(b, i)))
    ensures ArgsLocal(f, s, b, i + 1)
  {
    forall u: Value | u.Arg? && u.block == b && u.index < i + 1 && s.argument(u) ensures IsLocal(f, u) {
      assert u == Arg(b, i) || u.index < i;
    }
  }

  lemma ResultsLocalStays(f: seq<Block>, g: seq<Block>, s: Strategy, b: nat, k: nat, i: nat)
    requires Keeps(f, g) && ResultsLocal(f, s, b, k, i)
    ensures ResultsLocal(g, s, b, k, i)
  {
    forall u: Value | u.Res? && u.block == b && u.op == k && u.index < i && s.result(u) ensures IsLocal(g, u) {
      assert IsLocal(f, u);
    }
  }

  lemma ResultsLocalNext(f: seq<Block>, s: Strategy, b: nat, k: nat, i: nat)
    requires ResultsLocal(f, s, b, k, i) && (s.result(Res(b, k, i)) ==> IsLocal(f, Res(b, k, i)))
    ensures ResultsLocal(f, s, b, k, i + 1)
  {
    forall u: Value | u.Res? && u.block == b && u.op == k && u.index < i + 1 && s.result(u) ensures IsLocal(f, u) {
      assert u == Res(b, k, i) || u.index < i;
    }
  }

  lemma OpsLocalNext(f: seq<Block>, s: Strategy, b: nat, k: nat)
    requires b < |f| && k <= |f[b].ops| && OpsLocal(f, s, b, k)
    requires s.op(b, k) ==> ResultsLocal(f, s, b, k, ResultsOf(f, b, k))
    ensures OpsLocal(f, s, b, k + 1)
  {
    forall u: Value | u.Res? && u.block == b && u.op < k + 1 && Exists(f, u) && s.op(b, u.op) && s.result(u)
      ensures IsLocal(f, u)
    {
      assert u.op == k || u.op < k;
    }
  }

  lemma BlockLocalEnds(f: seq<Block>, g: seq<Block>, s: Strategy, b: nat)
    requires b < |f| && SameShape(f, g) && ArgsLocal(g, s, b, f[b].numArgs) && OpsLocal(g, s, b, |f[b].ops| + 1)
    ensures BlockLocal(f, g, s, b)
  {
  }

  lemma OpsLocalStays(f: seq<Block>, g: seq<Block>, s: Strategy, b: nat, k: nat)
    requires Keeps(f, g) && OpsLocal(f, s, b, k)
    ensures OpsLocal(g, s, b, k)
  {
  }

  predicate IsSelected(u: Value, numArgs: nat, s: Strategy) {
    if u.Arg? then u.index < numArgs && s.argument(u) else s.op(u.block, u.op) && s.result(u)
  }

  ghost predicate BlockLocal(f: seq<Block>, g: seq<Block>, s: Strategy, b: nat)
    requires b < |f|
  {
    forall u: Value :: u.block == b && Exists(g, u) && IsSelected(u, f[b].numArgs, s) ==> IsLocal(g, u)
  }

  lemma SelectedStep(f: seq<Block>, g: seq<Block>, h: seq<Block>, s: Strategy, b: nat)
    requires Keeps(f, g) && Keeps(g, h) && SelectedLocal(f, g, s, b) && b < |f| && BlockLocal(g, h, s, b)
    ensures SelectedLocal(f, h, s, b + 1)
  {
  }

  lemma SelectedSkip(f: seq<Block>, g: seq<Block>, s: Strategy, b: nat)
    requires SelectedLocal(f, g, s, b) && !s.block(b)
    ensures SelectedLocal(f, g, s, b + 1)
  {
  }

  lemma AllSelected(f: seq<Block>, g: seq<Block>, s: Strategy)
    requires Keeps(f, g) && SelectedLocal(f, g, s, |f|)
    ensures forall u :: Exists(f, u) && s.Selects(u) ==> IsLocal(g, u)
    ensures (forall u :: s.Selects(u)) ==> IsMaximized(g)
  {
    if forall u :: s.Selects(u) {
      forall b: nat, v: Value | b < |g| && BlockUses(g[b], v) ensures v.block == b {
        assert s.Selects(v);
        assert IsLocal(g, v);
      }
    }
  }

  lemma StartWorklist(f: seq<Block>, v: Value, using: set<nat>)
    requires forall b: nat :: b in using <==> b < |f| && b != v.block && BlockUses(f[b], v)
    ensures forall b <- using :: Needs(f, v, b)
  {
    forall b <- using ensures Needs(f, v, b) {
      UserNeeds(f, v, b);
    }
  }

  lemma PopOk(f: seq<Block>, v: Value, using: set<nat>, stack: seq<nat>, done: set<nat>)
    requires WorklistOk(f, v, using, stack, done) && stack != []
    ensures WorklistOk(f, v, using, stack[..|stack| - 1], done + {stack[|stack| - 1]})
    ensures stack[|stack| - 1] !in done && Needs(f, v, stack[|stack| - 1])
  {
    var n := |stack| - 1;
    assert stack == stack[..n] + [stack[n]];
  }

  lemma PushOk(f: seq<Block>, v: Value, using: set<nat>, stack: seq<nat>, done: set<nat>, pred: nat)
    requires WorklistOk(f, v, using, stack, done) && pred !in using && pred < |f| && Needs(f, v, pred)
    ensures WorklistOk(f, v, using + {pred}, stack + [pred], done)
  {
  }

  lemma VisitStep(f: seq<Block>, v: Value, using: set<nat>, using': set<nat>, done: set<nat>, passed: set<(nat, nat)>,
                  block: nat)
    requires VisitedOk(f, v, using, done, passed) && using <= using' && block !in done
    requires forall p: nat :: HasEdge(f, p, block) ==> f[p].term.isBranch && (p != v.block ==> p in using')
    ensures VisitedOk(f, v, using', done + {block}, passed + Pairs(PredecessorSet(f, block), block))
  {
  }

  lemma CannotPass(f: seq<Block>, v: Value, block: nat)
    requires Needs(f, v, block) && exists p: nat :: HasEdge(f, p, block) && !f[p].term.isBranch
    ensures !CanPass(f, v)
  {
  }

  lemma ReplaceStep(f: seq<Block>, g: seq<Block>, v: Value, done: set<nat>, passed: set<(nat, nat)>, b: nat)
    requires g == Extended(f, v, done, passed) && IsComplete(f, v, done, passed) && b < |f| && v.block !in done
    ensures b != v.block && BlockUses(g[b], v) ==> b in done
    ensures ReplacedTo(f, g, v, done, b + 1) ==
            if b != v.block && BlockUses(g[b], v)
            then ReplacedTo(f, g, v, done, b)[b := ReplaceInBlock(g[b], v, Arg(b, f[b].numArgs))]
            else ReplacedTo(f, g, v, done, b)
  {
    if b != v.block && b !in done {
      UserIsDone(f, v, done, passed, b);
    }
    if b in done && !BlockUses(g[b], v) {
      ReplaceNothingInBlock(g[b], v, Arg(b, f[b].numArgs));
    }
  }

  class Region {
    var blocks: seq<Block>

    constructor (blocks: seq<Block>)
      ensures this.blocks == blocks
    {
      this.blocks := blocks;
    }

    /** Passes the value along all edges from `pred` to `block`, if the terminator can pass any values. */
    method AddArgToTerminator(block: nat, pred: nat, value: Value) returns (ok: bool)
      requires pred < |blocks|
      modifies this
      ensures ok == old(blocks)[pred].term.isBranch
      ensures !ok ==> blocks == old(blocks)
      ensures ok ==> var term := old(blocks)[pred].term;
                     blocks == old(blocks)[pred := old(blocks)[pred].(term :=
                                                     term.(edges := AppendTo(term.edges, block, value)))]
    {
      var branch := blocks[pred].term;
      if !branch.isBranch {
        return false;
      }
      var edges := branch.edges;
      for idx := 0 to |branch.edges|
        invariant |edges| == |branch.edges|
        invariant forall e: nat :: e < idx ==> edges[e] == AppendTo(branch.edges, block, value)[e]
        invariant forall e: nat :: idx <= e < |edges| ==> edges[e] == branch.edges[e]
      {
        if edges[idx].target == block {
          edges := edges[idx := edges[idx].(args := edges[idx].args + [value])];
        }
      }
      assert edges == AppendTo(branch.edges, block, value);
      blocks := blocks[pred := blocks[pred].(term := branch.(edges := edges))];
      ok := true;
    }

    /** Whether every operand is defined in the block that uses it. */
    method IsRegionMaximized() returns (yes: bool)
      ensures yes <==> IsMaximized(blocks)
    {
      for b := 0 to |blocks|
        invariant forall c: nat, v: Value :: c < b && BlockUses(blocks[c], v) ==> v.block == c
      {
        var ops := blocks[b].ops + [blocks[b].term];
        for k := 0 to |ops|
          invariant forall j: nat, v: Value :: j < k && OpUses(ops[j], v) ==> v.block == b
        {
          var local := AreDefinedIn(ops[k], b);
          if !local {
            assert exists v :: OpUses(ops[k], v) && v.block != b && BlockUses(blocks[b], v);
            return false;
          }
        }
        forall v: Value | BlockUses(blocks[b], v) ensures v.block == b {
          if OpUses(blocks[b].term, v) {
            assert OpUses(ops[|ops| - 1], v);
          } else {
            var j: nat :| j < |blocks[b].ops| && OpUses(blocks[b].ops[j], v);
            assert OpUses(ops[j], v);
          }
        }
      }
      yes := true;
    }

    method AreDefinedIn(op: Op, b: nat) returns (yes: bool)
      ensures yes <==> forall v :: OpUses(op, v) ==> v.block == b
    {
      for i := 0 to |op.operands|
        invariant forall j: nat :: j < i ==> op.operands[j].block == b
      {
        if op.operands[i].block != b {
          assert OpUses(op, op.operands[i]);
          return false;
        }
      }
      for e := 0 to |op.edges|
        invariant forall d: nat, v: Value :: d < e && v in op.edges[d].args ==> v.block == b
      {
        for i := 0 to |op.edges[e].args|
          invariant forall j: nat :: j < i ==> op.edges[e].args[j].block == b
        {
          if op.edges[e].args[i].block != b {
            assert OpUses(op, op.edges[e].args[i]);
            return false;
          }
        }
      }
      yes := true;
    }

    method BlocksUsing(value: Value) returns (using: set<nat>)
      ensures forall b: nat :: b in using <==> b < |blocks| && b != value.block && BlockUses(blocks[b], value)
    {
      using := {};
      for b := 0 to |blocks|
        invariant forall c: nat :: c in using <==> c < b && c != value.block && BlockUses(blocks[c], value)
      {
        if b != value.block && BlockUses(blocks[b], value) {
          using := using + {b};
        }
      }
    }

    /** A set as a sequence, in any order. */
    method ToStack(s: set<nat>) returns (stack: seq<nat>)
      ensures forall b :: b in stack <==> b in s
      ensures forall i, j :: 0 <= i < j < |stack| ==> stack[i] != stack[j]
    {
      stack := [];
      var rest := s;
      while rest != {}
        invariant forall b :: b in s <==> b in stack || b in rest
        invariant forall b <- stack :: b !in rest
        invariant forall i, j :: 0 <= i < j < |stack| ==> stack[i] != stack[j]
        decreases |rest|
      {
        var b :| b in rest;
        stack := stack + [b];
        rest := rest - {b};
      }
    }

    /** Makes all predecessors of a block pass the value to it, each of them once, and has those visited that did not
        need the value before. */
    method PassFromPredecessors(value: Value, block: nat, using0: set<nat>, stack0: seq<nat>, ghost f: seq<Block>,
                                ghost done: set<nat>, ghost passed: set<(nat, nat)>)
      returns (ok: bool, using: set<nat>, stack: seq<nat>)
      requires blocks == Extended(f, value, done, passed) && Needs(f, value, block)
      requires WorklistOk(f, value, using0, stack0, done)
      requires forall p: nat :: (p, block) !in passed
      modifies this
      ensures ok <==> forall p: nat :: HasEdge(f, p, block) ==> f[p].term.isBranch
      ensures ok ==> blocks == Extended(f, value, done, passed + Pairs(PredecessorSet(f, block), block))
      ensures ok ==> WorklistOk(f, value, using, stack, done) && using0 <= using
      ensures ok ==> forall p: nat :: HasEdge(f, p, block) && p != value.block ==> p in using
    {
      using, stack := using0, stack0;
      var unique: set<nat> := {};
      var preds := GetPredecessors(block, value, f, done, passed);
      assert passed + Pairs({}, block) == passed;
      for i := 0 to |preds|
        invariant AllIn(preds, i, unique)
        invariant UniqueOk(f, value, block, unique, using) && using0 <= using
        invariant blocks == Extended(f, value, done, passed + Pairs(unique, block))
        invariant WorklistOk(f, value, using, stack, done)
      {
        var pred := preds[i];
        if pred !in unique {
          assert pred in preds;
          ghost var using1 := using;
          ok, using, stack :=
            VisitPredecessor(value, block, pred, using, stack, f, done, passed + Pairs(unique, block));
          if !ok {
            return;
          }
          PairsStep(passed, unique, pred, block);
          AllInNext(preds, i, unique, unique + {pred});
          UniqueNext(f, value, block, unique, using1, using, pred);
          unique := unique + {pred};
        } else {
          AllInNext(preds, i, unique, unique);
        }
      }
      ok := true;
      AllInEnds(f, value, block, preds, unique, using);
    }

    method GetPredecessors(block: nat, ghost value: Value, ghost f: seq<Block>, ghost done: set<nat>,
                           ghost passed: set<(nat, nat)>) returns (preds: seq<nat>)
      requires blocks == Extended(f, value, done, passed)
      ensures forall p: nat :: p in preds <==> p in PredecessorSet(f, block)
    {
      preds := Predecessors(blocks, block, |blocks|);
      ExtendedPredecessors(f, value, done, passed, block);
    }

    method VisitPredecessor(value: Value, block: nat, pred: nat, using0: set<nat>, stack0: seq<nat>,
                            ghost f: seq<Block>, ghost done: set<nat>, ghost passed: set<(nat, nat)>)
      returns (ok: bool, using: set<nat>, stack: seq<nat>)
      requires blocks == Extended(f, value, done, passed) && Needs(f, value, block)
      requires WorklistOk(f, value, using0, stack0, done)
      requires HasEdge(f, pred, block) && (pred, block) !in passed
      modifies this
      ensures ok == f[pred].term.isBranch
      ensures ok ==> blocks == Extended(f, value, done, passed + {(pred, block)})
      ensures ok ==> WorklistOk(f, value, using, stack, done) && using0 <= using
      ensures ok ==> pred != value.block ==> pred in using
    {
      using, stack := using0, stack0;
      ok := PassFrom(value, block, pred, f, done, passed);
      if ok && pred != value.block && pred !in using {
        PredecessorNeeds(f, value, pred, block);
        PushOk(f, value, using, stack, done, pred);
        using := using + {pred};
        stack := stack + [pred];
      }
    }

    method PassFrom(value: Value, block: nat, pred: nat, ghost f: seq<Block>, ghost done: set<nat>,
                    ghost passed: set<(nat, nat)>) returns (ok: bool)
      requires blocks == Extended(f, value, done, passed) && pred < |f| && (pred, block) !in passed
      modifies this
      ensures ok == f[pred].term.isBranch
      ensures ok ==> blocks == Extended(f, value, done, passed + {(pred, block)})
    {
      ExtendedGraph(f, value, done, passed, pred, block);
      AppendStep(f, value, done, passed, pred, block);
      ok := AddArgToTerminator(block, pred, value);
    }

    /** Backtracks from the blocks that use the value to the block that defines it, and passes the value along. */
    method MaximizeValue(value: Value) returns (ok: bool)
      requires RegionOk(blocks) && Exists(blocks, value)
      modifies this
      ensures ok <==> CanPass(old(blocks), value)
      ensures ok ==> RewritesTo(old(blocks), value, blocks)
    {
      ghost var f := blocks;
      var defBlock := value.block;
      var using := BlocksUsing(value);
      var stack := ToStack(using);
      var blockToArg: map<nat, nat> := map[];
      ghost var done: set<nat>, passed: set<(nat, nat)> := {}, {};
      NothingExtended(f, value);
      StartWorklist(f, value, using);
      ghost var all := Range(|f|);
      while stack != []
        invariant blocks == Extended(f, value, done, passed)
        invariant WorklistOk(f, value, using, stack, done) && VisitedOk(f, value, using, done, passed)
        invariant done <= all
        invariant ArgsOk(f, done, blockToArg)
        decreases all - done
      {
        var block := stack[|stack| - 1];
        assert block in stack && block in using;
        PopOk(f, value, using, stack, done);
        stack := stack[..|stack| - 1];
        blockToArg := AddArgument(block, value, blockToArg, f, done, passed);
        ghost var done0, using0 := done, using;
        done := done + {block};
        ok, using, stack := PassFromPredecessors(value, block, using, stack, f, done, passed);
        if !ok {
          CannotPass(f, value, block);
          return;
        }
        VisitStep(f, value, using0, using, done0, passed, block);
        passed := passed + Pairs(PredecessorSet(f, block), block);
      }
      WorklistEnds(f, value, using, done, passed);
      ReplaceUses(value, blockToArg, f, done, passed);
      ok := true;
    }

    /** Adds an argument to a block, to hold the value. */
    method AddArgument(block: nat, value: Value, blockToArg: map<nat, nat>, ghost f: seq<Block>, ghost done: set<nat>,
                       ghost passed: set<(nat, nat)>) returns (r: map<nat, nat>)
      requires blocks == Extended(f, value, done, passed) && ArgsOk(f, done, blockToArg)
      requires block < |f| && block !in done
      modifies this
      ensures blocks == Extended(f, value, done + {block}, passed) && ArgsOk(f, done + {block}, r)
    {
      ArgStep(f, value, done, passed, block);
      r := blockToArg[block := blocks[block].numArgs];
      blocks := blocks[block := blocks[block].(numArgs := blocks[block].numArgs + 1)];
    }

    /** Replaces the uses of the value outside of the block that defines it. */
    method ReplaceUses(value: Value, blockToArg: map<nat, nat>, ghost f: seq<Block>, ghost done: set<nat>,
                       ghost passed: set<(nat, nat)>)
      requires blocks == Extended(f, value, done, passed) && IsComplete(f, value, done, passed)
      requires ArgsOk(f, done, blockToArg)
      modifies this
      ensures blocks == Rewritten(f, value, done, passed)
    {
      ghost var g := blocks;
      DefinerDoesNotNeed(f, value);
      assert ReplacedTo(f, g, value, done, 0) == g;
      for b := 0 to |blocks|
        invariant blocks == ReplacedTo(f, g, value, done, b)
      {
        assert blocks[b] == g[b];
        ReplaceStep(f, g, value, done, passed, b);
        if b != value.block && BlockUses(blocks[b], value) {
          blocks := blocks[b := ReplaceInBlock(blocks[b], value, Arg(b, blockToArg[b]))];
        }
      }
      assert blocks == Replaced(f, g, value, done);
    }

    method MaximizeOp(b: nat, k: nat, strategy: Strategy) returns (ok: bool)
      requires RegionOk(blocks) && b < |blocks| && k <= |blocks[b].ops|
      modifies this
      ensures ok ==> Keeps(old(blocks), blocks)
      ensures ok ==> OnlySelected(old(blocks), blocks, strategy.InOp(b, k))
      ensures ok ==> ResultsLocal(blocks, strategy, b, k, ResultsOf(blocks, b, k))
      ensures AllBranch(old(blocks)) ==> ok
    {
      ghost var f := blocks;
      var results := if k < |blocks[b].ops| then blocks[b].ops[k].results else blocks[b].term.results;
      NothingMaximized(f, strategy.InOp(b, k));
      for i := 0 to results
        invariant Keeps(f, blocks) && ResultsLocal(blocks, strategy, b, k, i)
        invariant OnlySelected(f, blocks, strategy.InOp(b, k))
        invariant results == ResultsOf(blocks, b, k)
      {
        var res := Res(b, k, i);
        if strategy.result(res) {
          ghost var g := blocks;
          ok := MaximizeStep(res);
          if !ok {
            return;
          }
          MaximizedMore(f, g, blocks, One(res), strategy.InOp(b, k));
          ResultsLocalStays(g, blocks, strategy, b, k, i);
        }
        ResultsLocalNext(blocks, strategy, b, k, i);
      }
      ok := true;
    }

    /** Maximizes one value, and keeps everything else. */
    method MaximizeStep(value: Value) returns (ok: bool)
      requires RegionOk(blocks) && Exists(blocks, value)
      modifies this
      ensures ok ==> Keeps(old(blocks), blocks) && IsLocal(blocks, value)
      ensures ok ==> OnlySelected(old(blocks), blocks, One(value))
      ensures AllBranch(old(blocks)) ==> ok
    {
      ghost var f := blocks;
      ok := MaximizeValue(value);
      if ok {
        RewritingKeeps(f, value, blocks);
      }
    }

    method MaximizeBlock(b: nat, strategy: Strategy) returns (ok: bool)
      requires RegionOk(blocks) && b < |blocks|
      modifies this
      ensures ok ==> Keeps(old(blocks), blocks)
      ensures ok ==> OnlySelected(old(blocks), blocks, strategy.InBlock(b))
      ensures ok ==> BlockLocal(old(blocks), blocks, strategy, b)
      ensures AllBranch(old(blocks)) ==> ok
    {
      ghost var f := blocks;
      NothingMaximized(f, strategy.InBlock(b));
      var numArgs := blocks[b].numArgs;
      for i := 0 to numArgs
        invariant OnlySelected(f, blocks, strategy.InBlock(b))
        invariant Keeps(f, blocks) && ArgsLocal(blocks, strategy, b, i)
      {
        var arg := Arg(b, i);
        if strategy.argument(arg) {
          ghost var g := blocks;
          ok := MaximizeStep(arg);
          if !ok {
            return;
          }
          MaximizedMore(f, g, blocks, One(arg), strategy.InBlock(b));
          ArgsLocalStays(g, blocks, strategy, b, i);
        }
        ArgsLocalNext(blocks, strategy, b, i);
      }
      ghost var afterArgs := blocks;
      ok := MaximizeOps(b, strategy, numArgs);
      if ok {
        MaximizedMore(f, afterArgs, blocks, strategy.InOps(b), strategy.InBlock(b));
        BlockLocalEnds(f, blocks, strategy, b);
      }
    }

    method MaximizeOps(b: nat, strategy: Strategy, ghost numArgs: nat) returns (ok: bool)
      requires RegionOk(blocks) && b < |blocks| && ArgsLocal(blocks, strategy, b, numArgs)
      modifies this
      ensures ok ==> Keeps(old(blocks), blocks) && ArgsLocal(blocks, strategy, b, numArgs)
      ensures ok ==> OnlySelected(old(blocks), blocks, strategy.InOps(b))
      ensures ok ==> OpsLocal(blocks, strategy, b, |old(blocks)[b].ops| + 1)
      ensures AllBranch(old(blocks)) ==> ok
    {
      ghost var f := blocks;
      NothingMaximized(f, strategy.InOps(b));
      var numOps := |blocks[b].ops|;
      for k := 0 to numOps + 1
        invariant OnlySelected(f, blocks, strategy.InOps(b))
        invariant Keeps(f, blocks) && ArgsLocal(blocks, strategy, b, numArgs) && OpsLocal(blocks, strategy, b, k)
      {
        if strategy.op(b, k) {
          ghost var g := blocks;
          ok := MaximizeOp(b, k, strategy);
          if !ok {
            return;
          }
          MaximizedMore(f, g, blocks, strategy.InOp(b, k), strategy.InOps(b));
          OpsLocalStays(g, blocks, strategy, b, k);
          ArgsLocalStays(g, blocks, strategy, b, numArgs);
        }
        OpsLocalNext(blocks, strategy, b, k);
      }
      ok := true;
    }

    /** The whole region: afterwards, every value selected is only used in its own block, and every execution is the
        same. With everything selected, the region is maximized. Values that are not selected stay where they are, and
        if there is nothing to do, nothing is done. */
    method MaximizeRegion(strategy: Strategy) returns (ok: bool)
      requires RegionOk(blocks)
      modifies this
      ensures ok ==> Keeps(old(blocks), blocks)
      ensures ok ==> forall u :: Exists(old(blocks), u) && strategy.Selects(u) ==> IsLocal(blocks, u)
      ensures ok ==> forall u :: Exists(old(blocks), u) && !strategy.Selects(u) ==> IsUntouched(old(blocks), blocks, u)
      ensures ok && (forall u :: Exists(old(blocks), u) && strategy.Selects(u) ==> IsLocal(old(blocks), u)) ==>
                blocks == old(blocks)
      ensures ok && (forall u :: strategy.Selects(u)) ==> IsMaximized(blocks)
      ensures AllBranch(old(blocks)) ==> ok
    {
      ghost var f := blocks;
      NothingMaximized(f, strategy.Selected());
      var n := |blocks|;
      for b := 0 to n
        invariant Keeps(f, blocks) && OnlySelected(f, blocks, strategy.Selected())
        invariant SelectedLocal(f, blocks, strategy, b)
      {
        if strategy.block(b) {
          ghost var g := blocks;
          ok := MaximizeBlock(b, strategy);
          if !ok {
            return;
          }
          MaximizedMore(f, g, blocks, strategy.InBlock(b), strategy.Selected());
          SelectedStep(f, g, blocks, strategy, b);
        } else {
          SelectedSkip(f, blocks, strategy, b);
        }
      }
      AllSelected(f, blocks, strategy);
      ok := true;
    }
  }
}
