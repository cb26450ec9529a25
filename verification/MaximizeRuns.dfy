/** Rewriting keeps every execution, step for step. */
module MaximizeRuns {
  import opened ControlFlow
  import opened MaximizeTheory

  /** Values that are there before rewriting. */
  predicate IsOld(f: seq<Block>, u: Value) {
    u.Arg? && u.block < |f| ==> u.index < f[u.block].numArgs
  }

  ghost predicate SameOld(f: seq<Block>, env: map<Value, int>, env': map<Value, int>) {
    forall u: Value :: IsOld(f, u) ==> Lookup(env', u) == Lookup(env, u)
  }

  /** The argument of a block that needs the value holds the value. */
  ghost predicate Holds(f: seq<Block>, v: Value, done: set<nat>, b: nat, env: map<Value, int>, env': map<Value, int>) {
    b in done && b < |f| ==> Lookup(env', Arg(b, f[b].numArgs)) == Lookup(env, v)
  }

  ghost predicate Related(f: seq<Block>, v: Value, done: set<nat>, s: State, s': State) {
    && Observe(s) == Observe(s')
    && SameOld(f, s.env, s'.env) && Holds(f, v, done, s.block, s.env, s'.env)
  }

  ghost predicate OldUses(f: seq<Block>, op: Op) {
    forall u: Value :: OpUses(op, u) ==> IsOld(f, u)
  }

  lemma BlockHasOldUses(f: seq<Block>, b: nat)
    requires IsWellFormed(f) && b < |f|
    ensures OldUses(f, f[b].term)
    ensures forall k: nat :: k < |f[b].ops| ==> OldUses(f, f[b].ops[k])
  {
    forall k: nat, u | k < |f[b].ops| && OpUses(f[b].ops[k], u) ensures IsOld(f, u) {
      assert BlockUses(f[b], u);
      assert Exists(f, u);
    }
    forall u | OpUses(f[b].term, u) ensures IsOld(f, u) {
      assert BlockUses(f[b], u);
      assert Exists(f, u);
    }
  }

  /** What is read instead of a value in a block. */
  function Instead(f: seq<Block>, v: Value, done: set<nat>, b: nat, vs: seq<Value>): seq<Value>
    requires b < |f|
  {
    if b in done then ReplaceAll(vs, v, Arg(b, f[b].numArgs)) else vs
  }

  lemma SameValues(f: seq<Block>, v: Value, done: set<nat>, b: nat, vs: seq<Value>, env: map<Value, int>,
                   env': map<Value, int>)
    requires b < |f| && SameOld(f, env, env') && Holds(f, v, done, b, env, env')
    requires forall u :: u in vs ==> IsOld(f, u)
    ensures Values(env', Instead(f, v, done, b, vs)) == Values(env, vs)
  {
    forall i: nat | i < |vs| ensures Lookup(env', Instead(f, v, done, b, vs)[i]) == Lookup(env, vs[i]) {
      assert IsOld(f, vs[i]);
    }
  }

  function InsteadOp(f: seq<Block>, v: Value, done: set<nat>, b: nat, op: Op): Op
    requires b < |f|
  {
    if b in done then ReplaceInOp(op, v, Arg(b, f[b].numArgs)) else op
  }

  lemma SameOp(f: seq<Block>, m: Machine, v: Value, done: set<nat>, b: nat, k: nat, op: Op, op': Op, s: State,
               s': State)
    requires b < |f| && s.block == b && Related(f, v, done, s, s') && OldUses(f, op)
    requires op'.kind == op.kind && op'.operands == Instead(f, v, done, b, op.operands)
    requires v.block != b || b !in done
    ensures Related(f, v, done, ExecOp(m, b, k, op, s), ExecOp(m, b, k, op', s'))
    ensures Values(s'.env, op'.operands) == Values(s.env, op.operands)
  {
    SameValues(f, v, done, b, op.operands, s.env, s'.env);
    var r := m.eval(op.kind, Values(s.env, op.operands), s.mem);
    SameResults(f, v, done, b, k, r.0, s.env, s'.env);
  }

  lemma SameResults(f: seq<Block>, v: Value, done: set<nat>, b: nat, k: nat, vals: seq<int>, env: map<Value, int>,
                    env': map<Value, int>)
    requires SameOld(f, env, env') && Holds(f, v, done, b, env, env') && (v.block != b || b !in done)
    ensures SameOld(f, SetResults(env, b, k, vals), SetResults(env', b, k, vals))
    ensures Holds(f, v, done, b, SetResults(env, b, k, vals), SetResults(env', b, k, vals))
  {
    var next, next' := SetResults(env, b, k, vals), SetResults(env', b, k, vals);
    forall u: Value | IsOld(f, u) ensures Lookup(next', u) == Lookup(next, u) {
      LookupResults(env, b, k, vals, u);
      LookupResults(env', b, k, vals, u);
    }
    if b in done && b < |f| {
      LookupResults(env, b, k, vals, v);
      LookupResults(env', b, k, vals, Arg(b, f[b].numArgs));
    }
  }

  lemma {:induction false} SameOps(f: seq<Block>, m: Machine, v: Value, done: set<nat>, b: nat, ops: seq<Op>,
                                   ops': seq<Op>, n: nat, s: State, s': State)
    requires b < |f| && s.block == b && Related(f, v, done, s, s') && n <= |ops| == |ops'|
    requires forall k: nat :: k < |ops| ==> OldUses(f, ops[k]) && ops'[k] == InsteadOp(f, v, done, b, ops[k])
    requires v.block != b || b !in done
    ensures var t, t' := ExecOps(m, b, ops, n, s), ExecOps(m, b, ops', n, s');
            Related(f, v, done, t, t') && t.block == b && t.halted == s.halted
  {
    if n > 0 {
      SameOps(f, m, v, done, b, ops, ops', n - 1, s, s');
      SameOp(f, m, v, done, b, n - 1, ops[n - 1], ops'[n - 1], ExecOps(m, b, ops, n - 1, s),
             ExecOps(m, b, ops', n - 1, s'));
    }
  }

  /** Branching to a block that needs the value sets its argument to the value. */
  lemma SameArgs(f: seq<Block>, v: Value, done: set<nat>, b: nat, t: nat, vals: seq<int>, vals': seq<int>,
                 env: map<Value, int>, env': map<Value, int>)
    requires b < |f| && t < |f| && SameOld(f, env, env') && |vals| == f[t].numArgs
    requires vals' == if t in done then vals + [Lookup(env, v)] else vals
    requires t in done ==> t != v.block
    ensures SameOld(f, SetArgs(env, t, vals), SetArgs(env', t, vals'))
    ensures Holds(f, v, done, t, SetArgs(env, t, vals), SetArgs(env', t, vals'))
  {
    var next, next' := SetArgs(env, t, vals), SetArgs(env', t, vals');
    forall u: Value | IsOld(f, u) ensures Lookup(next', u) == Lookup(next, u) {
      LookupArgs(env, t, vals, u);
      LookupArgs(env', t, vals', u);
    }
    if t in done {
      LookupArgs(env, t, vals, v);
      LookupArgs(env', t, vals', Arg(t, f[t].numArgs));
    }
  }

  /** The values that an edge passes. */
  lemma SameEdge(f: seq<Block>, v: Value, done: set<nat>, passed: set<(nat, nat)>, b: nat, e: nat, env: map<Value, int>,
                 env': map<Value, int>)
    requires IsWellFormed(f) && IsComplete(f, v, done, passed) && b < |f| && Exists(f, v)
    requires SameOld(f, env, env') && Holds(f, v, done, b, env, env') && e < |f[b].term.edges|
    ensures |Rewritten(f, v, done, passed)| == |f| && e < |Rewritten(f, v, done, passed)[b].term.edges|
    ensures var edge, edge' := f[b].term.edges[e], Rewritten(f, v, done, passed)[b].term.edges[e];
            && edge'.target == edge.target
            && Values(env', edge'.args) ==
               if edge.target in done then Values(env, edge.args) + [Lookup(env, v)] else Values(env, edge.args)
  {
    RewrittenBlock(f, v, done, passed, b);
    BlockHasOldUses(f, b);
    var edge := f[b].term.edges[e];
    assert HasEdge(f, b, edge.target);
    var args := if edge.target in done then edge.args + [v] else edge.args;
    assert Rewritten(f, v, done, passed)[b].term.edges[e].args == Instead(f, v, done, b, args);
    forall u | u in args ensures IsOld(f, u) {
      assert u == v || OpUses(f[b].term, u);
    }
    SameValues(f, v, done, b, args, env, env');
    if edge.target in done {
      assert Values(env, args) == Values(env, edge.args) + [Lookup(env, v)];
    }
  }

  lemma SameTerm(f: seq<Block>, m: Machine, v: Value, done: set<nat>, passed: set<(nat, nat)>, b: nat, k: nat, s: State,
                 s': State)
    requires IsWellFormed(f) && IsComplete(f, v, done, passed) && b < |f| && Exists(f, v)
    requires s.block == b && Related(f, v, done, s, s')
    ensures |Rewritten(f, v, done, passed)| == |f|
    ensures Related(f, v, done, ExecTerm(m, b, k, f[b].term, s),
                    ExecTerm(m, b, k, Rewritten(f, v, done, passed)[b].term, s'))
  {
    var term, term' := f[b].term, Rewritten(f, v, done, passed)[b].term;
    RewrittenBlock(f, v, done, passed, b);
    BlockHasOldUses(f, b);
    DefinerDoesNotNeed(f, v);
    SameOp(f, m, v, done, b, k, term, term', s, s');
    if term.edges != [] {
      var e := m.choose(term.kind, Values(s.env, term.operands), s.mem) % |term.edges|;
      var t, t' := ExecOp(m, b, k, term, s), ExecOp(m, b, k, term', s');
      SameEdge(f, v, done, passed, b, e, t.env, t'.env);
      assert EdgeOk(f, term.edges[e]);
      SameArgs(f, v, done, b, term.edges[e].target, Values(t.env, term.edges[e].args),
               Values(t'.env, term'.edges[e].args), t.env, t'.env);
    }
  }

  lemma SameBlock(f: seq<Block>, m: Machine, v: Value, done: set<nat>, passed: set<(nat, nat)>, s: State, s': State)
    requires IsWellFormed(f) && IsComplete(f, v, done, passed) && Exists(f, v) && Related(f, v, done, s, s')
    ensures Related(f, v, done, ExecBlock(f, m, s), ExecBlock(Rewritten(f, v, done, passed), m, s'))
  {
    var g := Rewritten(f, v, done, passed);
    if !s.halted && s.block < |f| {
      var b := s.block;
      RewrittenBlock(f, v, done, passed, b);
      BlockHasOldUses(f, b);
      DefinerDoesNotNeed(f, v);
      var n := |f[b].ops|;
      SameOps(f, m, v, done, b, f[b].ops, g[b].ops, n, s, s');
      SameTerm(f, m, v, done, passed, b, n, ExecOps(m, b, f[b].ops, n, s), ExecOps(m, b, g[b].ops, n, s'));
    }
  }

  lemma SameRunOf(f: seq<Block>, g: seq<Block>, m: Machine, v: Value, done: set<nat>, passed: set<(nat, nat)>, s: State,
                  n: nat)
    requires IsWellFormed(f) && IsComplete(f, v, done, passed) && Exists(f, v) && g == Rewritten(f, v, done, passed)
    requires s.block !in done
    ensures Related(f, v, done, Run(f, m, s, n), Run(g, m, s, n))
  {
    var related := (t, t') => Related(f, v, done, t, t');
    var step, step' := t => ExecBlock(f, m, t), t => ExecBlock(g, m, t);
    forall t, t' | related(t, t') ensures related(step(t), step'(t')) {
      SameBlock(f, m, v, done, passed, t, t');
    }
    assert Related(f, v, done, s, s);
    IterateKeeps(step, step', related, s, n);
    assert Run(f, m, s, n) == Iterate(step, s, n) && Run(g, m, s, n) == Iterate(step', s, n);
  }

  /** Every execution of the region is preserved, also through loops that define the value again. */
  lemma RewritingKeepsRuns(f: seq<Block>, v: Value, done: set<nat>, passed: set<(nat, nat)>)
    requires IsWellFormed(f) && IsComplete(f, v, done, passed) && Exists(f, v) && RespectsDominance(f)
    ensures SameRuns(f, Rewritten(f, v, done, passed))
  {
    EntryDoesNotNeed(f, v);
    var g := Rewritten(f, v, done, passed);
    forall m, inputs, mem, n: nat ensures SameRun(f, g, m, inputs, mem, n) {
      SameRunOf(f, g, m, v, done, passed, Start(inputs, mem), n);
    }
  }
}
