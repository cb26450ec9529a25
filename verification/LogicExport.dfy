/** The symbols and constraints that exporting a module adds to the solver, as functions of the module. */
module LogicExport {
  import opened BitVectors
  import opened LogicExpressions
  import opened Netlists

  /** The widths of the solver's symbols, its constraints, and the expressions of a circuit's values. */
  datatype Scope = Scope(symbols: seq<nat>, constraints: seq<Constraint>, table: map<nat, Expr>)

  ghost predicate Extends(s: Scope, s': Scope) {
    && s.symbols <= s'.symbols && s.constraints <= s'.constraints
    && forall v <- s.table :: v in s'.table && s'.table[v] == s.table[v]
  }

  ghost predicate AllIn(vs: seq<nat>, s: Scope) {
    forall i :: 0 <= i < |vs| ==> vs[i] in s.table
  }

  function Exprs(s: Scope, vs: seq<nat>): (es: seq<Expr>)
    requires AllIn(vs, s)
    ensures |es| == |vs|
  {
    seq(|vs|, i requires 0 <= i < |vs| => s.table[vs[i]])
  }

  /** `fetchOrAllocateExpr` */
  ghost function Fetch(mod: Module, v: nat, s: Scope): (s': Scope)
    requires v < |mod.widths|
    ensures Extends(s, s') && v in s'.table && s'.table.Keys == s.table.Keys + {v} && s'.constraints == s.constraints
  {
    if v in s.table then s else Scope(s.symbols + [mod.widths[v]], s.constraints,
                                            s.table[v := Symbol(|s.symbols|, mod.widths[v])])
  }

  ghost function FetchAll(mod: Module, vs: seq<nat>, s: Scope): (s': Scope)
    requires AreValues(mod, vs)
    ensures Extends(s, s') && AllIn(vs, s') && s'.constraints == s.constraints
  {
    if vs == [] then s else
      var n := |vs| - 1;
      Fetch(mod, vs[n], FetchAll(mod, vs[..n], s))
  }

  ghost function Equate(v: nat, e: Expr, s: Scope): (s': Scope)
    requires v in s.table
    ensures Extends(s, s') && s'.table == s.table
  {
    s.(constraints := s.constraints + [Equal(s.table[v], e)])
  }

  /** Fetches the values one after the other, each being constrained to an expression. */
  ghost function EquateAll(mod: Module, vs: seq<nat>, es: seq<Expr>, s: Scope): (s': Scope)
    requires AreValues(mod, vs) && |es| == |vs|
    ensures Extends(s, s') && AllIn(vs, s')
  {
    if vs == [] then s else
      var n := |vs| - 1;
      Equate(vs[n], es[n], Fetch(mod, vs[n], EquateAll(mod, vs[..n], es[..n], s)))
  }

  predicate OpSupported(op: Op) {
    match op
    case Comb(kind, twoState, _, _) =>
      (twoState || kind.Concat? || kind.Extract? || kind.Replicate?) && kind != ICmp(NState)
    case Unsupported => false
    case _ => true
  }

  /** All operations are supported, in the modules instantiated, too. */
  ghost predicate Supported(mods: Design, m: nat)
    decreases m
  {
    m < |mods| && forall k: nat :: k < |mods[m].ops| ==> SupportedOp(mods, m, mods[m].ops[k])
  }

  ghost predicate SupportedOp(mods: Design, m: nat, op: Op)
    decreases m, 0
  {
    OpSupported(op) && (op.Instance? ==> op.callee < m && Supported(mods, op.callee))
  }

  ghost predicate StepOk(mods: Design, m: nat, op: Op) {
    m < |mods| && ModuleOk(mods, m) && OpOk(mods, m, op) && SupportedOp(mods, m, op)
  }

  lemma StepIsOk(mods: Design, m: nat, k: nat)
    requires m < |mods| && Supported(mods, m) && k < |mods[m].ops|
    ensures StepOk(mods, m, mods[m].ops[k])
  {
    assert ModuleOk(mods, m);
    assert OpOk(mods, m, mods[m].ops[k]) && SupportedOp(mods, m, mods[m].ops[k]);
  }

  lemma InputsAreValues(mods: Design, m: nat)
    requires m < |mods|
    ensures AreValues(mods[m], Inputs(mods[m])) && AreValues(mods[m], Outputs(mods[m].ops))
  {
    assert ModuleOk(mods, m);
  }

  /** Exports one operation. */
  ghost function Step(mods: Design, m: nat, op: Op, s: Scope): (s': Scope)
    requires StepOk(mods, m, op)
    ensures Extends(s, s') && AllIn(Results(op), s') && AllIn(Operands(op), s')
    decreases m, 1, 0
  {
    var mod := mods[m];
    match op
    case Constant(r, bits) =>
      assert Results(op)[0] == r;
      if r in s.table then Equate(r, Numeral(bits), s) else s.(table := s.table[r := Numeral(bits)])
    case Comb(kind, _, r, operands) =>
      assert Results(op)[0] == r;
      var s1 := FetchAll(mod, operands, s);
      var e := Build(kind, mod.widths[r], Exprs(s1, operands), WidthsOf(mod, operands));
      Equate(r, e, Fetch(mod, r, s1))
    case Instance(c, args, results) =>
      var sub := Export(mods, c, s.symbols, s.constraints);
      assert |WidthsOf(mod, args)| == mods[c].inputs && |WidthsOf(mod, results)| == |Outputs(mods[c].ops)|;
      var s1 := EquateAll(mod, args, Exprs(sub, Inputs(mods[c])), Scope(sub.symbols, sub.constraints, s.table));
      EquateAll(mod, results, Exprs(sub, Outputs(mods[c].ops)), s1)
    case Output(operands) => FetchAll(mod, operands, s)
    case Unsupported => assert false; s
  }

  /** Exports the first `k` operations. */
  ghost function After(mods: Design, m: nat, symbols: seq<nat>, constraints: seq<Constraint>, k: nat): (s: Scope)
    requires m < |mods| && Supported(mods, m) && k <= |mods[m].ops|
    ensures Extends(Scope(symbols, constraints, map[]), s) && AllIn(Inputs(mods[m]), s)
    decreases m, 2, k
  {
    InputsAreValues(mods, m);
    if k == 0 then
      FetchAll(mods[m], Inputs(mods[m]), Scope(symbols, constraints, map[]))
    else
      var s1 := After(mods, m, symbols, constraints, k - 1);
      StepIsOk(mods, m, k - 1);
      var s2 := Step(mods, m, mods[m].ops[k - 1], s1);
      ExtendsTransitive(Scope(symbols, constraints, map[]), s1, s2);
      AllInStays(s1, s2, Inputs(mods[m]));
      s2
  }

  lemma {:induction false} OutputsAreIn(mods: Design, m: nat, symbols: seq<nat>, constraints: seq<Constraint>, k: nat)
    requires m < |mods| && Supported(mods, m) && k <= |mods[m].ops|
    ensures AllIn(Outputs(mods[m].ops[..k]), After(mods, m, symbols, constraints, k))
    decreases m, 3, k
  {
    var ops := mods[m].ops;
    if k > 0 {
      assert ops[..k][..k - 1] == ops[..k - 1];
      OutputsAreIn(mods, m, symbols, constraints, k - 1);
      StepIsOk(mods, m, k - 1);
      var s1 := After(mods, m, symbols, constraints, k - 1);
      var s2 := Step(mods, m, ops[k - 1], s1);
      AllInStays(s1, s2, Outputs(ops[..k - 1]));
      LastOutputs(ops[..k]);
    }
  }

  lemma LastOutputs(ops: seq<Op>)
    requires ops != []
    ensures Outputs(ops) ==
            Outputs(ops[..|ops| - 1]) + (if ops[|ops| - 1].Output? then Operands(ops[|ops| - 1]) else [])
  {
  }

  lemma AllInStays(s: Scope, s': Scope, vs: seq<nat>)
    requires Extends(s, s') && AllIn(vs, s)
    ensures AllIn(vs, s')
  {
  }

  lemma ExtendsTransitive(s0: Scope, s1: Scope, s2: Scope)
    requires Extends(s0, s1) && Extends(s1, s2)
    ensures Extends(s0, s2)
  {
  }

  /** Exports a module. */
  ghost function Export(mods: Design, m: nat, symbols: seq<nat>, constraints: seq<Constraint>): (s: Scope)
    requires m < |mods| && Supported(mods, m)
    ensures Extends(Scope(symbols, constraints, map[]), s)
    ensures AllIn(Inputs(mods[m]), s) && AllIn(Outputs(mods[m].ops), s)
    decreases m, 4, 0
  {
    assert ModuleOk(mods, m);
    assert mods[m].ops[..|mods[m].ops|] == mods[m].ops;
    OutputsAreIn(mods, m, symbols, constraints, |mods[m].ops|);
    After(mods, m, symbols, constraints, |mods[m].ops|)
  }

  // ---------------------------------------------------------------------------------------------
  // What stays
  // ---------------------------------------------------------------------------------------------

  lemma AfterStep(mods: Design, m: nat, symbols: seq<nat>, constraints: seq<Constraint>, k: nat)
    requires m < |mods| && Supported(mods, m) && k < |mods[m].ops|
    ensures StepOk(mods, m, mods[m].ops[k])
    ensures After(mods, m, symbols, constraints, k + 1) ==
            Step(mods, m, mods[m].ops[k], After(mods, m, symbols, constraints, k))
  {
    StepIsOk(mods, m, k);
  }

  lemma NextExtends(mods: Design, m: nat, symbols: seq<nat>, constraints: seq<Constraint>, k: nat)
    requires m < |mods| && Supported(mods, m) && k < |mods[m].ops|
    ensures Extends(After(mods, m, symbols, constraints, k), After(mods, m, symbols, constraints, k + 1))
  {
    AfterStep(mods, m, symbols, constraints, k);
  }

  lemma {:induction false} AfterExtends(mods: Design, m: nat, symbols: seq<nat>, constraints: seq<Constraint>, j: nat,
                                        k: nat)
    requires m < |mods| && Supported(mods, m) && j <= k <= |mods[m].ops|
    ensures Extends(After(mods, m, symbols, constraints, j), After(mods, m, symbols, constraints, k))
    decreases k
  {
    if j < k {
      AfterExtends(mods, m, symbols, constraints, j, k - 1);
      NextExtends(mods, m, symbols, constraints, k - 1);
      ExtendsTransitive(After(mods, m, symbols, constraints, j), After(mods, m, symbols, constraints, k - 1),
                        After(mods, m, symbols, constraints, k));
    }
  }

  lemma ExtendedExprs(s: Scope, s': Scope, vs: seq<nat>)
    requires Extends(s, s') && AllIn(vs, s)
    ensures AllIn(vs, s') && Exprs(s', vs) == Exprs(s, vs)
  {
  }

  /** An expression of a value of width `w`. */
  predicate EntryOk(e: Expr, w: nat, symbols: seq<nat>) {
    (e.Symbol? && e.id < |symbols| && symbols[e.id] == e.width == w) || (e.Numeral? && |e.bits| == w)
  }

  ghost predicate TableOk(mod: Module, s: Scope) {
    forall v: nat :: v in s.table ==> v < |mod.widths| && EntryOk(s.table[v], mod.widths[v], s.symbols)
  }

  ghost predicate ScopeOk(mod: Module, s: Scope) {
    TableOk(mod, s) && ConstraintsBelow(s.constraints, |s.symbols|)
  }

  lemma ConstraintsBelowMore(cs: seq<Constraint>, n: nat, n': nat)
    requires ConstraintsBelow(cs, n) && n <= n'
    ensures ConstraintsBelow(cs, n')
  {
    forall i: nat | i < |cs| ensures ConstraintBelow(cs[i], n') {
      assert ConstraintBelow(cs[i], n);
      match cs[i]
      case Equal(l, r) => BelowMore(l, n, n'); BelowMore(r, n, n');
      case AnyDiffers(ls, rs) =>
        forall j: nat | j < |ls| ensures SymbolsBelow(ls[j], n') { BelowMore(ls[j], n, n'); }
        forall j: nat | j < |rs| ensures SymbolsBelow(rs[j], n') { BelowMore(rs[j], n, n'); }
    }
  }

  lemma FetchScope(mod: Module, v: nat, s: Scope)
    requires v < |mod.widths| && ScopeOk(mod, s)
    ensures ScopeOk(mod, Fetch(mod, v, s))
  {
    ConstraintsBelowMore(s.constraints, |s.symbols|, |Fetch(mod, v, s).symbols|);
  }

  lemma {:induction false} FetchAllScope(mod: Module, vs: seq<nat>, s: Scope)
    requires AreValues(mod, vs) && ScopeOk(mod, s)
    ensures ScopeOk(mod, FetchAll(mod, vs, s))
  {
    if vs != [] {
      var n := |vs| - 1;
      FetchAllScope(mod, vs[..n], s);
      FetchScope(mod, vs[n], FetchAll(mod, vs[..n], s));
    }
  }

  lemma EquateScope(mod: Module, v: nat, e: Expr, s: Scope)
    requires v in s.table && ScopeOk(mod, s) && SymbolsBelow(e, |s.symbols|)
    ensures ScopeOk(mod, Equate(v, e, s))
  {
  }

  lemma {:induction false} EquateAllScope(mod: Module, vs: seq<nat>, es: seq<Expr>, s: Scope)
    requires AreValues(mod, vs) && |es| == |vs| && ScopeOk(mod, s) && AllSymbolsBelow(es, |s.symbols|)
    ensures ScopeOk(mod, EquateAll(mod, vs, es, s))
  {
    if vs != [] {
      var n := |vs| - 1;
      EquateAllScope(mod, vs[..n], es[..n], s);
      var s1 := EquateAll(mod, vs[..n], es[..n], s);
      var s2 := Fetch(mod, vs[n], s1);
      FetchScope(mod, vs[n], s1);
      BelowMore(es[n], |s.symbols|, |s2.symbols|);
      EquateScope(mod, vs[n], es[n], s2);
    }
  }

  lemma ExprsBelow(mod: Module, s: Scope, vs: seq<nat>)
    requires TableOk(mod, s) && AllIn(vs, s)
    ensures AllSymbolsBelow(Exprs(s, vs), |s.symbols|)
  {
    forall i: nat | i < |vs| ensures SymbolsBelow(Exprs(s, vs)[i], |s.symbols|) {
      assert vs[i] in s.table;
    }
  }

  lemma AllBelowMore(es: seq<Expr>, n: nat, n': nat)
    requires AllSymbolsBelow(es, n) && n <= n'
    ensures AllSymbolsBelow(es, n')
  {
    forall i: nat | i < |es| ensures SymbolsBelow(es[i], n') {
      BelowMore(es[i], n, n');
    }
  }

  lemma {:induction false} StepScope(mods: Design, m: nat, op: Op, s: Scope)
    requires StepOk(mods, m, op) && ScopeOk(mods[m], s)
    ensures ScopeOk(mods[m], Step(mods, m, op, s))
    decreases m, 1, 0
  {
    var mod := mods[m];
    match op
    case Constant(r, bits) =>
    case Comb(kind, _, r, operands) =>
      var s1 := FetchAll(mod, operands, s);
      var s2 := Fetch(mod, r, s1);
      FetchAllScope(mod, operands, s);
      FetchScope(mod, r, s1);
      ExprsBelow(mod, s1, operands);
      AllBelowMore(Exprs(s1, operands), |s1.symbols|, |s2.symbols|);
      BuildBelow(kind, mod.widths[r], Exprs(s1, operands), WidthsOf(mod, operands), |s2.symbols|);
      EquateScope(mod, r, Build(kind, mod.widths[r], Exprs(s1, operands), WidthsOf(mod, operands)), s2);
    case Instance(c, args, results) => InstanceScope(mods, m, op, s);
    case Output(operands) => FetchAllScope(mod, operands, s);
  }

  /** The scope after the module of an instance has been exported, and after its arguments have been equated. */
  ghost function Entered(mods: Design, m: nat, op: Op, s: Scope): Scope
    requires StepOk(mods, m, op) && op.Instance?
  {
    var sub := Export(mods, op.callee, s.symbols, s.constraints);
    Scope(sub.symbols, sub.constraints, s.table)
  }

  ghost function Passed(mods: Design, m: nat, op: Op, s: Scope): Scope
    requires StepOk(mods, m, op) && op.Instance?
  {
    var sub := Export(mods, op.callee, s.symbols, s.constraints);
    assert |WidthsOf(mods[m], op.args)| == mods[op.callee].inputs;
    EquateAll(mods[m], op.args, Exprs(sub, Inputs(mods[op.callee])), Entered(mods, m, op, s))
  }

  lemma InstanceStep(mods: Design, m: nat, op: Op, s: Scope)
    requires StepOk(mods, m, op) && op.Instance?
    ensures var sub := Export(mods, op.callee, s.symbols, s.constraints);
            && |op.results| == |Outputs(mods[op.callee].ops)| && |op.args| == mods[op.callee].inputs
            && AreValues(mods[m], op.results) && AreValues(mods[m], op.args)
            && Step(mods, m, op, s) ==
               EquateAll(mods[m], op.results, Exprs(sub, Outputs(mods[op.callee].ops)), Passed(mods, m, op, s))
            && Extends(s, Entered(mods, m, op, s))
            && Extends(Entered(mods, m, op, s), Passed(mods, m, op, s))
            && Extends(Passed(mods, m, op, s), Step(mods, m, op, s))
  {
    assert |WidthsOf(mods[m], op.args)| == mods[op.callee].inputs;
    assert |WidthsOf(mods[m], op.results)| == |Outputs(mods[op.callee].ops)|;
  }

  lemma InstanceScope(mods: Design, m: nat, op: Op, s: Scope)
    requires StepOk(mods, m, op) && op.Instance? && ScopeOk(mods[m], s)
    ensures ScopeOk(mods[m], Step(mods, m, op, s)) && ScopeOk(mods[m], Passed(mods, m, op, s))
    ensures ScopeOk(mods[m], Entered(mods, m, op, s))
    decreases m, 0, 0
  {
    var c := op.callee;
    var sub := Export(mods, c, s.symbols, s.constraints);
    var s0, s1 := Entered(mods, m, op, s), Passed(mods, m, op, s);
    InstanceStep(mods, m, op, s);
    ExportScope(mods, c, s.symbols, s.constraints);
    ExprsBelow(mods[c], sub, Inputs(mods[c]));
    ExprsBelow(mods[c], sub, Outputs(mods[c].ops));
    EnteredScope(mods[m], s, s0);
    EquateAllScope(mods[m], op.args, Exprs(sub, Inputs(mods[c])), s0);
    AllBelowMore(Exprs(sub, Outputs(mods[c].ops)), |s0.symbols|, |s1.symbols|);
    EquateAllScope(mods[m], op.results, Exprs(sub, Outputs(mods[c].ops)), s1);
  }

  lemma EnteredScope(mod: Module, s: Scope, s0: Scope)
    requires TableOk(mod, s) && s0.table == s.table && s.symbols <= s0.symbols
    requires ConstraintsBelow(s0.constraints, |s0.symbols|)
    ensures ScopeOk(mod, s0)
  {
  }

  lemma AfterInputs(mods: Design, m: nat, symbols: seq<nat>, constraints: seq<Constraint>)
    requires m < |mods| && Supported(mods, m)
    ensures AreValues(mods[m], Inputs(mods[m]))
    ensures After(mods, m, symbols, constraints, 0) ==
            FetchAll(mods[m], Inputs(mods[m]), Scope(symbols, constraints, map[]))
  {
    InputsAreValues(mods, m);
  }

  lemma NextScope(mods: Design, m: nat, symbols: seq<nat>, constraints: seq<Constraint>, k: nat, s: Scope, s': Scope)
    requires m < |mods| && Supported(mods, m) && 0 < k <= |mods[m].ops|
    requires s == After(mods, m, symbols, constraints, k - 1) && s' == After(mods, m, symbols, constraints, k)
    requires ScopeOk(mods[m], s)
    ensures ScopeOk(mods[m], s')
    decreases m, 2, 0
  {
    AfterStep(mods, m, symbols, constraints, k - 1);
    StepScope(mods, m, mods[m].ops[k - 1], s);
  }

  lemma FirstScope(mods: Design, m: nat, symbols: seq<nat>, constraints: seq<Constraint>)
    requires m < |mods| && Supported(mods, m) && ConstraintsBelow(constraints, |symbols|)
    ensures ScopeOk(mods[m], After(mods, m, symbols, constraints, 0))
  {
    AfterInputs(mods, m, symbols, constraints);
    FetchAllScope(mods[m], Inputs(mods[m]), Scope(symbols, constraints, map[]));
  }

  lemma {:induction false} AfterScope(mods: Design, m: nat, symbols: seq<nat>, constraints: seq<Constraint>, k: nat)
    requires m < |mods| && Supported(mods, m) && k <= |mods[m].ops|
    requires ConstraintsBelow(constraints, |symbols|)
    ensures ScopeOk(mods[m], After(mods, m, symbols, constraints, k))
    decreases m, 2, k
  {
    if k == 0 {
      FirstScope(mods, m, symbols, constraints);
    } else {
      LaterScope(mods, m, symbols, constraints, k);
    }
  }

  lemma {:induction false} LaterScope(mods: Design, m: nat, symbols: seq<nat>, constraints: seq<Constraint>, k: nat)
    requires m < |mods| && Supported(mods, m) && 0 < k <= |mods[m].ops|
    requires ConstraintsBelow(constraints, |symbols|)
    ensures ScopeOk(mods[m], After(mods, m, symbols, constraints, k))
    decreases m, 2, k, 0
  {
    AfterScope(mods, m, symbols, constraints, k - 1);
    NextScope(mods, m, symbols, constraints, k, After(mods, m, symbols, constraints, k - 1),
              After(mods, m, symbols, constraints, k));
  }

  lemma ExportScope(mods: Design, m: nat, symbols: seq<nat>, constraints: seq<Constraint>)
    requires m < |mods| && Supported(mods, m) && ConstraintsBelow(constraints, |symbols|)
    ensures ScopeOk(mods[m], Export(mods, m, symbols, constraints))
    decreases m, 3, 0
  {
    assert ModuleOk(mods, m);
    AfterScope(mods, m, symbols, constraints, |mods[m].ops|);
  }
}
