/** Every input has exactly one solution, and unsatisfiable comparisons mean equivalent circuits. */
module Solutions {
  import opened BitVectors
  import opened LogicExpressions
  import opened Netlists
  import opened LogicExport
  import opened Equivalence

  /** A model gives each symbol a value of its width. */
  ghost predicate IsTypedModel(model: Model, symbols: seq<nat>) {
    forall id: nat :: id < |symbols| ==> |Value(model, id)| == symbols[id]
  }

  // ---------------------------------------------------------------------------------------------
  // Every input has a solution
  // ---------------------------------------------------------------------------------------------

  ghost predicate TableIs(mods: Design, m: nat, ins: seq<Bits>, model: Model, s: Scope)
    requires m < |mods| && AreInputs(mods[m], ins)
  {
    forall v: nat :: v in s.table ==>
      v < |mods[m].widths| && Eval(model, s.table[v]) == ValueOf(mods, m, ins, v)
  }

  /** The model satisfies the constraints so far, and gives the values so far what the module computes. */
  ghost predicate Models(mods: Design, m: nat, ins: seq<Bits>, model: Model, s: Scope) {
    && m < |mods| && AreInputs(mods[m], ins) && ScopeOk(mods[m], s)
    && IsTypedModel(model, s.symbols) && Satisfies(model, s.constraints) && TableIs(mods, m, ins, model, s)
  }

  lemma TableAgrees(mods: Design, m: nat, ins: seq<Bits>, model: Model, model': Model, s: Scope)
    requires m < |mods| && AreInputs(mods[m], ins) && TableOk(mods[m], s) && TableIs(mods, m, ins, model, s)
    requires AgreeBelow(model, model', |s.symbols|)
    ensures TableIs(mods, m, ins, model', s)
  {
    forall v: nat | v in s.table ensures Eval(model', s.table[v]) == ValueOf(mods, m, ins, v) {
      assert EntryOk(s.table[v], mods[m].widths[v], s.symbols);
      EvalAgrees(model, model', s.table[v], |s.symbols|);
    }
  }

  lemma FetchModels(mods: Design, m: nat, ins: seq<Bits>, v: nat, model: Model, s: Scope) returns (model': Model)
    requires Models(mods, m, ins, model, s) && v < |mods[m].widths|
    ensures Models(mods, m, ins, model', Fetch(mods[m], v, s)) && AgreeBelow(model, model', |s.symbols|)
  {
    FetchScope(mods[m], v, s);
    if v in s.table {
      model' := model;
    } else {
      model' := model[|s.symbols| := ValueOf(mods, m, ins, v)];
      NewSymbolModels(mods, m, ins, v, model, s, model');
    }
  }

  lemma NewSymbolModels(mods: Design, m: nat, ins: seq<Bits>, v: nat, model: Model, s: Scope, model': Model)
    requires Models(mods, m, ins, model, s) && v < |mods[m].widths| && v !in s.table
    requires ScopeOk(mods[m], Fetch(mods[m], v, s)) && model' == model[|s.symbols| := ValueOf(mods, m, ins, v)]
    ensures Models(mods, m, ins, model', Fetch(mods[m], v, s)) && AgreeBelow(model, model', |s.symbols|)
  {
    var s' := Fetch(mods[m], v, s);
    assert AgreeBelow(model, model', |s.symbols|);
    SatisfiesAgrees(model, model', s.constraints, |s.symbols|);
    TableAgrees(mods, m, ins, model, model', s);
    assert IsTypedModel(model', s'.symbols);
    assert TableIs(mods, m, ins, model', s');
  }

  lemma {:induction false} FetchAllModels(mods: Design, m: nat, ins: seq<Bits>, vs: seq<nat>, model: Model, s: Scope)
    returns (model': Model)
    requires Models(mods, m, ins, model, s) && AreValues(mods[m], vs)
    ensures Models(mods, m, ins, model', FetchAll(mods[m], vs, s)) && AgreeBelow(model, model', |s.symbols|)
  {
    if vs == [] {
      model' := model;
    } else {
      var n := |vs| - 1;
      var s1 := FetchAll(mods[m], vs[..n], s);
      var model1 := FetchAllModels(mods, m, ins, vs[..n], model, s);
      model' := FetchModels(mods, m, ins, vs[n], model1, s1);
    }
  }

  lemma EquateModels(mods: Design, m: nat, ins: seq<Bits>, v: nat, e: Expr, model: Model, s: Scope)
    requires Models(mods, m, ins, model, s) && v in s.table && SymbolsBelow(e, |s.symbols|)
    requires v < |mods[m].widths| && Eval(model, e) == ValueOf(mods, m, ins, v)
    ensures Models(mods, m, ins, model, Equate(v, e, s))
  {
    EquateScope(mods[m], v, e, s);
  }

  lemma {:induction false} EquateAllModels(mods: Design, m: nat, ins: seq<Bits>, vs: seq<nat>, es: seq<Expr>,
                                           model: Model, s: Scope) returns (model': Model)
    requires Models(mods, m, ins, model, s) && AreValues(mods[m], vs) && |es| == |vs|
    requires AllSymbolsBelow(es, |s.symbols|)
    requires forall i :: 0 <= i < |vs| ==> Eval(model, es[i]) == ValueOf(mods, m, ins, vs[i])
    ensures Models(mods, m, ins, model', EquateAll(mods[m], vs, es, s)) && AgreeBelow(model, model', |s.symbols|)
  {
    if vs == [] {
      model' := model;
    } else {
      var n := |vs| - 1;
      var s1 := EquateAll(mods[m], vs[..n], es[..n], s);
      var s2 := Fetch(mods[m], vs[n], s1);
      var model1 := EquateAllModels(mods, m, ins, vs[..n], es[..n], model, s);
      model' := FetchModels(mods, m, ins, vs[n], model1, s1);
      EvalAgrees(model, model', es[n], |s.symbols|);
      BelowMore(es[n], |s.symbols|, |s2.symbols|);
      EquateModels(mods, m, ins, vs[n], es[n], model', s2);
    }
  }

  lemma ConstantModels(mods: Design, m: nat, ins: seq<Bits>, k: nat, model: Model, s: Scope)
    requires Models(mods, m, ins, model, s) && k < |mods[m].ops| && mods[m].ops[k].Constant?
    requires StepOk(mods, m, mods[m].ops[k])
    ensures Models(mods, m, ins, model, Step(mods, m, mods[m].ops[k], s))
  {
    var op := mods[m].ops[k];
    StepScope(mods, m, op, s);
    ConstantValue(mods, m, ins, k);
    if op.result in s.table {
      EquateModels(mods, m, ins, op.result, Numeral(op.bits), model, s);
    } else {
      NumeralModels(mods, m, ins, op.result, op.bits, model, s);
    }
  }

  lemma NumeralModels(mods: Design, m: nat, ins: seq<Bits>, v: nat, bits: Bits, model: Model, s: Scope)
    requires Models(mods, m, ins, model, s) && v < |mods[m].widths| && v !in s.table
    requires bits == ValueOf(mods, m, ins, v)
    ensures Models(mods, m, ins, model, s.(table := s.table[v := Numeral(bits)]))
  {
  }

  lemma CombModels(mods: Design, m: nat, ins: seq<Bits>, k: nat, model: Model, s: Scope) returns (model': Model)
    requires Models(mods, m, ins, model, s) && k < |mods[m].ops| && mods[m].ops[k].Comb?
    requires StepOk(mods, m, mods[m].ops[k])
    ensures Models(mods, m, ins, model', Step(mods, m, mods[m].ops[k], s)) && AgreeBelow(model, model', |s.symbols|)
  {
    var mod, op := mods[m], mods[m].ops[k];
    CombValue(mods, m, ins, k);
    var s1 := FetchAll(mod, op.operands, s);
    var s2 := Fetch(mod, op.result, s1);
    var model1 := FetchAllModels(mods, m, ins, op.operands, model, s);
    model' := FetchModels(mods, m, ins, op.result, model1, s1);
    var es, ws := Exprs(s1, op.operands), WidthsOf(mod, op.operands);
    ExtendedExprs(s1, s2, op.operands);
    ExprsAre(mods, m, ins, op.operands, model', s2);
    ExprsBelow(mod, s2, op.operands);
    BuildIsApply(model', op.kind, mod.widths[op.result], es, ws);
    BuildBelow(op.kind, mod.widths[op.result], es, ws, |s2.symbols|);
    EquateModels(mods, m, ins, op.result, Build(op.kind, mod.widths[op.result], es, ws), model', s2);
  }

  lemma ExprsAre(mods: Design, m: nat, ins: seq<Bits>, vs: seq<nat>, model: Model, s: Scope)
    requires Models(mods, m, ins, model, s) && AllIn(vs, s)
    ensures AreValues(mods[m], vs) && EvalAll(model, Exprs(s, vs)) == ValuesOf(mods, m, ins, vs)
  {
    forall i | 0 <= i < |vs|
      ensures vs[i] < |mods[m].widths| && EvalAll(model, Exprs(s, vs))[i] == ValueOf(mods, m, ins, vs[i])
    {
      assert vs[i] in s.table;
    }
  }

  lemma EnteredModels(mods: Design, m: nat, op: Op, ins: seq<Bits>, model: Model, model1: Model, s: Scope,
                      vals: seq<Bits>)
    requires Models(mods, m, ins, model, s) && StepOk(mods, m, op) && op.Instance?
    requires AgreeBelow(model, model1, |s.symbols|)
    requires Models(mods, op.callee, vals, model1, Export(mods, op.callee, s.symbols, s.constraints))
    ensures Models(mods, m, ins, model1, Entered(mods, m, op, s))
  {
    InstanceScope(mods, m, op, s);
    TableAgrees(mods, m, ins, model, model1, s);
  }

  lemma InstanceModels(mods: Design, m: nat, ins: seq<Bits>, k: nat, model: Model, s: Scope) returns (model': Model)
    requires Models(mods, m, ins, model, s) && k < |mods[m].ops| && mods[m].ops[k].Instance?
    requires StepOk(mods, m, mods[m].ops[k])
    ensures Models(mods, m, ins, model', Step(mods, m, mods[m].ops[k], s)) && AgreeBelow(model, model', |s.symbols|)
    decreases m, 0, 0
  {
    var op := mods[m].ops[k];
    var c := op.callee;
    InstanceInputs(mods, m, ins, k);
    InstanceStep(mods, m, op, s);
    var vals := ValuesOf(mods, m, ins, op.args);
    var sub := Export(mods, c, s.symbols, s.constraints);
    var model1 := ExportModels(mods, c, s.symbols, s.constraints, vals, model);
    EnteredModels(mods, m, op, ins, model, model1, s, vals);
    InputsAreVals(mods, c, vals, model1, sub);
    ExprsBelow(mods[c], sub, Inputs(mods[c]));
    var model2 := EquateAllModels(mods, m, ins, op.args, Exprs(sub, Inputs(mods[c])), model1, Entered(mods, m, op, s));
    model' := ResultModels(mods, m, ins, k, model1, model2, s);
  }

  lemma InputsAreVals(mods: Design, m: nat, ins: seq<Bits>, model: Model, s: Scope)
    requires Models(mods, m, ins, model, s) && AllIn(Inputs(mods[m]), s)
    ensures forall i :: 0 <= i < mods[m].inputs ==> Eval(model, Exprs(s, Inputs(mods[m]))[i]) == ins[i]
    ensures InputsIn(mods, m, model, s) == ins
  {
    forall i: nat | i < mods[m].inputs ensures Eval(model, Exprs(s, Inputs(mods[m]))[i]) == ins[i] {
      assert Inputs(mods[m])[i] == i;
      assert i in s.table;
    }
  }

  lemma ResultModels(mods: Design, m: nat, ins: seq<Bits>, k: nat, model1: Model, model2: Model, s: Scope)
    returns (model': Model)
    requires m < |mods| && AreInputs(mods[m], ins)
    requires k < |mods[m].ops| && mods[m].ops[k].Instance? && StepOk(mods, m, mods[m].ops[k])
    requires AreValues(mods[m], mods[m].ops[k].args)
    requires var op := mods[m].ops[k];
             && Models(mods, op.callee, ValuesOf(mods, m, ins, op.args), model1,
                       Export(mods, op.callee, s.symbols, s.constraints))
             && Models(mods, m, ins, model2, Passed(mods, m, op, s))
             && AgreeBelow(model1, model2, |Entered(mods, m, op, s).symbols|)
    ensures Models(mods, m, ins, model', Step(mods, m, mods[m].ops[k], s))
    ensures AgreeBelow(model2, model', |Passed(mods, m, mods[m].ops[k], s).symbols|)
  {
    var op, c := mods[m].ops[k], mods[m].ops[k].callee;
    InstanceStep(mods, m, op, s);
    var vals, sub := ValuesOf(mods, m, ins, op.args), Export(mods, c, s.symbols, s.constraints);
    var es := Exprs(sub, Outputs(mods[c].ops));
    ExprsAre(mods, c, vals, Outputs(mods[c].ops), model1, sub);
    ExprsBelow(mods[c], sub, Outputs(mods[c].ops));
    AllBelowMore(es, |sub.symbols|, |Passed(mods, m, op, s).symbols|);
    forall j | 0 <= j < |op.results| ensures Eval(model2, es[j]) == ValueOf(mods, m, ins, op.results[j]) {
      EvalAgrees(model1, model2, es[j], |sub.symbols|);
      InstanceValue(mods, m, ins, k, j);
      assert EvalAll(model1, es)[j] == ValuesOf(mods, c, vals, Outputs(mods[c].ops))[j];
    }
    model' := EquateAllModels(mods, m, ins, op.results, es, model2, Passed(mods, m, op, s));
  }

  lemma StepModels(mods: Design, m: nat, ins: seq<Bits>, k: nat, model: Model, s: Scope) returns (model': Model)
    requires Models(mods, m, ins, model, s) && k < |mods[m].ops| && StepOk(mods, m, mods[m].ops[k])
    ensures Models(mods, m, ins, model', Step(mods, m, mods[m].ops[k], s)) && AgreeBelow(model, model', |s.symbols|)
    decreases m, 1, 0
  {
    match mods[m].ops[k]
    case Constant(_, _) => ConstantModels(mods, m, ins, k, model, s); model' := model;
    case Comb(_, _, _, _) => model' := CombModels(mods, m, ins, k, model, s);
    case Instance(_, _, _) => model' := InstanceModels(mods, m, ins, k, model, s);
    case Output(operands) => model' := FetchAllModels(mods, m, ins, operands, model, s);
  }

  lemma FirstModels(mods: Design, m: nat, symbols: seq<nat>, cs: seq<Constraint>, ins: seq<Bits>, model: Model)
    returns (model': Model)
    requires m < |mods| && Supported(mods, m) && AreInputs(mods[m], ins)
    requires ConstraintsBelow(cs, |symbols|) && IsTypedModel(model, symbols) && Satisfies(model, cs)
    ensures Models(mods, m, ins, model', After(mods, m, symbols, cs, 0)) && AgreeBelow(model, model', |symbols|)
  {
    AfterInputs(mods, m, symbols, cs);
    assert Models(mods, m, ins, model, Scope(symbols, cs, map[]));
    model' := FetchAllModels(mods, m, ins, Inputs(mods[m]), model, Scope(symbols, cs, map[]));
  }

  /** Some extension of the model gives the values after `k` operations what the module computes. */
  ghost predicate HasModel(mods: Design, m: nat, symbols: seq<nat>, cs: seq<Constraint>, ins: seq<Bits>, model: Model,
                           k: nat)
    requires m < |mods| && Supported(mods, m) && k <= |mods[m].ops|
  {
    exists model': Model ::
      Models(mods, m, ins, model', After(mods, m, symbols, cs, k)) && AgreeBelow(model, model', |symbols|)
  }

  lemma NextModels(mods: Design, m: nat, symbols: seq<nat>, cs: seq<Constraint>, ins: seq<Bits>, model: Model, k: nat,
                   next: nat)
    requires m < |mods| && Supported(mods, m) && next == k + 1 <= |mods[m].ops|
    requires HasModel(mods, m, symbols, cs, ins, model, k)
    ensures HasModel(mods, m, symbols, cs, ins, model, next)
    decreases m, 2, 0
  {
    var s := After(mods, m, symbols, cs, k);
    var model1: Model :| Models(mods, m, ins, model1, s) && AgreeBelow(model, model1, |symbols|);
    AfterStep(mods, m, symbols, cs, k);
    var model2 := StepModels(mods, m, ins, k, model1, s);
    assert AgreeBelow(model, model2, |symbols|);
    assert Models(mods, m, ins, model2, After(mods, m, symbols, cs, k + 1));
  }

  lemma {:induction false} AfterModels(mods: Design, m: nat, symbols: seq<nat>, cs: seq<Constraint>, ins: seq<Bits>,
                                       model: Model, k: nat)
    requires m < |mods| && Supported(mods, m) && k <= |mods[m].ops|
    requires HasModel(mods, m, symbols, cs, ins, model, 0)
    ensures HasModel(mods, m, symbols, cs, ins, model, k)
    decreases m, 3, k
  {
    if k > 0 {
      AfterModels(mods, m, symbols, cs, ins, model, k - 1);
      NextModels(mods, m, symbols, cs, ins, model, k - 1, k);
    }
  }

  /** Every input has a solution, which extends any solution of earlier constraints. */
  lemma ExportModels(mods: Design, m: nat, symbols: seq<nat>, cs: seq<Constraint>, ins: seq<Bits>, model: Model)
    returns (model': Model)
    requires m < |mods| && Supported(mods, m) && AreInputs(mods[m], ins)
    requires ConstraintsBelow(cs, |symbols|) && IsTypedModel(model, symbols) && Satisfies(model, cs)
    ensures Models(mods, m, ins, model', Export(mods, m, symbols, cs)) && AgreeBelow(model, model', |symbols|)
    ensures IsSolution(mods, m, symbols, cs, model', ins)
    decreases m, 4, 0
  {
    var model0 := FirstModels(mods, m, symbols, cs, ins, model);
    AfterModels(mods, m, symbols, cs, ins, model, |mods[m].ops|);
    model' :| Models(mods, m, ins, model', After(mods, m, symbols, cs, |mods[m].ops|))
              && AgreeBelow(model, model', |symbols|);
    InputsAreVals(mods, m, ins, model', Export(mods, m, symbols, cs));
  }

  // ---------------------------------------------------------------------------------------------
  // There is only one
  // ---------------------------------------------------------------------------------------------

  /** The models agree on the symbols from `low` to `high`. */
  ghost predicate Same(model: Model, model': Model, low: nat, high: nat) {
    forall id: nat :: low <= id < high ==> Value(model, id) == Value(model', id)
  }

  /** Two solutions for the same input. */
  ghost predicate AreSolutions(mods: Design, m: nat, symbols: seq<nat>, cs: seq<Constraint>, model: Model,
                               model': Model,
                               ins: seq<Bits>) {
    IsSolution(mods, m, symbols, cs, model, ins) && IsSolution(mods, m, symbols, cs, model', ins)
  }

  lemma FetchSame(mods: Design, m: nat, symbols: seq<nat>, cs: seq<Constraint>, model: Model, model': Model,
                  ins: seq<Bits>, v: nat, s: Scope)
    requires AreSolutions(mods, m, symbols, cs, model, model', ins) && v < |mods[m].widths|
    requires Extends(Fetch(mods[m], v, s), Export(mods, m, symbols, cs))
    ensures Same(model, model', |s.symbols|, |Fetch(mods[m], v, s).symbols|)
  {
    Sound(mods, m, symbols, cs, model, ins, v);
    Sound(mods, m, symbols, cs, model', ins, v);
  }

  lemma {:induction false} FetchAllSame(mods: Design, m: nat, symbols: seq<nat>, cs: seq<Constraint>, model: Model,
                                        model': Model, ins: seq<Bits>, vs: seq<nat>, s: Scope)
    requires AreSolutions(mods, m, symbols, cs, model, model', ins) && AreValues(mods[m], vs)
    requires Extends(FetchAll(mods[m], vs, s), Export(mods, m, symbols, cs))
    ensures Same(model, model', |s.symbols|, |FetchAll(mods[m], vs, s).symbols|)
  {
    if vs != [] {
      var n := |vs| - 1;
      var s1 := FetchAll(mods[m], vs[..n], s);
      ExtendsTransitive(s1, FetchAll(mods[m], vs, s), Export(mods, m, symbols, cs));
      FetchAllSame(mods, m, symbols, cs, model, model', ins, vs[..n], s);
      FetchSame(mods, m, symbols, cs, model, model', ins, vs[n], s1);
    }
  }

  lemma {:induction false} EquateAllSame(mods: Design, m: nat, symbols: seq<nat>, cs: seq<Constraint>, model: Model,
                                         model': Model, ins: seq<Bits>, vs: seq<nat>, es: seq<Expr>, s: Scope)
    requires AreSolutions(mods, m, symbols, cs, model, model', ins) && AreValues(mods[m], vs) && |es| == |vs|
    requires Extends(EquateAll(mods[m], vs, es, s), Export(mods, m, symbols, cs))
    ensures Same(model, model', |s.symbols|, |EquateAll(mods[m], vs, es, s).symbols|)
  {
    if vs != [] {
      var n := |vs| - 1;
      var s1 := EquateAll(mods[m], vs[..n], es[..n], s);
      var s2 := Fetch(mods[m], vs[n], s1);
      var s3 := EquateAll(mods[m], vs, es, s);
      assert s3 == Equate(vs[n], es[n], s2);
      ExtendsTransitive(s2, s3, Export(mods, m, symbols, cs));
      ExtendsTransitive(s1, s2, Export(mods, m, symbols, cs));
      EquateAllSame(mods, m, symbols, cs, model, model', ins, vs[..n], es[..n], s);
      FetchSame(mods, m, symbols, cs, model, model', ins, vs[n], s1);
    }
  }

  lemma CombSame(mods: Design, m: nat, symbols: seq<nat>, cs: seq<Constraint>, model: Model, model': Model,
                 ins: seq<Bits>, op: Op, s: Scope)
    requires AreSolutions(mods, m, symbols, cs, model, model', ins) && StepOk(mods, m, op) && op.Comb?
    requires Extends(Step(mods, m, op, s), Export(mods, m, symbols, cs))
    ensures Same(model, model', |s.symbols|, |Step(mods, m, op, s).symbols|)
  {
    assert Results(op)[0] == op.result;
    var s1 := FetchAll(mods[m], op.operands, s);
    var s2 := Fetch(mods[m], op.result, s1);
    ExtendsTransitive(s2, Step(mods, m, op, s), Export(mods, m, symbols, cs));
    ExtendsTransitive(s1, s2, Export(mods, m, symbols, cs));
    FetchAllSame(mods, m, symbols, cs, model, model', ins, op.operands, s);
    FetchSame(mods, m, symbols, cs, model, model', ins, op.result, s1);
  }

  lemma InstanceSame(mods: Design, m: nat, symbols: seq<nat>, cs: seq<Constraint>, model: Model, model': Model,
                     ins: seq<Bits>, k: nat)
    requires AreSolutions(mods, m, symbols, cs, model, model', ins) && k < |mods[m].ops| && mods[m].ops[k].Instance?
    requires StepOk(mods, m, mods[m].ops[k])
    requires Extends(Step(mods, m, mods[m].ops[k], After(mods, m, symbols, cs, k)), Export(mods, m, symbols, cs))
    ensures var s := After(mods, m, symbols, cs, k);
            Same(model, model', |s.symbols|, |Step(mods, m, mods[m].ops[k], s).symbols|)
    decreases m, 0, 0
  {
    var op, s, last := mods[m].ops[k], After(mods, m, symbols, cs, k), Export(mods, m, symbols, cs);
    var c := op.callee;
    var s0, s1, s2 := Entered(mods, m, op, s), Passed(mods, m, op, s), Step(mods, m, op, s);
    InstanceStep(mods, m, op, s);
    ExtendsTransitive(s1, s2, last);
    ExtendsTransitive(s0, s1, last);
    forall u | u in op.args
      ensures u < |mods[m].widths| && IsSound(mods, m, symbols, cs, model, ins, u)
      ensures IsSound(mods, m, symbols, cs, model', ins, u)
    {
      assert AreValues(mods[m], op.args);
      Sound(mods, m, symbols, cs, model, ins, u);
      Sound(mods, m, symbols, cs, model', ins, u);
    }
    InstancePassed(mods, m, symbols, cs, model, ins, k);
    InstancePassed(mods, m, symbols, cs, model', ins, k);
    var sub := Export(mods, c, s.symbols, s.constraints);
    OnlySolution(mods, c, s.symbols, s.constraints, model, model', ValuesOf(mods, m, ins, op.args));
    EquateAllSame(mods, m, symbols, cs, model, model', ins, op.args, Exprs(sub, Inputs(mods[c])), s0);
    EquateAllSame(mods, m, symbols, cs, model, model', ins, op.results, Exprs(sub, Outputs(mods[c].ops)), s1);
  }

  lemma StepSame(mods: Design, m: nat, symbols: seq<nat>, cs: seq<Constraint>, model: Model, model': Model,
                 ins: seq<Bits>, k: nat)
    requires AreSolutions(mods, m, symbols, cs, model, model', ins) && k < |mods[m].ops|
    ensures Same(model, model', |After(mods, m, symbols, cs, k).symbols|, |After(mods, m, symbols, cs, k + 1).symbols|)
    decreases m, 1, 0
  {
    var op, s := mods[m].ops[k], After(mods, m, symbols, cs, k);
    StepInExport(mods, m, symbols, cs, k);
    AfterStep(mods, m, symbols, cs, k);
    match op
    case Constant(_, _) =>
    case Comb(_, _, _, _) => CombSame(mods, m, symbols, cs, model, model', ins, op, s);
    case Instance(_, _, _) => InstanceSame(mods, m, symbols, cs, model, model', ins, k);
    case Output(operands) => FetchAllSame(mods, m, symbols, cs, model, model', ins, operands, s);
  }

  lemma FirstSame(mods: Design, m: nat, symbols: seq<nat>, cs: seq<Constraint>, model: Model, model': Model,
                  ins: seq<Bits>)
    requires AreSolutions(mods, m, symbols, cs, model, model', ins)
    ensures Same(model, model', |symbols|, |After(mods, m, symbols, cs, 0).symbols|)
  {
    AfterInputs(mods, m, symbols, cs);
    AfterExtends(mods, m, symbols, cs, 0, |mods[m].ops|);
    FetchAllSame(mods, m, symbols, cs, model, model', ins, Inputs(mods[m]), Scope(symbols, cs, map[]));
  }

  lemma {:induction false} SameChain(model: Model, model': Model, bounds: seq<nat>, k: nat)
    requires k < |bounds| && forall i: nat :: i < k ==> Same(model, model', bounds[i], bounds[i + 1])
    ensures Same(model, model', bounds[0], bounds[k])
  {
    if k > 0 {
      SameChain(model, model', bounds, k - 1);
    }
  }

  /** The numbers of symbols after each operation. */
  ghost function Bounds(mods: Design, m: nat, symbols: seq<nat>, cs: seq<Constraint>): (r: seq<nat>)
    requires m < |mods| && Supported(mods, m)
    ensures |r| == |mods[m].ops| + 1
  {
    seq(|mods[m].ops| + 1, k requires 0 <= k <= |mods[m].ops| => |After(mods, m, symbols, cs, k).symbols|)
  }

  lemma BoundSame(mods: Design, m: nat, symbols: seq<nat>, cs: seq<Constraint>, model: Model, model': Model,
                  ins: seq<Bits>, k: nat, from: nat, to: nat)
    requires AreSolutions(mods, m, symbols, cs, model, model', ins) && k < |mods[m].ops|
    requires from == Bounds(mods, m, symbols, cs)[k] && to == Bounds(mods, m, symbols, cs)[k + 1]
    ensures Same(model, model', from, to)
    decreases m, 2, 0
  {
    StepSame(mods, m, symbols, cs, model, model', ins, k);
  }

  /** Two solutions for the same input give the same values to all symbols of the module, and of those in it. */
  lemma OnlySolution(mods: Design, m: nat, symbols: seq<nat>, cs: seq<Constraint>, model: Model, model': Model,
                     ins: seq<Bits>)
    requires AreSolutions(mods, m, symbols, cs, model, model', ins)
    ensures Same(model, model', |symbols|, |Export(mods, m, symbols, cs).symbols|)
    decreases m, 3, 0
  {
    var bounds, n := Bounds(mods, m, symbols, cs), |mods[m].ops|;
    forall k: nat | k < n ensures Same(model, model', bounds[k], bounds[k + 1]) {
      BoundSame(mods, m, symbols, cs, model, model', ins, k, bounds[k], bounds[k + 1]);
    }
    SameChain(model, model', bounds, n);
    FirstSame(mods, m, symbols, cs, model, model', ins);
  }

  // ---------------------------------------------------------------------------------------------
  // Comparing two circuits
  // ---------------------------------------------------------------------------------------------

  function ExprWidth(e: Expr): nat {
    match e
    case Symbol(_, w) => w
    case Numeral(bits) => |bits|
    case _ => 0
  }

  /** Inputs and outputs of the two circuits match in number and width. */
  ghost predicate Compatible(mods: Design, m: nat, mods': Design, m': nat)
    requires m < |mods| && m' < |mods'|
  {
    InputsAreValues(mods, m);
    InputsAreValues(mods', m');
    && WidthsOf(mods[m], Inputs(mods[m])) == WidthsOf(mods'[m'], Inputs(mods'[m']))
    && WidthsOf(mods[m], Outputs(mods[m].ops)) == WidthsOf(mods'[m'], Outputs(mods'[m'].ops))
  }

  function PairwiseEqual(es: seq<Expr>, es': seq<Expr>): (cs: seq<Constraint>)
    requires |es| == |es'|
    ensures |cs| == |es|
  {
    seq(|es|, i requires 0 <= i < |es| => Equal(es[i], es'[i]))
  }

  /** The constraints of the comparison, the second circuit being exported after the first. */
  ghost function Compared(mods: Design, m: nat, mods': Design, m': nat): (s: Scope)
    requires m < |mods| && m' < |mods'| && Supported(mods, m) && Supported(mods', m') && Compatible(mods, m, mods', m')
  {
    var s := Export(mods, m, [], []);
    var s' := Export(mods', m', s.symbols, s.constraints);
    var equal := PairwiseEqual(Exprs(s, Inputs(mods[m])), Exprs(s', Inputs(mods'[m'])));
    var differ := AnyDiffers(Exprs(s, Outputs(mods[m].ops)), Exprs(s', Outputs(mods'[m'].ops)));
    Scope(s'.symbols, s'.constraints + equal + [differ], map[])
  }

  ghost predicate Unsatisfiable(s: Scope) {
    !exists model: Model :: IsTypedModel(model, s.symbols) && Satisfies(model, s.constraints)
  }

  ghost predicate SameOutputs(mods: Design, m: nat, mods': Design, m': nat, ins: seq<Bits>)
    requires m < |mods| && m' < |mods'|
  {
    AreInputs(mods[m], ins) && AreInputs(mods'[m'], ins) && OutputsOf(mods, m, ins) == OutputsOf(mods', m', ins)
  }

  /** The circuits agree on every input. */
  ghost predicate Agree(mods: Design, m: nat, mods': Design, m': nat)
    requires m < |mods| && m' < |mods'|
  {
    forall ins :: AreInputs(mods[m], ins) ==> SameOutputs(mods, m, mods', m', ins)
  }

  lemma SatisfiesSum(model: Model, cs: seq<Constraint>, cs': seq<Constraint>)
    ensures Satisfies(model, cs + cs') <==> Satisfies(model, cs) && Satisfies(model, cs')
  {
    if Satisfies(model, cs + cs') {
      forall i: nat | i < |cs| ensures Holds(model, cs[i]) { assert (cs + cs')[i] == cs[i]; }
      forall i: nat | i < |cs'| ensures Holds(model, cs'[i]) { assert (cs + cs')[|cs| + i] == cs'[i]; }
    }
  }

  lemma EqualInputs(model: Model, es: seq<Expr>, es': seq<Expr>)
    requires |es| == |es'|
    ensures Satisfies(model, PairwiseEqual(es, es')) <==> EvalAll(model, es) == EvalAll(model, es')
  {
    var cs := PairwiseEqual(es, es');
    if Satisfies(model, cs) {
      forall i: nat | i < |es| ensures Eval(model, es[i]) == Eval(model, es'[i]) {
        assert Holds(model, cs[i]);
      }
    } else {
      var i: nat :| i < |cs| && !Holds(model, cs[i]);
      assert EvalAll(model, es)[i] != EvalAll(model, es')[i];
    }
  }

  lemma DifferentOutputs(model: Model, es: seq<Expr>, es': seq<Expr>)
    requires |es| == |es'|
    ensures Satisfies(model, [AnyDiffers(es, es')]) <==> EvalAll(model, es) != EvalAll(model, es')
  {
    var c := AnyDiffers(es, es');
    assert Satisfies(model, [c]) <==> Holds(model, c) by {
      assert [c][0] == c;
    }
    forall i: nat | i < |es|
      ensures EvalAll(model, es)[i] == Eval(model, es[i]) && EvalAll(model, es')[i] == Eval(model, es'[i])
    {
    }
    if EvalAll(model, es) != EvalAll(model, es') {
      var i: nat :| i < |es| && EvalAll(model, es)[i] != EvalAll(model, es')[i];
      assert Eval(model, es[i]) != Eval(model, es'[i]);
    } else {
      forall i: nat | i < |es| ensures Eval(model, es[i]) == Eval(model, es'[i]) {
        assert EvalAll(model, es)[i] == EvalAll(model, es')[i];
      }
    }
  }

  lemma TypedInputs(mods: Design, m: nat, model: Model, s: Scope)
    requires m < |mods| && AllIn(Inputs(mods[m]), s) && TableOk(mods[m], s) && IsTypedModel(model, s.symbols)
    ensures AreInputs(mods[m], InputsIn(mods, m, model, s))
  {
    assert ModuleOk(mods, m);
    forall i: nat | i < mods[m].inputs ensures |InputsIn(mods, m, model, s)[i]| == mods[m].widths[i] {
      assert Inputs(mods[m])[i] == i;
      assert EntryOk(s.table[i], mods[m].widths[i], s.symbols);
    }
  }

  lemma CompatibleInputs(mods: Design, m: nat, mods': Design, m': nat, ins: seq<Bits>)
    requires m < |mods| && m' < |mods'| && Compatible(mods, m, mods', m') && AreInputs(mods[m], ins)
    ensures AreInputs(mods'[m'], ins)
  {
    InputsAreValues(mods, m);
    InputsAreValues(mods', m');
    assert ModuleOk(mods', m');
    forall i: nat | i < mods'[m'].inputs ensures mods'[m'].widths[i] == mods[m].widths[i] {
      assert WidthsOf(mods[m], Inputs(mods[m]))[i] == WidthsOf(mods'[m'], Inputs(mods'[m']))[i];
    }
  }

  /** A solution of the comparison is an input for which the outputs differ. */
  lemma DifferenceFound(mods: Design, m: nat, mods': Design, m': nat, model: Model) returns (ins: seq<Bits>)
    requires m < |mods| && m' < |mods'| && Supported(mods, m) && Supported(mods', m') && Compatible(mods, m, mods', m')
    requires IsTypedModel(model, Compared(mods, m, mods', m').symbols)
    requires Satisfies(model, Compared(mods, m, mods', m').constraints)
    ensures AreInputs(mods[m], ins) && !SameOutputs(mods, m, mods', m', ins)
  {
    var s := Export(mods, m, [], []);
    var s' := Export(mods', m', s.symbols, s.constraints);
    var es, es' := Exprs(s, Inputs(mods[m])), Exprs(s', Inputs(mods'[m']));
    var outs, outs' := Exprs(s, Outputs(mods[m].ops)), Exprs(s', Outputs(mods'[m'].ops));
    SatisfiesSum(model, s'.constraints + PairwiseEqual(es, es'), [AnyDiffers(outs, outs')]);
    SatisfiesSum(model, s'.constraints, PairwiseEqual(es, es'));
    EqualInputs(model, es, es');
    DifferentOutputs(model, outs, outs');
    PrefixSatisfied(model, s.constraints, s'.constraints);
    ExportScope(mods, m, [], []);
    assert IsTypedModel(model, s.symbols);
    ins := EvalAll(model, es);
    TypedInputs(mods, m, model, s);
    CompatibleInputs(mods, m, mods', m', ins);
    OutputsAreSound(mods, m, [], [], model, ins);
    OutputsAreSound(mods', m', s.symbols, s.constraints, model, ins);
  }

  /** An input for which the outputs differ is a solution of the comparison. */
  lemma DifferenceIsFound(mods: Design, m: nat, mods': Design, m': nat, ins: seq<Bits>) returns (model: Model)
    requires m < |mods| && m' < |mods'| && Supported(mods, m) && Supported(mods', m') && Compatible(mods, m, mods', m')
    requires AreInputs(mods[m], ins) && !SameOutputs(mods, m, mods', m', ins)
    ensures IsTypedModel(model, Compared(mods, m, mods', m').symbols)
    ensures Satisfies(model, Compared(mods, m, mods', m').constraints)
  {
    var s := Export(mods, m, [], []);
    var s' := Export(mods', m', s.symbols, s.constraints);
    var es, es' := Exprs(s, Inputs(mods[m])), Exprs(s', Inputs(mods'[m']));
    var outs, outs' := Exprs(s, Outputs(mods[m].ops)), Exprs(s', Outputs(mods'[m'].ops));
    CompatibleInputs(mods, m, mods', m', ins);
    var model1 := ExportModels(mods, m, [], [], ins, map[]);
    model := ExportModels(mods', m', s.symbols, s.constraints, ins, model1);
    SatisfiesAgrees(model1, model, s.constraints, |s.symbols|);
    StillSolution(mods, m, ins, model1, model);
    OutputsAreSound(mods, m, [], [], model, ins);
    OutputsAreSound(mods', m', s.symbols, s.constraints, model, ins);
    EqualInputs(model, es, es');
    DifferentOutputs(model, outs, outs');
    SatisfiesSum(model, s'.constraints, PairwiseEqual(es, es'));
    SatisfiesSum(model, s'.constraints + PairwiseEqual(es, es'), [AnyDiffers(outs, outs')]);
  }

  lemma StillSolution(mods: Design, m: nat, ins: seq<Bits>, model: Model, model': Model)
    requires IsSolution(mods, m, [], [], model, ins) && Satisfies(model', Export(mods, m, [], []).constraints)
    requires AgreeBelow(model, model', |Export(mods, m, [], []).symbols|)
    ensures IsSolution(mods, m, [], [], model', ins)
  {
    var s := Export(mods, m, [], []);
    ExportScope(mods, m, [], []);
    ExprsBelow(mods[m], s, Inputs(mods[m]));
    forall i: nat | i < mods[m].inputs ensures InputsIn(mods, m, model', s)[i] == ins[i] {
      EvalAgrees(model, model', Exprs(s, Inputs(mods[m]))[i], |s.symbols|);
    }
  }

  /** The comparison is unsatisfiable if and only if the circuits agree on every input. */
  lemma UnsatisfiableIffEquivalent(mods: Design, m: nat, mods': Design, m': nat)
    requires m < |mods| && m' < |mods'| && Supported(mods, m) && Supported(mods', m') && Compatible(mods, m, mods', m')
    ensures Unsatisfiable(Compared(mods, m, mods', m')) <==> Agree(mods, m, mods', m')
  {
    var s := Compared(mods, m, mods', m');
    if !Unsatisfiable(s) {
      var model: Model :| IsTypedModel(model, s.symbols) && Satisfies(model, s.constraints);
      var ins := DifferenceFound(mods, m, mods', m', model);
    }
    if !Agree(mods, m, mods', m') {
      var ins :| AreInputs(mods[m], ins) && !SameOutputs(mods, m, mods', m', ins);
      var model := DifferenceIsFound(mods, m, mods', m', ins);
    }
  }
}
