/** The constraints of an exported module, and what the module computes. */
module Equivalence {
  import opened BitVectors
  import opened LogicExpressions
  import opened Netlists
  import opened LogicExport

  // ---------------------------------------------------------------------------------------------
  // Every solution is what the module computes
  // ---------------------------------------------------------------------------------------------

  lemma MemberHolds(model: Model, cs: seq<Constraint>, c: Constraint)
    requires Satisfies(model, cs) && c in cs
    ensures Holds(model, c)
  {
    var i: nat :| i < |cs| && cs[i] == c;
  }

  lemma PrefixSatisfied(model: Model, cs: seq<Constraint>, cs': seq<Constraint>)
    requires Satisfies(model, cs') && cs <= cs'
    ensures Satisfies(model, cs)
  {
    forall i: nat | i < |cs| ensures Holds(model, cs[i]) {
      assert cs'[i] == cs[i];
    }
  }

  lemma LastConstraint(v: nat, e: Expr, s: Scope)
    requires v in s.table
    ensures Equal(s.table[v], e) in Equate(v, e, s).constraints
  {
    var cs := Equate(v, e, s).constraints;
    assert cs[|cs| - 1] == Equal(s.table[v], e);
  }

  lemma MemberStays(s: Scope, s': Scope, c: Constraint)
    requires Extends(s, s') && c in s.constraints
    ensures c in s'.constraints
  {
    var i: nat :| i < |s.constraints| && s.constraints[i] == c;
    assert s'.constraints[i] == c;
  }

  lemma {:induction false} EquatedIsConstrained(mod: Module, vs: seq<nat>, es: seq<Expr>, s: Scope, i: nat)
    requires AreValues(mod, vs) && |es| == |vs| && i < |vs|
    ensures var s' := EquateAll(mod, vs, es, s);
            vs[i] in s'.table && Equal(s'.table[vs[i]], es[i]) in s'.constraints
  {
    var n := |vs| - 1;
    var s1 := EquateAll(mod, vs[..n], es[..n], s);
    var s2 := Fetch(mod, vs[n], s1);
    var s' := Equate(vs[n], es[n], s2);
    if i < n {
      EquatedIsConstrained(mod, vs[..n], es[..n], s, i);
      assert vs[..n][i] == vs[i] && es[..n][i] == es[i];
      MemberStays(s1, s', Equal(s1.table[vs[i]], es[i]));
    } else {
      LastConstraint(vs[n], es[n], s2);
    }
  }

  lemma CombConstraint(mods: Design, m: nat, op: Op, s: Scope, s': Scope)
    requires StepOk(mods, m, op) && op.Comb? && Extends(Step(mods, m, op, s), s')
    ensures AllIn(op.operands, s') && op.result in s'.table && op.result < |mods[m].widths|
    ensures AreValues(mods[m], op.operands)
    ensures Equal(s'.table[op.result], Build(op.kind, mods[m].widths[op.result], Exprs(s', op.operands),
                                             WidthsOf(mods[m], op.operands))) in s'.constraints
  {
    var mod := mods[m];
    assert Results(op)[0] == op.result;
    var s1 := FetchAll(mod, op.operands, s);
    var s2 := Fetch(mod, op.result, s1);
    var e := Build(op.kind, mod.widths[op.result], Exprs(s1, op.operands), WidthsOf(mod, op.operands));
    var s3 := Equate(op.result, e, s2);
    LastConstraint(op.result, e, s2);
    MemberStays(s3, s', Equal(s2.table[op.result], e));
    ExtendsTransitive(s1, s3, s');
    ExtendedExprs(s1, s', op.operands);
  }

  lemma ConstantConstraint(mods: Design, m: nat, op: Op, s: Scope, s': Scope)
    requires StepOk(mods, m, op) && op.Constant? && Extends(Step(mods, m, op, s), s')
    ensures op.result in s'.table
    ensures s'.table[op.result] == Numeral(op.bits) || Equal(s'.table[op.result], Numeral(op.bits)) in s'.constraints
  {
    assert Results(op)[0] == op.result;
    if op.result in s.table {
      LastConstraint(op.result, Numeral(op.bits), s);
      MemberStays(Step(mods, m, op, s), s', Equal(s.table[op.result], Numeral(op.bits)));
    }
  }

  lemma ArgConstraint(mods: Design, m: nat, op: Op, s: Scope, s': Scope, i: nat)
    requires StepOk(mods, m, op) && op.Instance? && Extends(Step(mods, m, op, s), s') && i < |op.args|
    ensures var sub := Export(mods, op.callee, s.symbols, s.constraints);
            && i < mods[op.callee].inputs && sub.constraints <= s'.constraints
            && op.args[i] in s'.table
            && Equal(s'.table[op.args[i]], Exprs(sub, Inputs(mods[op.callee]))[i]) in s'.constraints
  {
    var sub := Export(mods, op.callee, s.symbols, s.constraints);
    var s1 := Passed(mods, m, op, s);
    InstanceStep(mods, m, op, s);
    ExtendsTransitive(s1, Step(mods, m, op, s), s');
    ExtendsTransitive(Entered(mods, m, op, s), s1, s');
    var es := Exprs(sub, Inputs(mods[op.callee]));
    EquatedIsConstrained(mods[m], op.args, es, Entered(mods, m, op, s), i);
    MemberStays(s1, s', Equal(s1.table[op.args[i]], es[i]));
  }

  lemma ResultConstraint(mods: Design, m: nat, op: Op, s: Scope, s': Scope, j: nat)
    requires StepOk(mods, m, op) && op.Instance? && Extends(Step(mods, m, op, s), s') && j < |op.results|
    ensures var sub := Export(mods, op.callee, s.symbols, s.constraints);
            && j < |Outputs(mods[op.callee].ops)| && sub.constraints <= s'.constraints
            && op.results[j] in s'.table
            && Equal(s'.table[op.results[j]], Exprs(sub, Outputs(mods[op.callee].ops))[j]) in s'.constraints
  {
    var sub := Export(mods, op.callee, s.symbols, s.constraints);
    var s1, s2 := Passed(mods, m, op, s), Step(mods, m, op, s);
    InstanceStep(mods, m, op, s);
    ExtendsTransitive(Entered(mods, m, op, s), s1, s2);
    ExtendsTransitive(Entered(mods, m, op, s), s2, s');
    var es := Exprs(sub, Outputs(mods[op.callee].ops));
    EquatedIsConstrained(mods[m], op.results, es, s1, j);
    MemberStays(s2, s', Equal(s2.table[op.results[j]], es[j]));
  }

  /** The value of the inputs in a solution. */
  ghost function InputsIn(mods: Design, m: nat, model: Model, s: Scope): seq<Bits>
    requires m < |mods| && AllIn(Inputs(mods[m]), s)
  {
    EvalAll(model, Exprs(s, Inputs(mods[m])))
  }

  /** A solution for an exported module, with inputs of the right widths. */
  ghost predicate IsSolution(mods: Design, m: nat, symbols: seq<nat>, cs: seq<Constraint>, model: Model,
                             ins: seq<Bits>) {
    && m < |mods| && Supported(mods, m)
    && var s := Export(mods, m, symbols, cs);
       Satisfies(model, s.constraints) && ins == InputsIn(mods, m, model, s) && AreInputs(mods[m], ins)
  }

  ghost predicate IsSound(mods: Design, m: nat, symbols: seq<nat>, cs: seq<Constraint>, model: Model, ins: seq<Bits>,
                          v: nat)
    requires m < |mods| && Supported(mods, m) && AreInputs(mods[m], ins) && v < |mods[m].widths|
  {
    var s := Export(mods, m, symbols, cs);
    v in s.table && Eval(model, s.table[v]) == ValueOf(mods, m, ins, v)
  }

  lemma StepInExport(mods: Design, m: nat, symbols: seq<nat>, cs: seq<Constraint>, k: nat)
    requires m < |mods| && Supported(mods, m) && k < |mods[m].ops|
    ensures StepOk(mods, m, mods[m].ops[k])
    ensures Extends(Step(mods, m, mods[m].ops[k], After(mods, m, symbols, cs, k)), Export(mods, m, symbols, cs))
  {
    AfterStep(mods, m, symbols, cs, k);
    AfterExtends(mods, m, symbols, cs, k + 1, |mods[m].ops|);
  }

  lemma InputSound(mods: Design, m: nat, symbols: seq<nat>, cs: seq<Constraint>, model: Model, ins: seq<Bits>, v: nat)
    requires IsSolution(mods, m, symbols, cs, model, ins) && v < mods[m].inputs
    ensures v < |mods[m].widths| && IsSound(mods, m, symbols, cs, model, ins, v)
  {
    var s := Export(mods, m, symbols, cs);
    assert Inputs(mods[m])[v] == v;
    assert Exprs(s, Inputs(mods[m]))[v] == s.table[v];
  }

  lemma CombSound(mods: Design, m: nat, symbols: seq<nat>, cs: seq<Constraint>, model: Model, ins: seq<Bits>, k: nat)
    requires IsSolution(mods, m, symbols, cs, model, ins) && k < |mods[m].ops| && mods[m].ops[k].Comb?
    requires forall u <- mods[m].ops[k].operands ::
               u < |mods[m].widths| && IsSound(mods, m, symbols, cs, model, ins, u)
    ensures var r := mods[m].ops[k].result;
            r < |mods[m].widths| && IsSound(mods, m, symbols, cs, model, ins, r)
  {
    var op, s := mods[m].ops[k], Export(mods, m, symbols, cs);
    StepInExport(mods, m, symbols, cs, k);
    CombConstraint(mods, m, op, After(mods, m, symbols, cs, k), s);
    CombValue(mods, m, ins, k);
    var es, vals := Exprs(s, op.operands), ValuesOf(mods, m, ins, op.operands);
    forall i | 0 <= i < |es| ensures EvalAll(model, es)[i] == vals[i] {
      assert op.operands[i] in op.operands;
    }
    assert EvalAll(model, es) == vals;
    var w, ws := mods[m].widths[op.result], WidthsOf(mods[m], op.operands);
    BuildIsApply(model, op.kind, w, es, ws);
    MemberHolds(model, s.constraints, Equal(s.table[op.result], Build(op.kind, w, es, ws)));
  }

  lemma ConstantSound(mods: Design, m: nat, symbols: seq<nat>, cs: seq<Constraint>, model: Model, ins: seq<Bits>,
                      k: nat)
    requires IsSolution(mods, m, symbols, cs, model, ins) && k < |mods[m].ops| && mods[m].ops[k].Constant?
    ensures var r := mods[m].ops[k].result;
            r < |mods[m].widths| && IsSound(mods, m, symbols, cs, model, ins, r)
  {
    var op, s := mods[m].ops[k], Export(mods, m, symbols, cs);
    StepInExport(mods, m, symbols, cs, k);
    ConstantConstraint(mods, m, op, After(mods, m, symbols, cs, k), s);
    ConstantValue(mods, m, ins, k);
    if s.table[op.result] != Numeral(op.bits) {
      MemberHolds(model, s.constraints, Equal(s.table[op.result], Numeral(op.bits)));
    }
  }

  /** The inputs of an instance are its arguments. */
  lemma InstancePassed(mods: Design, m: nat, symbols: seq<nat>, cs: seq<Constraint>, model: Model, ins: seq<Bits>,
                       k: nat)
    requires IsSolution(mods, m, symbols, cs, model, ins) && k < |mods[m].ops| && mods[m].ops[k].Instance?
    requires forall u <- mods[m].ops[k].args ::
               u < |mods[m].widths| && IsSound(mods, m, symbols, cs, model, ins, u)
    ensures var op, s := mods[m].ops[k], After(mods, m, symbols, cs, k);
            && op.callee < m && AreValues(mods[m], op.args)
            && IsSolution(mods, op.callee, s.symbols, s.constraints, model, ValuesOf(mods, m, ins, op.args))
  {
    var op, s, s' := mods[m].ops[k], After(mods, m, symbols, cs, k), Export(mods, m, symbols, cs);
    StepInExport(mods, m, symbols, cs, k);
    InstanceInputs(mods, m, ins, k);
    InstanceStep(mods, m, op, s);
    var c, sub := op.callee, Export(mods, op.callee, s.symbols, s.constraints);
    var ins', vals := InputsIn(mods, c, model, sub), ValuesOf(mods, m, ins, op.args);
    forall i | 0 <= i < |op.args| ensures ins'[i] == vals[i] {
      ArgConstraint(mods, m, op, s, s', i);
      MemberHolds(model, s'.constraints, Equal(s'.table[op.args[i]], Exprs(sub, Inputs(mods[c]))[i]));
      assert op.args[i] in op.args;
    }
    assert ins' == vals;
    assert Extends(sub, Scope(s'.symbols, s'.constraints, sub.table)) by {
      ExtendsTransitive(Entered(mods, m, op, s), Passed(mods, m, op, s), Step(mods, m, op, s));
      ExtendsTransitive(Entered(mods, m, op, s), Step(mods, m, op, s), s');
    }
    PrefixSatisfied(model, sub.constraints, s'.constraints);
  }

  lemma ResultSound(mods: Design, m: nat, symbols: seq<nat>, cs: seq<Constraint>, model: Model, ins: seq<Bits>,
                    k: nat, j: nat)
    requires IsSolution(mods, m, symbols, cs, model, ins) && k < |mods[m].ops| && mods[m].ops[k].Instance?
    requires j < |mods[m].ops[k].results| && mods[m].ops[k].callee < m && AreValues(mods[m], mods[m].ops[k].args)
    requires var op, s := mods[m].ops[k], After(mods, m, symbols, cs, k);
             && AreInputs(mods[op.callee], ValuesOf(mods, m, ins, op.args)) && Supported(mods, op.callee)
             && AreValues(mods[op.callee], Outputs(mods[op.callee].ops))
             && forall o <- Outputs(mods[op.callee].ops) ::
                  IsSound(mods, op.callee, s.symbols, s.constraints, model, ValuesOf(mods, m, ins, op.args), o)
    ensures var r := mods[m].ops[k].results[j];
            r < |mods[m].widths| && IsSound(mods, m, symbols, cs, model, ins, r)
  {
    var op, s, s' := mods[m].ops[k], After(mods, m, symbols, cs, k), Export(mods, m, symbols, cs);
    StepInExport(mods, m, symbols, cs, k);
    ResultConstraint(mods, m, op, s, s', j);
    InstanceValue(mods, m, ins, k, j);
    var c, sub := op.callee, Export(mods, op.callee, s.symbols, s.constraints);
    var outs := Outputs(mods[c].ops);
    assert outs[j] in outs;
    assert IsSound(mods, c, s.symbols, s.constraints, model, ValuesOf(mods, m, ins, op.args), outs[j]);
    MemberHolds(model, s'.constraints, Equal(s'.table[op.results[j]], Exprs(sub, outs)[j]));
  }

  /** In every solution, all values are what the module computes. */
  lemma {:induction false} Sound(mods: Design, m: nat, symbols: seq<nat>, cs: seq<Constraint>, model: Model,
                                 ins: seq<Bits>,
                                 v: nat)
    requires IsSolution(mods, m, symbols, cs, model, ins) && v < |mods[m].widths|
    ensures IsSound(mods, m, symbols, cs, model, ins, v)
    decreases m, 1, if v < |mods[m].levels| then mods[m].levels[v] else 0
  {
    var mod := mods[m];
    if v < mod.inputs {
      InputSound(mods, m, symbols, cs, model, ins, v);
    } else {
      DefinedBy(mods, m, v);
      var k := Definer(mod.ops, v);
      var op := mod.ops[k];
      forall u | u in Operands(op) ensures u < |mod.widths| && IsSound(mods, m, symbols, cs, model, ins, u) {
        Sound(mods, m, symbols, cs, model, ins, u);
      }
      match op
      case Comb(_, _, _, operands) => CombSound(mods, m, symbols, cs, model, ins, k);
      case Constant(_, _) => ConstantSound(mods, m, symbols, cs, model, ins, k);
      case Instance(_, _, results) => InstanceSound(mods, m, symbols, cs, model, ins, k, IndexOf(results, v));
    }
  }

  lemma InstanceSound(mods: Design, m: nat, symbols: seq<nat>, cs: seq<Constraint>, model: Model, ins: seq<Bits>,
                      k: nat,
                      j: nat)
    requires IsSolution(mods, m, symbols, cs, model, ins) && k < |mods[m].ops| && mods[m].ops[k].Instance?
    requires forall u <- mods[m].ops[k].args ::
               u < |mods[m].widths| && IsSound(mods, m, symbols, cs, model, ins, u)
    requires j < |mods[m].ops[k].results|
    ensures var r := mods[m].ops[k].results[j];
            r < |mods[m].widths| && IsSound(mods, m, symbols, cs, model, ins, r)
    decreases m, 0, 0
  {
    var op, s := mods[m].ops[k], After(mods, m, symbols, cs, k);
    InstancePassed(mods, m, symbols, cs, model, ins, k);
    var vals := ValuesOf(mods, m, ins, op.args);
    InputsAreValues(mods, op.callee);
    forall o | o in Outputs(mods[op.callee].ops)
      ensures IsSound(mods, op.callee, s.symbols, s.constraints, model, vals, o)
    {
      Sound(mods, op.callee, s.symbols, s.constraints, model, vals, o);
    }
    ResultSound(mods, m, symbols, cs, model, ins, k, j);
  }

  /** In every solution, the outputs are what the module computes. */
  lemma OutputsAreSound(mods: Design, m: nat, symbols: seq<nat>, cs: seq<Constraint>, model: Model, ins: seq<Bits>)
    requires IsSolution(mods, m, symbols, cs, model, ins)
    ensures EvalAll(model, Exprs(Export(mods, m, symbols, cs), Outputs(mods[m].ops))) == OutputsOf(mods, m, ins)
  {
    var outs := Outputs(mods[m].ops);
    InputsAreValues(mods, m);
    forall j | 0 <= j < |outs|
      ensures EvalAll(model, Exprs(Export(mods, m, symbols, cs), outs))[j] == OutputsOf(mods, m, ins)[j]
    {
      Sound(mods, m, symbols, cs, model, ins, outs[j]);
    }
  }
}
