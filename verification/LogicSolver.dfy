/** The classes that export modules to the solver and compare two of them. */
module LogicSolver {
  import opened BitVectors
  import opened LogicExpressions
  import opened Netlists
  import opened LogicExport
  import opened Equivalence
  import opened Solutions

  // ---------------------------------------------------------------------------------------------
  // Steps of loops
  // ---------------------------------------------------------------------------------------------

  lemma FetchAllStep(mod: Module, vs: seq<nat>, i: nat, s: Scope)
    requires AreValues(mod, vs) && i < |vs|
    ensures FetchAll(mod, vs[..i + 1], s) == Fetch(mod, vs[i], FetchAll(mod, vs[..i], s))
    ensures var s1, s2 := FetchAll(mod, vs[..i], s), FetchAll(mod, vs[..i + 1], s);
            Exprs(s2, vs[..i + 1]) == Exprs(s1, vs[..i]) + [s2.table[vs[i]]]
  {
    assert vs[..i + 1][..i] == vs[..i];
  }

  lemma EquateAllStep(mod: Module, vs: seq<nat>, es: seq<Expr>, i: nat, s: Scope)
    requires AreValues(mod, vs) && |es| == |vs| && i < |vs|
    ensures EquateAll(mod, vs[..i + 1], es[..i + 1], s) ==
            Equate(vs[i], es[i], Fetch(mod, vs[i], EquateAll(mod, vs[..i], es[..i], s)))
  {
    assert vs[..i + 1][..i] == vs[..i] && es[..i + 1][..i] == es[..i];
  }

  lemma FirstOperand(mod: Module, op: BinaryOp, operands: seq<nat>, s: Scope)
    requires AreValues(mod, operands) && operands != []
    ensures var s1 := Fetch(mod, operands[0], s);
            FetchAll(mod, operands[..1], s) == s1 && Fold(op, Exprs(s1, operands[..1])) == s1.table[operands[0]]
  {
    FetchAllStep(mod, operands, 0, s);
    assert operands[..0] == [];
  }

  lemma FoldStepOf(op: BinaryOp, es: seq<Expr>, e: Expr)
    requires es != []
    ensures Fold(op, es + [e]) == Binary(op, Fold(op, es), e)
  {
    assert (es + [e])[..|es + [e]| - 1] == es;
  }

  lemma NextOperand(mod: Module, op: BinaryOp, operands: seq<nat>, i: nat, s: Scope)
    requires AreValues(mod, operands) && 0 < i < |operands|
    ensures var s1 := FetchAll(mod, operands[..i], s);
            var s2 := Fetch(mod, operands[i], s1);
            && FetchAll(mod, operands[..i + 1], s) == s2
            && Fold(op, Exprs(s2, operands[..i + 1])) == Binary(op, Fold(op, Exprs(s1, operands[..i])),
                                                                s2.table[operands[i]])
  {
    FetchAllStep(mod, operands, i, s);
    var s1 := FetchAll(mod, operands[..i], s);
    FoldStepOf(op, Exprs(s1, operands[..i]), Fetch(mod, operands[i], s1).table[operands[i]]);
  }

  /** The first `k` operations have been exported. */
  ghost predicate VisitedOk(mods: Design, m: nat, symbols: seq<nat>, constraints: seq<Constraint>, k: nat, s: Scope,
                            inputs: seq<Expr>, outputs: seq<Expr>)
    requires m < |mods| && k <= |mods[m].ops|
  {
    && (forall j: nat :: j < k ==> SupportedOp(mods, m, mods[m].ops[j]))
    && (Supported(mods, m) ==> s == After(mods, m, symbols, constraints, k))
    && PortsOk(mods[m], k, s, inputs, outputs)
  }

  ghost predicate PortsOk(mod: Module, k: nat, s: Scope, inputs: seq<Expr>, outputs: seq<Expr>)
    requires k <= |mod.ops|
  {
    && AllIn(Inputs(mod), s) && inputs == Exprs(s, Inputs(mod))
    && AllIn(Outputs(mod.ops[..k]), s) && outputs == Exprs(s, Outputs(mod.ops[..k]))
  }

  lemma PortsStep(mod: Module, k: nat, s: Scope, inputs: seq<Expr>, outputs: seq<Expr>, s': Scope, outputs': seq<Expr>)
    requires k < |mod.ops| && PortsOk(mod, k, s, inputs, outputs) && Extends(s, s') && AllIn(Operands(mod.ops[k]), s')
    requires outputs' == outputs + if mod.ops[k].Output? then Exprs(s', Operands(mod.ops[k])) else []
    ensures PortsOk(mod, k + 1, s', inputs, outputs')
  {
    ExtendedExprs(s, s', Inputs(mod));
    assert mod.ops[..k + 1] == mod.ops[..k] + [mod.ops[k]];
    OutputsStep(mod.ops[..k], mod.ops[k], s, s', outputs, outputs');
  }

  lemma VisitStarts(mods: Design, m: nat, symbols: seq<nat>, constraints: seq<Constraint>, s: Scope, inputs: seq<Expr>)
    requires m < |mods| && AreValues(mods[m], Inputs(mods[m]))
    requires s == FetchAll(mods[m], Inputs(mods[m]), Scope(symbols, constraints, map[]))
    requires inputs == Exprs(s, Inputs(mods[m]))
    ensures VisitedOk(mods, m, symbols, constraints, 0, s, inputs, [])
  {
    if Supported(mods, m) {
      AfterInputs(mods, m, symbols, constraints);
    }
    assert mods[m].ops[..0] == [];
  }

  lemma VisitStep(mods: Design, m: nat, symbols: seq<nat>, constraints: seq<Constraint>, k: nat, s: Scope,
                  inputs: seq<Expr>, outputs: seq<Expr>, s': Scope, outputs': seq<Expr>)
    requires m < |mods| && k < |mods[m].ops| && VisitedOk(mods, m, symbols, constraints, k, s, inputs, outputs)
    requires StepOk(mods, m, mods[m].ops[k]) && s' == Step(mods, m, mods[m].ops[k], s)
    requires AllIn(Operands(mods[m].ops[k]), s')
    requires outputs' == outputs + if mods[m].ops[k].Output? then Exprs(s', Operands(mods[m].ops[k])) else []
    ensures VisitedOk(mods, m, symbols, constraints, k + 1, s', inputs, outputs')
  {
    PortsStep(mods[m], k, s, inputs, outputs, s', outputs');
    if Supported(mods, m) {
      AfterStep(mods, m, symbols, constraints, k);
    }
  }

  lemma OutputsStep(ops: seq<Op>, op: Op, s: Scope, s': Scope, outputs: seq<Expr>, outputs': seq<Expr>)
    requires Extends(s, s') && AllIn(Outputs(ops), s) && outputs == Exprs(s, Outputs(ops)) && AllIn(Operands(op), s')
    requires outputs' == outputs + if op.Output? then Exprs(s', Operands(op)) else []
    ensures AllIn(Outputs(ops + [op]), s') && outputs' == Exprs(s', Outputs(ops + [op]))
  {
    ExtendedExprs(s, s', Outputs(ops));
    assert (ops + [op])[..|ops + [op]| - 1] == ops;
    LastOutputs(ops + [op]);
  }

  lemma VisitEnds(mods: Design, m: nat, symbols: seq<nat>, constraints: seq<Constraint>, s: Scope, inputs: seq<Expr>,
                  outputs: seq<Expr>)
    requires m < |mods| && VisitedOk(mods, m, symbols, constraints, |mods[m].ops|, s, inputs, outputs)
    ensures Supported(mods, m) && s == Export(mods, m, symbols, constraints)
    ensures inputs == Exprs(s, Inputs(mods[m])) && outputs == Exprs(s, Outputs(mods[m].ops))
  {
    assert mods[m].ops[..|mods[m].ops|] == mods[m].ops;
  }

  class Solver {
    // The widths of all symbols declared, and the constraints.
    var symbols: seq<nat>
    var constraints: seq<Constraint>

    constructor ()
      ensures symbols == [] && constraints == []
    {
      symbols, constraints := [], [];
    }

    method Declare(width: nat) returns (e: Expr)
      modifies this
      ensures e == Symbol(|old(symbols)|, width) && symbols == old(symbols) + [width] && constraints == old(constraints)
    {
      e := Symbol(|symbols|, width);
      symbols := symbols + [width];
    }

    method Assert(c: Constraint)
      modifies this`constraints
      ensures constraints == old(constraints) + [c]
    {
      constraints := constraints + [c];
    }

    /** Requires equal inputs and different outputs; fails if they do not match in number or width. */
    method ConstrainCircuits(c1: Circuit, c2: Circuit) returns (ok: bool)
      modifies this`constraints
      ensures ok <==> SameWidths(c1.inputs, c2.inputs) && SameWidths(c1.outputs, c2.outputs)
      ensures ok ==> constraints == old(constraints) + PairwiseEqual(c1.inputs, c2.inputs)
                                    + [AnyDiffers(c1.outputs, c2.outputs)]
    {
      if |c1.inputs| != |c2.inputs| {
        return false;
      }
      ghost var before := constraints;
      for i := 0 to |c1.inputs|
        invariant forall j: nat :: j < i ==> ExprWidth(c1.inputs[j]) == ExprWidth(c2.inputs[j])
        invariant constraints == before + PairwiseEqual(c1.inputs, c2.inputs)[..i]
      {
        if ExprWidth(c1.inputs[i]) != ExprWidth(c2.inputs[i]) {
          return false;
        }
        Assert(Equal(c1.inputs[i], c2.inputs[i]));
      }
      assert PairwiseEqual(c1.inputs, c2.inputs)[..|c1.inputs|] == PairwiseEqual(c1.inputs, c2.inputs);
      if |c1.outputs| != |c2.outputs| {
        return false;
      }
      var lefts, rights := [], [];
      for i := 0 to |c1.outputs|
        invariant forall j: nat :: j < i ==> ExprWidth(c1.outputs[j]) == ExprWidth(c2.outputs[j])
        invariant lefts == c1.outputs[..i] && rights == c2.outputs[..i]
      {
        if ExprWidth(c1.outputs[i]) != ExprWidth(c2.outputs[i]) {
          return false;
        }
        lefts := lefts + [c1.outputs[i]];
        rights := rights + [c2.outputs[i]];
      }
      assert lefts == c1.outputs && rights == c2.outputs;
      Assert(AnyDiffers(lefts, rights));
      ok := true;
    }
  }

  ghost predicate SameWidths(es: seq<Expr>, es': seq<Expr>) {
    |es| == |es'| && forall i: nat :: i < |es| ==> ExprWidth(es[i]) == ExprWidth(es'[i])
  }

  class Circuit {
    const solver: Solver
    var assignments: nat
    var inputs: seq<Expr>
    var outputs: seq<Expr>
    var exprTable: map<nat, Expr>

    constructor (solver: Solver)
      ensures this.solver == solver && assignments == 0 && inputs == [] && outputs == [] && exprTable == map[]
    {
      this.solver := solver;
      assignments, inputs, outputs, exprTable := 0, [], [], map[];
    }

    ghost function Now(): Scope
      reads this, solver
    {
      Scope(solver.symbols, solver.constraints, exprTable)
    }

    /** The expression of a value, for which a new symbol is declared if it has none yet. */
    method FetchOrAllocateExpr(mod: Module, value: nat) returns (expr: Expr)
      requires value < |mod.widths|
      modifies this`exprTable, this`assignments, solver
      ensures Now() == Fetch(mod, value, old(Now())) && expr == exprTable[value]
    {
      if value in exprTable {
        expr := exprTable[value];
      } else {
        assignments := assignments + 1;
        expr := solver.Declare(mod.widths[value]);
        exprTable := exprTable[value := expr];
      }
    }

    method ConstrainResult(mod: Module, result: nat, expr: Expr)
      requires result < |mod.widths|
      modifies this`exprTable, this`assignments, solver
      ensures Now() == Equate(result, expr, Fetch(mod, result, old(Now())))
    {
      var resExpr := FetchOrAllocateExpr(mod, result);
      solver.Assert(Equal(resExpr, expr));
    }

    method AddInput(mod: Module, value: nat)
      requires value < |mod.widths|
      modifies this`inputs, this`exprTable, this`assignments, solver
      ensures Now() == Fetch(mod, value, old(Now())) && inputs == old(inputs) + [exprTable[value]]
    {
      var input := FetchOrAllocateExpr(mod, value);
      inputs := inputs + [input];
    }

    method AddOutput(mod: Module, value: nat)
      requires value < |mod.widths|
      modifies this`outputs, this`exprTable, this`assignments, solver
      ensures Now() == Fetch(mod, value, old(Now())) && outputs == old(outputs) + [exprTable[value]]
    {
      var output := FetchOrAllocateExpr(mod, value);
      outputs := outputs + [output];
    }

    /** A constant that is used before it is defined has a symbol, which is constrained then. */
    method AllocateConstant(result: nat, bits: Bits)
      modifies this`exprTable, solver`constraints
      ensures var s := old(Now());
              Now() == if result in s.table then Equate(result, Numeral(bits), s)
                       else s.(table := s.table[result := Numeral(bits)])
    {
      if result !in exprTable {
        exprTable := exprTable[result := Numeral(bits)];
      } else {
        solver.Assert(Equal(exprTable[result], Numeral(bits)));
      }
    }

    method VariadicOperation(mod: Module, op: BinaryOp, result: nat, operands: seq<nat>)
      requires AreValues(mod, operands) && operands != [] && result < |mod.widths|
      modifies this`exprTable, this`assignments, solver
      ensures var s1 := FetchAll(mod, operands, old(Now()));
              Now() == Equate(result, Fold(op, Exprs(s1, operands)), Fetch(mod, result, s1))
    {
      ghost var s := Now();
      FirstOperand(mod, op, operands, s);
      var varOp := FetchOrAllocateExpr(mod, operands[0]);
      var i := 1;
      while i < |operands|
        invariant 1 <= i <= |operands|
        invariant Now() == FetchAll(mod, operands[..i], s)
        invariant varOp == Fold(op, Exprs(Now(), operands[..i]))
      {
        NextOperand(mod, op, operands, i, s);
        var next := FetchOrAllocateExpr(mod, operands[i]);
        varOp := Binary(op, varOp, next);
        i := i + 1;
      }
      assert operands[..i] == operands;
      ConstrainResult(mod, result, varOp);
    }

    /** Fetches operands one after the other. */
    method FetchOperands(mod: Module, operands: seq<nat>) returns (es: seq<Expr>)
      requires AreValues(mod, operands)
      modifies this`exprTable, this`assignments, solver
      ensures Now() == FetchAll(mod, operands, old(Now())) && es == Exprs(Now(), operands)
    {
      ghost var s := Now();
      es := [];
      for i := 0 to |operands|
        invariant Now() == FetchAll(mod, operands[..i], s) && es == Exprs(Now(), operands[..i])
      {
        FetchAllStep(mod, operands, i, s);
        var e := FetchOrAllocateExpr(mod, operands[i]);
        es := es + [e];
      }
      assert operands[..|operands|] == operands;
    }

    /** The exclusive or of all bits. */
    method ParityExpr(input: Expr, width: nat) returns (parity: Expr)
      requires width > 0
      ensures parity == ParityOf(input, width)
    {
      parity := Slice(0, 0, input);
      for i := 1 to width
        invariant parity == ParityOf(input, i)
      {
        parity := Binary(BvXor, parity, Slice(i, i, input));
      }
    }

    method ReplicateExpr(input: Expr, times: nat) returns (replicate: Expr)
      ensures replicate == Repeated(input, times)
    {
      replicate := input;
      var i := 1;
      while i < times
        invariant 1 <= i && (i <= times || i == 1) && replicate == Repeated(input, i)
      {
        replicate := Binary(BvConcat, replicate, input);
        i := i + 1;
      }
    }

    /** Exports a combinational operation, if it is supported. */
    method PerformComb(mods: Design, m: nat, op: Op) returns (ok: bool)
      requires m < |mods| && ModuleOk(mods, m) && OpOk(mods, m, op) && op.Comb?
      modifies this`exprTable, this`assignments, solver
      ensures ok <==> OpSupported(op)
      ensures ok ==> StepOk(mods, m, op) && Now() == Step(mods, m, op, old(Now()))
    {
      var mod := mods[m];
      ghost var s := Now();
      if !op.twoState && !op.kind.Concat? && !op.kind.Extract? && !op.kind.Replicate? {
        return false;
      }
      match op.kind
      case Add | And | Concat | Mul | Or | Sub | Xor =>
        VariadicOperation(mod, OpOf(op.kind), op.result, op.operands);
        ok := true;
      case _ =>
        var es := FetchOperands(mod, op.operands);
        if op.kind == ICmp(NState) {
          return false;
        }
        var e := FixedExpr(mod, op, es);
        ConstrainResult(mod, op.result, e);
        ok := true;
    }

    /** The expression for an operation with a fixed number of operands. */
    method FixedExpr(mod: Module, op: Op, es: seq<Expr>) returns (e: Expr)
      requires op.Comb? && AreValues(mod, op.operands) && |es| == |op.operands| && op.result < |mod.widths|
      requires IsTyped(op.kind, mod.widths[op.result], WidthsOf(mod, op.operands)) && op.kind != ICmp(NState)
      requires !(op.kind.Add? || op.kind.And? || op.kind.Concat? || op.kind.Mul? || op.kind.Or? || op.kind.Sub?
                 || op.kind.Xor?)
      ensures e == Build(op.kind, mod.widths[op.result], es, WidthsOf(mod, op.operands))
    {
      var width := mod.widths[op.result];
      var inputWidth := mod.widths[op.operands[0]];
      assert inputWidth == WidthsOf(mod, op.operands)[0];
      match op.kind
      case Shl => e := Binary(BvShl, es[0], es[1]);
      case ShrS => e := Binary(BvAshr, es[0], es[1]);
      case ShrU => e := Binary(BvLshr, es[0], es[1]);
      case Extract(low) => e := Slice(low + width - 1, low, es[0]);
      case ICmp(pred) => e := BoolToBv(pred.rel, es[0], es[1]);
      case Mux => e := BvToBool(es[0], inputWidth, es[1], es[2]);
      case Parity => e := ParityExpr(es[0], inputWidth);
      case Replicate => e := ReplicateExpr(es[0], width / inputWidth);
    }

    method EquateValues(mod: Module, vs: seq<nat>, es: seq<Expr>)
      requires AreValues(mod, vs) && |es| == |vs|
      modifies this`exprTable, this`assignments, solver
      ensures Now() == EquateAll(mod, vs, es, old(Now()))
    {
      ghost var s := Now();
      for i := 0 to |vs|
        invariant Now() == EquateAll(mod, vs[..i], es[..i], s)
      {
        EquateAllStep(mod, vs, es, i, s);
        ConstrainResult(mod, vs[i], es[i]);
      }
      assert vs[..|vs|] == vs && es[..|es|] == es;
    }

    /** Exports the module of an instance to a circuit of its own, and equates its inputs and outputs with the arguments
        and results. */
    method AddInstance(mods: Design, m: nat, op: Op) returns (ok: bool)
      requires m < |mods| && ModuleOk(mods, m) && OpOk(mods, m, op) && op.Instance?
      modifies this`exprTable, this`assignments, solver
      ensures ok <==> SupportedOp(mods, m, op)
      ensures ok ==> StepOk(mods, m, op) && Now() == Step(mods, m, op, old(Now()))
      decreases m, 0
    {
      ghost var s := Now();
      var instance := new Circuit(solver);
      ok := instance.Visit(mods, op.callee);
      if !ok {
        return;
      }
      InstanceStep(mods, m, op, s);
      assert Now() == Entered(mods, m, op, s);
      EquateValues(mods[m], op.args, instance.inputs);
      EquateValues(mods[m], op.results, instance.outputs);
    }

    method AddOutputs(mod: Module, operands: seq<nat>)
      requires AreValues(mod, operands)
      modifies this`outputs, this`exprTable, this`assignments, solver
      ensures Now() == FetchAll(mod, operands, old(Now())) && outputs == old(outputs) + Exprs(Now(), operands)
    {
      ghost var s, before := Now(), outputs;
      for i := 0 to |operands|
        invariant Now() == FetchAll(mod, operands[..i], s) && outputs == before + Exprs(Now(), operands[..i])
      {
        FetchAllStep(mod, operands, i, s);
        AddOutput(mod, operands[i]);
      }
      assert operands[..|operands|] == operands;
    }

    method AddInputs(mod: Module)
      requires mod.inputs <= |mod.widths| && inputs == []
      modifies this`inputs, this`exprTable, this`assignments, solver
      ensures AreValues(mod, Inputs(mod)) && Now() == FetchAll(mod, Inputs(mod), old(Now()))
      ensures inputs == Exprs(Now(), Inputs(mod))
    {
      ghost var s := Now();
      ghost var vs := Inputs(mod);
      for i := 0 to mod.inputs
        invariant Now() == FetchAll(mod, vs[..i], s) && inputs == Exprs(Now(), vs[..i])
      {
        FetchAllStep(mod, vs, i, s);
        AddInput(mod, i);
      }
      assert vs[..mod.inputs] == vs;
    }

    /** Exports one operation. */
    method Dispatch(mods: Design, m: nat, op: Op) returns (ok: bool)
      requires m < |mods| && ModuleOk(mods, m) && OpOk(mods, m, op)
      modifies this`outputs, this`exprTable, this`assignments, solver
      ensures ok <==> SupportedOp(mods, m, op)
      ensures ok ==> StepOk(mods, m, op) && Now() == Step(mods, m, op, old(Now()))
      ensures ok ==> AllIn(Operands(op), Now())
                     && outputs == old(outputs) + if op.Output? then Exprs(Now(), Operands(op)) else []
      decreases m, 1
    {
      match op
      case Constant(result, bits) => AllocateConstant(result, bits); ok := true;
      case Comb(_, _, _, _) => ok := PerformComb(mods, m, op);
      case Instance(_, _, _) => ok := AddInstance(mods, m, op);
      case Output(operands) => AddOutputs(mods[m], operands); ok := true;
      case Unsupported => ok := false;
    }

    method VisitOp(mods: Design, m: nat, k: nat, ghost symbols: seq<nat>, ghost constraints: seq<Constraint>)
      returns (ok: bool)
      requires m < |mods| && k < |mods[m].ops|
      requires VisitedOk(mods, m, symbols, constraints, k, Now(), inputs, outputs)
      modifies this`outputs, this`exprTable, this`assignments, solver
      ensures !ok ==> !Supported(mods, m)
      ensures ok ==> VisitedOk(mods, m, symbols, constraints, k + 1, Now(), inputs, outputs)
      decreases m, 2
    {
      var op := mods[m].ops[k];
      assert ModuleOk(mods, m) && OpOk(mods, m, op);
      ghost var before, s := outputs, Now();
      ok := Dispatch(mods, m, op);
      if ok {
        VisitStep(mods, m, symbols, constraints, k, s, inputs, before, Now(), outputs);
      }
    }

    /** Exports a module: its inputs, then its operations one after the other. */
    method Visit(mods: Design, m: nat) returns (ok: bool)
      requires m < |mods| && exprTable == map[] && inputs == [] && outputs == []
      modifies this, solver
      ensures ok <==> Supported(mods, m)
      ensures ok ==> var s := Export(mods, m, old(solver.symbols), old(solver.constraints));
                     Now() == s && inputs == Exprs(s, Inputs(mods[m])) && outputs == Exprs(s, Outputs(mods[m].ops))
      decreases m, 4
    {
      ghost var symbols, constraints := solver.symbols, solver.constraints;
      assert ModuleOk(mods, m);
      AddInputs(mods[m]);
      VisitStarts(mods, m, symbols, constraints, Now(), inputs);
      ok := VisitOps(mods, m, symbols, constraints);
      if ok {
        VisitEnds(mods, m, symbols, constraints, Now(), inputs, outputs);
      }
    }

    method VisitOps(mods: Design, m: nat, ghost symbols: seq<nat>, ghost constraints: seq<Constraint>)
      returns (ok: bool)
      requires m < |mods| && VisitedOk(mods, m, symbols, constraints, 0, Now(), inputs, outputs)
      modifies this`outputs, this`exprTable, this`assignments, solver
      ensures !ok ==> !Supported(mods, m)
      ensures ok ==> VisitedOk(mods, m, symbols, constraints, |mods[m].ops|, Now(), inputs, outputs)
      decreases m, 3
    {
      var k := 0;
      while k < |mods[m].ops|
        invariant k <= |mods[m].ops|
        invariant VisitedOk(mods, m, symbols, constraints, k, Now(), inputs, outputs)
      {
        ok := VisitOp(mods, m, k, symbols, constraints);
        if !ok {
          return;
        }
        k := k + 1;
      }
      ok := true;
    }
  }

  lemma ExprWidths(mod: Module, s: Scope, vs: seq<nat>)
    requires TableOk(mod, s) && AllIn(vs, s) && AreValues(mod, vs)
    ensures forall i: nat :: i < |vs| ==> ExprWidth(Exprs(s, vs)[i]) == WidthsOf(mod, vs)[i]
  {
    forall i: nat | i < |vs| ensures ExprWidth(Exprs(s, vs)[i]) == WidthsOf(mod, vs)[i] {
      assert vs[i] in s.table;
      assert EntryOk(s.table[vs[i]], mod.widths[vs[i]], s.symbols);
    }
  }

  lemma SameWidthsOf(mod: Module, s: Scope, vs: seq<nat>, mod': Module, s': Scope, vs': seq<nat>)
    requires TableOk(mod, s) && AllIn(vs, s) && AreValues(mod, vs)
    requires TableOk(mod', s') && AllIn(vs', s') && AreValues(mod', vs')
    ensures SameWidths(Exprs(s, vs), Exprs(s', vs')) <==> WidthsOf(mod, vs) == WidthsOf(mod', vs')
  {
    ExprWidths(mod, s, vs);
    ExprWidths(mod', s', vs');
  }

  /** The comparison succeeds if and only if both circuits are supported and compatible; then the solver's constraints
      are unsatisfiable if and only if the circuits agree on every input. */
  method Compare(mods: Design, m: nat, mods': Design, m': nat) returns (ok: bool, solver: Solver)
    requires m < |mods| && m' < |mods'|
    ensures fresh(solver)
    ensures ok <==> Supported(mods, m) && Supported(mods', m') && Compatible(mods, m, mods', m')
    ensures ok ==> (Unsatisfiable(Scope(solver.symbols, solver.constraints, map[])) <==> Agree(mods, m, mods', m'))
  {
    solver := new Solver();
    var c1 := new Circuit(solver);
    ok := c1.Visit(mods, m);
    if !ok {
      return;
    }
    var c2 := new Circuit(solver);
    ok := c2.Visit(mods', m');
    if !ok {
      return;
    }
    ComparedWidths(mods, m, mods', m', c1.inputs, c1.outputs, c2.inputs, c2.outputs);
    ok := solver.ConstrainCircuits(c1, c2);
    if ok {
      assert Scope(solver.symbols, solver.constraints, map[]) == Compared(mods, m, mods', m');
      UnsatisfiableIffEquivalent(mods, m, mods', m');
    }
  }

  lemma ComparedWidths(mods: Design, m: nat, mods': Design, m': nat, ins: seq<Expr>, outs: seq<Expr>, ins': seq<Expr>,
                       outs': seq<Expr>)
    requires m < |mods| && m' < |mods'| && Supported(mods, m) && Supported(mods', m')
    requires var s := Export(mods, m, [], []);
             var s' := Export(mods', m', s.symbols, s.constraints);
             && ins == Exprs(s, Inputs(mods[m])) && outs == Exprs(s, Outputs(mods[m].ops))
             && ins' == Exprs(s', Inputs(mods'[m'])) && outs' == Exprs(s', Outputs(mods'[m'].ops))
    ensures SameWidths(ins, ins') && SameWidths(outs, outs') <==> Compatible(mods, m, mods', m')
  {
    var s := Export(mods, m, [], []);
    ExportScope(mods, m, [], []);
    ExportScope(mods', m', s.symbols, s.constraints);
    InputsAreValues(mods, m);
    InputsAreValues(mods', m');
    var s' := Export(mods', m', s.symbols, s.constraints);
    SameWidthsOf(mods[m], s, Inputs(mods[m]), mods'[m'], s', Inputs(mods'[m']));
    SameWidthsOf(mods[m], s, Outputs(mods[m].ops), mods'[m'], s', Outputs(mods'[m'].ops));
  }
}
