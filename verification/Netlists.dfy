/** Hardware modules of combinational operations and instances, and what they compute. */
module Netlists {
  import opened BitVectors

  datatype Op =
    | Constant(result: nat, bits: Bits)
    | Comb(kind: Kind, twoState: bool, result: nat, operands: seq<nat>)
    | Instance(callee: nat, args: seq<nat>, results: seq<nat>)
    | Output(operands: seq<nat>)
    | Unsupported

  /** The values of a module are numbered, and have widths; its inputs come first. Operations may be in any order, but
      there are no cycles: each result has a higher level than the operands it is computed from. */
  datatype Module = Module(inputs: nat, widths: seq<nat>, ops: seq<Op>, levels: seq<nat>)

  function Results(op: Op): seq<nat> {
    match op
    case Constant(r, _) => [r]
    case Comb(_, _, r, _) => [r]
    case Instance(_, _, rs) => rs
    case _ => []
  }

  function Operands(op: Op): seq<nat> {
    match op
    case Comb(_, _, _, operands) => operands
    case Instance(_, args, _) => args
    case Output(operands) => operands
    case _ => []
  }

  /** The outputs of a module, by its output operations (there is one). */
  function Outputs(ops: seq<Op>): seq<nat> {
    if ops == [] then [] else
      Outputs(ops[..|ops| - 1]) + match ops[|ops| - 1] case Output(operands) => operands case _ => []
  }

  function IndexOf(vs: seq<nat>, v: nat): (i: nat)
    ensures i <= |vs| && (v in vs ==> i < |vs| && vs[i] == v)
  {
    if vs == [] || vs[0] == v then 0 else 1 + IndexOf(vs[1..], v)
  }

  /** The operation that defines a value. */
  function Definer(ops: seq<Op>, v: nat): (k: nat)
    ensures k <= |ops| && (k < |ops| ==> v in Results(ops[k]))
    ensures (exists j: nat :: j < |ops| && v in Results(ops[j])) ==> k < |ops|
  {
    if ops == [] then 0 else
      assert forall j: nat :: 0 < j < |ops| ==> ops[j] == ops[1..][j - 1];
      if v in Results(ops[0]) then 0 else 1 + Definer(ops[1..], v)
  }

  function WidthsOf(mod: Module, vs: seq<nat>): (ws: seq<nat>)
    requires AreValues(mod, vs)
    ensures |ws| == |vs|
  {
    seq(|vs|, i requires 0 <= i < |vs| => mod.widths[vs[i]])
  }

  predicate AreValues(mod: Module, vs: seq<nat>) {
    forall i :: 0 <= i < |vs| ==> vs[i] < |mod.widths|
  }

  ghost predicate AllBelow(mod: Module, vs: seq<nat>, rs: seq<nat>)
    requires AreValues(mod, vs) && AreValues(mod, rs) && |mod.levels| == |mod.widths|
  {
    forall i, j :: 0 <= i < |vs| && 0 <= j < |rs| ==> mod.levels[vs[i]] < mod.levels[rs[j]]
  }

  function Inputs(mod: Module): (vs: seq<nat>)
    ensures |vs| == mod.inputs
  {
    seq(mod.inputs, i requires 0 <= i => i)
  }

  /** What the dialects demand of an operation of module `m`. */
  ghost predicate OpOk(mods: seq<Module>, m: nat, op: Op)
    requires m < |mods| && |mods[m].levels| == |mods[m].widths|
  {
    var mod := mods[m];
    && AreValues(mod, Operands(op)) && AreValues(mod, Results(op))
    && (forall i :: 0 <= i < |Results(op)| ==> Results(op)[i] >= mod.inputs)
    && AllBelow(mod, Operands(op), Results(op))
    && match op
       case Constant(r, bits) => r < |mod.widths| && |bits| == mod.widths[r]
       case Comb(kind, _, r, operands) =>
         r < |mod.widths| && IsTyped(kind, mod.widths[r], WidthsOf(mod, operands))
       case Instance(c, args, results) =>
         && c < m && mods[c].inputs <= |mods[c].widths| && AreValues(mods[c], Outputs(mods[c].ops))
         && WidthsOf(mod, args) == mods[c].widths[..mods[c].inputs]
         && WidthsOf(mod, results) == WidthsOf(mods[c], Outputs(mods[c].ops))
       case _ => true
  }

  /** Every value that is not an input is the result of exactly one operation. */
  ghost predicate DefinedOnce(mod: Module) {
    && (forall v: nat :: mod.inputs <= v < |mod.widths| ==> Definer(mod.ops, v) < |mod.ops|)
    && (forall k: nat, i: nat :: k < |mod.ops| && i < |Results(mod.ops[k])| ==>
          var v := Results(mod.ops[k])[i];
          Definer(mod.ops, v) == k && IndexOf(Results(mod.ops[k]), v) == i)
  }

  ghost predicate ModuleOk(mods: seq<Module>, m: nat)
    requires m < |mods|
  {
    var mod := mods[m];
    && mod.inputs <= |mod.widths| == |mod.levels|
    && (forall v: nat :: v < |mod.widths| ==> mod.widths[v] > 0)
    && (forall k: nat :: k < |mod.ops| ==> OpOk(mods, m, mod.ops[k]))
    && DefinedOnce(mod) && AreValues(mod, Outputs(mod.ops))
  }

  ghost predicate IsDesign(mods: seq<Module>) {
    forall m: nat :: m < |mods| ==> ModuleOk(mods, m)
  }

  type Design = mods: seq<Module> | IsDesign(mods) witness []

  /** Values of the widths of the inputs. */
  ghost predicate AreInputs(mod: Module, ins: seq<Bits>) {
    |ins| == mod.inputs <= |mod.widths| && forall i :: 0 <= i < |ins| ==> |ins[i]| == mod.widths[i]
  }

  /** Operands of lower levels only. */
  ghost predicate FromBelow(mod: Module, op: Op, level: nat) {
    |mod.levels| == |mod.widths| && AreValues(mod, Operands(op)) &&
    forall u <- Operands(op) :: u < |mod.widths| && mod.levels[u] < level
  }

  lemma ResultsAbove(mods: Design, m: nat, op: Op, v: nat)
    requires m < |mods| && ModuleOk(mods, m) && OpOk(mods, m, op) && v in Results(op)
    ensures v < |mods[m].levels| && FromBelow(mods[m], op, mods[m].levels[v])
  {
    var j :| 0 <= j < |Results(op)| && Results(op)[j] == v;
    assert AllBelow(mods[m], Operands(op), Results(op));
  }

  lemma DefinedBy(mods: Design, m: nat, v: nat)
    requires m < |mods| && mods[m].inputs <= v < |mods[m].widths|
    ensures ModuleOk(mods, m) && Definer(mods[m].ops, v) < |mods[m].ops|
    ensures var op := mods[m].ops[Definer(mods[m].ops, v)];
            v in Results(op) && OpOk(mods, m, op) && FromBelow(mods[m], op, mods[m].levels[v])
  {
    assert ModuleOk(mods, m);
    var op := mods[m].ops[Definer(mods[m].ops, v)];
    assert OpOk(mods, m, op);
    ResultsAbove(mods, m, op, v);
  }

  lemma InstanceWidths(mods: Design, m: nat, op: Op)
    requires m < |mods| && ModuleOk(mods, m) && OpOk(mods, m, op) && op.Instance?
    ensures op.callee < m && |op.args| == mods[op.callee].inputs <= |mods[op.callee].widths|
    ensures |op.results| == |Outputs(mods[op.callee].ops)| && AreValues(mods[op.callee], Outputs(mods[op.callee].ops))
    ensures forall i :: 0 <= i < |op.args| ==> mods[m].widths[op.args[i]] == mods[op.callee].widths[i]
    ensures forall j :: 0 <= j < |op.results| ==>
              mods[op.callee].widths[Outputs(mods[op.callee].ops)[j]] == mods[m].widths[op.results[j]]
  {
    var mod, sub := mods[m], mods[op.callee];
    forall i | 0 <= i < |op.args| ensures mod.widths[op.args[i]] == sub.widths[i] {
      assert WidthsOf(mod, op.args)[i] == sub.widths[i];
    }
    forall j | 0 <= j < |op.results| ensures sub.widths[Outputs(sub.ops)[j]] == mod.widths[op.results[j]] {
      assert WidthsOf(mod, op.results)[j] == WidthsOf(sub, Outputs(sub.ops))[j];
    }
  }

  function Compute(kind: Kind, w: nat, vals: seq<Bits>): (b: Bits)
    ensures |b| == w
  {
    if IsTyped(kind, w, Widths(vals)) then
      ApplyWidth(kind, w, vals);
      Apply(kind, w, vals)
    else Zeros(w)
  }

  // ---------------------------------------------------------------------------------------------
  // Direct evaluation
  // ---------------------------------------------------------------------------------------------

  /** The value `v` of module `m`, for the given inputs. */
  ghost function ValueOf(mods: Design, m: nat, ins: seq<Bits>, v: nat): (b: Bits)
    requires m < |mods| && AreInputs(mods[m], ins) && v < |mods[m].widths|
    ensures |b| == mods[m].widths[v]
    decreases m, 0, if v < |mods[m].levels| then mods[m].levels[v] else 0, 1
  {
    var mod := mods[m];
    assert ModuleOk(mods, m);
    if v < mod.inputs then ins[v] else
      var k := Definer(mod.ops, v);
      DefinedBy(mods, m, v);
      match mod.ops[k]
      case Constant(_, bits) => bits
      case Comb(kind, _, _, operands) =>
        Compute(kind, mod.widths[v], LowerValues(mods, m, ins, operands, mod.levels[v]))
      case Instance(c, args, results) =>
        var vals := LowerValues(mods, m, ins, args, mod.levels[v]);
        var j := IndexOf(results, v);
        InstanceWidths(mods, m, mod.ops[k]);
        OutputsOf(mods, c, vals)[j]
  }

  /** Values of lower levels. */
  ghost function LowerValues(mods: Design, m: nat, ins: seq<Bits>, vs: seq<nat>, level: nat): (r: seq<Bits>)
    requires m < |mods| && AreInputs(mods[m], ins) && |mods[m].levels| == |mods[m].widths|
    requires AreValues(mods[m], vs) && forall u <- vs :: u < |mods[m].widths| && mods[m].levels[u] < level
    ensures |r| == |vs| && forall i :: 0 <= i < |vs| ==> |r[i]| == mods[m].widths[vs[i]]
    decreases m, 0, level, 0
  {
    seq(|vs|, i requires 0 <= i < |vs| => ValueOf(mods, m, ins, vs[i]))
  }

  /** What module `m` computes. */
  ghost function OutputsOf(mods: Design, m: nat, ins: seq<Bits>): (r: seq<Bits>)
    requires m < |mods| && AreInputs(mods[m], ins)
    ensures |r| == |Outputs(mods[m].ops)| && AreValues(mods[m], Outputs(mods[m].ops))
    ensures forall j :: 0 <= j < |r| ==> |r[j]| == mods[m].widths[Outputs(mods[m].ops)[j]]
    decreases m, 1, 0, 0
  {
    var outs := Outputs(mods[m].ops);
    assert ModuleOk(mods, m);
    seq(|outs|, j requires 0 <= j < |outs| => ValueOf(mods, m, ins, outs[j]))
  }

  ghost function ValuesOf(mods: Design, m: nat, ins: seq<Bits>, vs: seq<nat>): (r: seq<Bits>)
    requires m < |mods| && AreInputs(mods[m], ins) && AreValues(mods[m], vs)
    ensures |r| == |vs| && Widths(r) == WidthsOf(mods[m], vs)
  {
    seq(|vs|, i requires 0 <= i < |vs| => ValueOf(mods, m, ins, vs[i]))
  }

  /** The result of a combinational operation. */
  lemma CombValue(mods: Design, m: nat, ins: seq<Bits>, k: nat)
    requires m < |mods| && AreInputs(mods[m], ins) && k < |mods[m].ops| && mods[m].ops[k].Comb?
    ensures ModuleOk(mods, m) && OpOk(mods, m, mods[m].ops[k])
    ensures var op := mods[m].ops[k];
            op.result < |mods[m].widths| && ValueOf(mods, m, ins, op.result) ==
            Apply(op.kind, mods[m].widths[op.result], ValuesOf(mods, m, ins, op.operands))
  {
    var op := mods[m].ops[k];
    assert ModuleOk(mods, m) && OpOk(mods, m, op);
    assert Results(op)[0] == op.result;
    assert Definer(mods[m].ops, op.result) == k;
    DefinedBy(mods, m, op.result);
    assert LowerValues(mods, m, ins, op.operands, mods[m].levels[op.result]) == ValuesOf(mods, m, ins, op.operands);
  }

  lemma ConstantValue(mods: Design, m: nat, ins: seq<Bits>, k: nat)
    requires m < |mods| && AreInputs(mods[m], ins) && k < |mods[m].ops| && mods[m].ops[k].Constant?
    ensures ModuleOk(mods, m) && OpOk(mods, m, mods[m].ops[k])
    ensures var op := mods[m].ops[k];
            op.result < |mods[m].widths| && ValueOf(mods, m, ins, op.result) == op.bits
  {
    var op := mods[m].ops[k];
    assert ModuleOk(mods, m) && OpOk(mods, m, op);
    assert Results(op)[0] == op.result;
    assert Definer(mods[m].ops, op.result) == k;
  }

  /** The arguments of an instance are inputs of the module it instantiates. */
  lemma InstanceInputs(mods: Design, m: nat, ins: seq<Bits>, k: nat)
    requires m < |mods| && AreInputs(mods[m], ins) && k < |mods[m].ops| && mods[m].ops[k].Instance?
    ensures ModuleOk(mods, m) && OpOk(mods, m, mods[m].ops[k])
    ensures var op := mods[m].ops[k]; AreInputs(mods[op.callee], ValuesOf(mods, m, ins, op.args))
  {
    var op := mods[m].ops[k];
    assert ModuleOk(mods, m) && OpOk(mods, m, op);
    assert forall i :: 0 <= i < |op.args| ==> WidthsOf(mods[m], op.args)[i] == mods[op.callee].widths[i];
  }

  lemma InstanceValue(mods: Design, m: nat, ins: seq<Bits>, k: nat, j: nat)
    requires m < |mods| && AreInputs(mods[m], ins) && k < |mods[m].ops| && mods[m].ops[k].Instance?
    requires j < |mods[m].ops[k].results|
    ensures ModuleOk(mods, m) && OpOk(mods, m, mods[m].ops[k])
    ensures var op := mods[m].ops[k];
            && AreInputs(mods[op.callee], ValuesOf(mods, m, ins, op.args))
            && j < |Outputs(mods[op.callee].ops)|
            && ValueOf(mods, m, ins, op.results[j]) == OutputsOf(mods, op.callee, ValuesOf(mods, m, ins, op.args))[j]
  {
    var op := mods[m].ops[k];
    InstanceInputs(mods, m, ins, k);
    var v := op.results[j];
    assert Results(op)[j] == v;
    assert Definer(mods[m].ops, v) == k && IndexOf(op.results, v) == j;
    DefinedBy(mods, m, v);
    assert LowerValues(mods, m, ins, op.args, mods[m].levels[v]) == ValuesOf(mods, m, ins, op.args);
    assert |WidthsOf(mods[m], op.results)| == |Outputs(mods[op.callee].ops)|;
  }
}
