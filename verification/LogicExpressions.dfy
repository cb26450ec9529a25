/** Expressions and constraints given to the solver, and how the operations of a circuit are built from them. */
module LogicExpressions {
  import opened BitVectors
  import opened Arithmetic

  datatype Expr =
    | Symbol(id: nat, width: nat)
    | Numeral(bits: Bits)
    | Binary(op: BinaryOp, left: Expr, right: Expr)
    | Slice(high: nat, low: nat, of: Expr)
    | Ite(rel: Relation, a: Expr, b: Expr, yes: Expr, no: Expr)

  /** `AnyDiffers` requires at least one of the pairs to differ. */
  datatype Constraint = Equal(left: Expr, right: Expr) | AnyDiffers(lefts: seq<Expr>, rights: seq<Expr>)

  type Model = map<nat, Bits>

  function Value(model: Model, id: nat): Bits {
    if id in model then model[id] else []
  }

  function Eval(model: Model, e: Expr): Bits {
    match e
    case Symbol(id, _) => Value(model, id)
    case Numeral(bits) => bits
    case Binary(op, l, r) => EvalBinary(op, Eval(model, l), Eval(model, r))
    case Slice(high, low, of) =>
      var bits := Eval(model, of);
      if low <= high < |bits| then bits[low..high + 1] else []
    case Ite(rel, a, b, yes, no) =>
      if EvalRelation(rel, Eval(model, a), Eval(model, b)) then Eval(model, yes) else Eval(model, no)
  }

  function EvalAll(model: Model, es: seq<Expr>): (r: seq<Bits>)
    ensures |r| == |es|
  {
    seq(|es|, i requires 0 <= i < |es| => Eval(model, es[i]))
  }

  ghost predicate Holds(model: Model, c: Constraint) {
    match c
    case Equal(l, r) => Eval(model, l) == Eval(model, r)
    case AnyDiffers(ls, rs) => |ls| == |rs| && exists i: nat :: i < |ls| && Eval(model, ls[i]) != Eval(model, rs[i])
  }

  ghost predicate Satisfies(model: Model, cs: seq<Constraint>) {
    forall i: nat :: i < |cs| ==> Holds(model, cs[i])
  }

  // ---------------------------------------------------------------------------------------------
  // Symbols
  // ---------------------------------------------------------------------------------------------

  ghost predicate SymbolsBelow(e: Expr, n: nat) {
    match e
    case Symbol(id, _) => id < n
    case Numeral(_) => true
    case Binary(_, l, r) => SymbolsBelow(l, n) && SymbolsBelow(r, n)
    case Slice(_, _, of) => SymbolsBelow(of, n)
    case Ite(_, a, b, yes, no) =>
      SymbolsBelow(a, n) && SymbolsBelow(b, n) && SymbolsBelow(yes, n) && SymbolsBelow(no, n)
  }

  ghost predicate AllSymbolsBelow(es: seq<Expr>, n: nat) {
    forall i: nat :: i < |es| ==> SymbolsBelow(es[i], n)
  }

  ghost predicate ConstraintBelow(c: Constraint, n: nat) {
    match c
    case Equal(l, r) => SymbolsBelow(l, n) && SymbolsBelow(r, n)
    case AnyDiffers(ls, rs) => AllSymbolsBelow(ls, n) && AllSymbolsBelow(rs, n)
  }

  ghost predicate ConstraintsBelow(cs: seq<Constraint>, n: nat) {
    forall i: nat :: i < |cs| ==> ConstraintBelow(cs[i], n)
  }

  /** The models agree on the symbols below `n`. */
  ghost predicate AgreeBelow(m: Model, m': Model, n: nat) {
    forall id: nat :: id < n ==> Value(m, id) == Value(m', id)
  }

  lemma {:induction false} EvalAgrees(m: Model, m': Model, e: Expr, n: nat)
    requires AgreeBelow(m, m', n) && SymbolsBelow(e, n)
    ensures Eval(m, e) == Eval(m', e)
  {
    match e
    case Symbol(_, _) =>
    case Numeral(_) =>
    case Binary(_, l, r) => EvalAgrees(m, m', l, n); EvalAgrees(m, m', r, n);
    case Slice(_, _, of) => EvalAgrees(m, m', of, n);
    case Ite(_, a, b, yes, no) =>
      EvalAgrees(m, m', a, n); EvalAgrees(m, m', b, n); EvalAgrees(m, m', yes, n); EvalAgrees(m, m', no, n);
  }

  lemma {:induction false} BelowMore(e: Expr, n: nat, n': nat)
    requires SymbolsBelow(e, n) && n <= n'
    ensures SymbolsBelow(e, n')
  {
    match e
    case Symbol(_, _) =>
    case Numeral(_) =>
    case Binary(_, l, r) => BelowMore(l, n, n'); BelowMore(r, n, n');
    case Slice(_, _, of) => BelowMore(of, n, n');
    case Ite(_, a, b, yes, no) =>
      BelowMore(a, n, n'); BelowMore(b, n, n'); BelowMore(yes, n, n'); BelowMore(no, n, n');
  }

  lemma HoldsAgrees(m: Model, m': Model, c: Constraint, n: nat)
    requires AgreeBelow(m, m', n) && ConstraintBelow(c, n) && Holds(m, c)
    ensures Holds(m', c)
  {
    match c
    case Equal(l, r) => EvalAgrees(m, m', l, n); EvalAgrees(m, m', r, n);
    case AnyDiffers(ls, rs) =>
      var i: nat :| i < |ls| && Eval(m, ls[i]) != Eval(m, rs[i]);
      EvalAgrees(m, m', ls[i], n);
      EvalAgrees(m, m', rs[i], n);
  }

  lemma SatisfiesAgrees(m: Model, m': Model, cs: seq<Constraint>, n: nat)
    requires AgreeBelow(m, m', n) && ConstraintsBelow(cs, n) && Satisfies(m, cs)
    ensures Satisfies(m', cs)
  {
    forall i: nat | i < |cs| ensures Holds(m', cs[i]) {
      HoldsAgrees(m, m', cs[i], n);
    }
  }

  // ---------------------------------------------------------------------------------------------
  // Operations
  // ---------------------------------------------------------------------------------------------

  /** `variadicOperation`: the operands from left to right. */
  function Fold(op: BinaryOp, es: seq<Expr>): Expr
    requires es != []
  {
    if |es| == 1 then es[0] else Binary(op, Fold(op, es[..|es| - 1]), es[|es| - 1])
  }

  function BvToBool(cond: Expr, width: nat, yes: Expr, no: Expr): Expr {
    Ite(Ne, cond, Numeral(Zeros(width)), yes, no)
  }

  function BoolToBv(rel: Relation, l: Expr, r: Expr): Expr {
    Ite(rel, l, r, Numeral([true]), Numeral([false]))
  }

  function ParityOf(e: Expr, n: nat): Expr
    requires n > 0
  {
    if n == 1 then Slice(0, 0, e) else Binary(BvXor, ParityOf(e, n - 1), Slice(n - 1, n - 1, e))
  }

  function Repeated(e: Expr, times: nat): Expr {
    if times <= 1 then e else Binary(BvConcat, Repeated(e, times - 1), e)
  }

  function OpOf(kind: Kind): BinaryOp {
    match kind
    case Add => BvAdd
    case And => BvAnd
    case Concat => BvConcat
    case Mul => BvMul
    case Or => BvOr
    case Shl => BvShl
    case ShrS => BvAshr
    case ShrU => BvLshr
    case Sub => BvSub
    case _ => BvXor
  }

  /** The expression for an operation, with the width of its result, and the expressions and widths of its operands. */
  function Build(kind: Kind, w: nat, es: seq<Expr>, ws: seq<nat>): Expr
    requires |es| == |ws| && IsTyped(kind, w, ws) && kind != ICmp(NState)
  {
    match kind
    case Add | And | Concat | Mul | Or | Sub | Xor => Fold(OpOf(kind), es)
    case Shl | ShrS | ShrU => Binary(OpOf(kind), es[0], es[1])
    case Extract(low) => Slice(low + w - 1, low, es[0])
    case ICmp(pred) => BoolToBv(pred.rel, es[0], es[1])
    case Mux => BvToBool(es[0], ws[0], es[1], es[2])
    case Parity => ParityOf(es[0], ws[0])
    case Replicate => Repeated(es[0], w / ws[0])
  }

  // ---------------------------------------------------------------------------------------------
  // The expression computes what the operation does
  // ---------------------------------------------------------------------------------------------

  lemma EvalInit(m: Model, es: seq<Expr>)
    requires es != []
    ensures EvalAll(m, es[..|es| - 1]) == EvalAll(m, es)[..|es| - 1]
  {
  }

  lemma FoldStep(m: Model, op: BinaryOp, es: seq<Expr>)
    requires |es| > 1
    ensures Eval(m, Fold(op, es)) == EvalBinary(op, Eval(m, Fold(op, es[..|es| - 1])), Eval(m, es[|es| - 1]))
  {
  }

  lemma SumStep(vals: seq<Bits>)
    requires vals != []
    ensures Sum(vals) == Sum(vals[..|vals| - 1]) + ToNat(vals[|vals| - 1])
  {
  }

  lemma SumOfRest(vals: seq<Bits>, n: nat)
    requires 0 < n == |vals| - 1
    ensures Sum(vals[1..]) == Sum(vals[..n][1..]) + ToNat(vals[n])
  {
    SumStep(vals[1..]);
    assert vals[1..][..n - 1] == vals[..n][1..];
  }

  lemma AddStep(a: Bits, b: Bits, s: int, w: nat)
    requires a == FromInt(s, w)
    ensures EvalBinary(BvAdd, a, b) == FromInt(s + ToNat(b), w)
  {
    AddWraps(s, ToNat(b), w);
  }

  lemma SubStep(a: Bits, b: Bits, s: int, w: nat)
    requires a == FromInt(s, w)
    ensures EvalBinary(BvSub, a, b) == FromInt(s - ToNat(b), w)
  {
    AddWraps(s, 0 - ToNat(b), w);
  }

  lemma {:induction false} FoldAdd(m: Model, es: seq<Expr>, w: nat)
    requires es != [] && forall i: nat :: i < |es| ==> |Eval(m, es[i])| == w
    ensures Eval(m, Fold(BvAdd, es)) == FromInt(Sum(EvalAll(m, es)), w)
  {
    var n := |es| - 1;
    EvalInit(m, es);
    SumStep(EvalAll(m, es));
    if n == 0 {
      assert EvalAll(m, es)[..0] == [];
      FromToNat(Eval(m, es[0]));
    } else {
      FoldAdd(m, es[..n], w);
      FoldStep(m, BvAdd, es);
      AddStep(Eval(m, Fold(BvAdd, es[..n])), Eval(m, es[n]), Sum(EvalAll(m, es[..n])), w);
    }
  }

  lemma {:induction false} FoldMul(m: Model, es: seq<Expr>, w: nat)
    requires es != [] && forall i: nat :: i < |es| ==> |Eval(m, es[i])| == w
    ensures Eval(m, Fold(BvMul, es)) == FromInt(Product(EvalAll(m, es)), w)
  {
    var n := |es| - 1;
    EvalInit(m, es);
    if n == 0 {
      assert EvalAll(m, es)[..0] == [];
      FromToNat(Eval(m, es[0]));
    } else {
      FoldMul(m, es[..n], w);
      MulWraps(Product(EvalAll(m, es[..n])), ToNat(Eval(m, es[n])), w);
    }
  }

  lemma {:induction false} FoldSub(m: Model, es: seq<Expr>, w: nat)
    requires es != [] && forall i: nat :: i < |es| ==> |Eval(m, es[i])| == w
    ensures Eval(m, Fold(BvSub, es)) == FromInt(ToNat(EvalAll(m, es)[0]) - Sum(EvalAll(m, es)[1..]), w)
  {
    var n := |es| - 1;
    var vals := EvalAll(m, es);
    EvalInit(m, es);
    if n == 0 {
      assert vals[1..] == [];
      FromToNat(Eval(m, es[0]));
    } else {
      FoldSub(m, es[..n], w);
      FoldStep(m, BvSub, es);
      SumOfRest(vals, n);
      SubStep(Eval(m, Fold(BvSub, es[..n])), vals[n], ToNat(vals[0]) - Sum(vals[..n][1..]), w);
    }
  }

  lemma {:induction false} FoldBits(m: Model, op: BinaryOp, es: seq<Expr>, w: nat, i: nat)
    requires es != [] && (forall k: nat :: k < |es| ==> |Eval(m, es[k])| == w) && i < w
    requires op == BvAnd || op == BvOr || op == BvXor
    ensures var r := Eval(m, Fold(op, es));
            && |r| == w
            && r[i] == if op == BvAnd then (forall j: nat :: j < |es| ==> BitAt(Eval(m, es[j]), i))
                       else if op == BvOr then (exists j: nat :: j < |es| && BitAt(Eval(m, es[j]), i))
                       else OddBits(EvalAll(m, es), i)
  {
    var n := |es| - 1;
    EvalInit(m, es);
    if n == 0 {
      assert EvalAll(m, es)[..0] == [];
      assert !OddBits([], i);
      assert BitAt(Eval(m, es[0]), i) == Eval(m, es[0])[i];
    } else {
      var init := es[..n];
      FoldBits(m, op, init, w, i);
      assert forall j: nat :: j < n ==> init[j] == es[j];
      FoldBit(m, op, es, w, i);
    }
  }

  lemma FoldBit(m: Model, op: BinaryOp, es: seq<Expr>, w: nat, i: nat)
    requires |es| > 1 && i < w && |Eval(m, Fold(op, es[..|es| - 1]))| == w
    requires op == BvAnd || op == BvOr || op == BvXor
    ensures var r, a, b := Eval(m, Fold(op, es)), Eval(m, Fold(op, es[..|es| - 1])), Eval(m, es[|es| - 1]);
            && |r| == w
            && r[i] == if op == BvAnd then a[i] && BitAt(b, i) else if op == BvOr then a[i] || BitAt(b, i)
                       else a[i] != BitAt(b, i)
  {
  }

  lemma {:induction false} ConcatLast(vals: seq<Bits>)
    requires vals != []
    ensures ConcatAll(vals) == vals[|vals| - 1] + ConcatAll(vals[..|vals| - 1])
  {
    var n := |vals| - 1;
    if n == 0 {
      assert vals[1..] == [] && vals[..0] == [];
    } else {
      ConcatLast(vals[1..]);
      assert vals[1..][..n - 1] == vals[..n][1..];
    }
  }

  lemma {:induction false} FoldConcat(m: Model, es: seq<Expr>)
    requires es != []
    ensures Eval(m, Fold(BvConcat, es)) == ConcatAll(EvalAll(m, es))
  {
    var n := |es| - 1;
    EvalInit(m, es);
    ConcatLast(EvalAll(m, es));
    if n == 0 {
      assert EvalAll(m, es)[..0] == [];
    } else {
      FoldConcat(m, es[..n]);
    }
  }

  lemma {:induction false} OddLast(b: Bits)
    requires b != []
    ensures IsOdd(b) <==> IsOdd(b[..|b| - 1]) != b[|b| - 1]
  {
    var n := |b| - 1;
    if n > 0 {
      OddLast(b[1..]);
      assert b[1..][..n - 1] == b[..n][1..];
    }
  }

  lemma {:induction false} ParityIsOdd(m: Model, e: Expr, n: nat)
    requires 0 < n <= |Eval(m, e)|
    ensures Eval(m, ParityOf(e, n)) == [IsOdd(Eval(m, e)[..n])]
  {
    var bits := Eval(m, e);
    OddPrefix(bits, n);
    if n == 1 {
      assert bits[..0] == [];
      assert Eval(m, ParityOf(e, 1)) == bits[0..1] == [bits[0]];
    } else {
      ParityIsOdd(m, e, n - 1);
      assert Eval(m, Slice(n - 1, n - 1, e)) == bits[n - 1..n] == [bits[n - 1]];
    }
  }

  lemma OddPrefix(bits: Bits, n: nat)
    requires 0 < n <= |bits|
    ensures IsOdd(bits[..n]) <==> IsOdd(bits[..n - 1]) != bits[n - 1]
  {
    OddLast(bits[..n]);
    assert bits[..n][..n - 1] == bits[..n - 1];
  }

  lemma TimesStep(times: nat, w: nat)
    requires times > 0
    ensures times * w == (times - 1) * w + w
  {
  }

  /** One more repetition is put below the others. */
  lemma RepeatStep(m: Model, e: Expr, times: nat)
    requires times > 1
    ensures Eval(m, Repeated(e, times)) == Eval(m, e) + Eval(m, Repeated(e, times - 1))
  {
  }

  lemma {:induction false} RepeatedBits(m: Model, e: Expr, times: nat, i: nat)
    requires times > 0 && |Eval(m, e)| > 0 && i < times * |Eval(m, e)|
    ensures |Eval(m, Repeated(e, times))| == times * |Eval(m, e)|
    ensures Eval(m, Repeated(e, times))[i] == Eval(m, e)[i % |Eval(m, e)|]
  {
    var bits := Eval(m, e);
    var w := |bits|;
    TimesStep(times, w);
    RepeatedWidth(m, e, times);
    if i < w {
      DivModIs(i, 0, i, w);
      if times > 1 {
        RepeatStep(m, e, times);
      }
    } else {
      RepeatStep(m, e, times);
      RepeatedBits(m, e, times - 1, i - w);
      ModOfShift(i - w, 1, w);
    }
  }

  lemma {:induction false} RepeatedWidth(m: Model, e: Expr, times: nat)
    requires times > 0
    ensures |Eval(m, Repeated(e, times))| == times * |Eval(m, e)|
  {
    TimesStep(times, |Eval(m, e)|);
    if times > 1 {
      RepeatedWidth(m, e, times - 1);
      RepeatStep(m, e, times);
    }
  }

  lemma VariadicBits(m: Model, kind: Kind, w: nat, es: seq<Expr>, ws: seq<nat>)
    requires |es| == |ws| && IsTyped(kind, w, ws) && ws == Widths(EvalAll(m, es))
    requires kind.And? || kind.Or? || kind.Xor?
    ensures Eval(m, Fold(OpOf(kind), es)) == Apply(kind, w, EvalAll(m, es))
  {
    var r, vals := Eval(m, Fold(OpOf(kind), es)), EvalAll(m, es);
    forall k: nat | k < |es| ensures |Eval(m, es[k])| == w {
      assert ws[k] == w;
    }
    forall i: nat | i < w ensures |r| == w && r[i] == Apply(kind, w, vals)[i] {
      FoldBits(m, OpOf(kind), es, w, i);
      assert forall j: nat :: j < |es| ==> vals[j] == Eval(m, es[j]);
    }
    FoldBits(m, OpOf(kind), es, w, 0);
  }

  lemma VariadicArithmetic(m: Model, kind: Kind, w: nat, es: seq<Expr>, ws: seq<nat>)
    requires |es| == |ws| && IsTyped(kind, w, ws) && ws == Widths(EvalAll(m, es))
    requires kind.Add? || kind.Mul? || kind.Sub?
    ensures Eval(m, Fold(OpOf(kind), es)) == Apply(kind, w, EvalAll(m, es))
  {
    forall k: nat | k < |es| ensures |Eval(m, es[k])| == w {
      assert ws[k] == w;
    }
    match kind
    case Add => FoldAdd(m, es, w);
    case Mul => FoldMul(m, es, w);
    case Sub => FoldSub(m, es, w);
  }

  lemma MuxIsApply(m: Model, w: nat, es: seq<Expr>, ws: seq<nat>)
    requires |es| == |ws| && IsTyped(Mux, w, ws) && ws == Widths(EvalAll(m, es))
    ensures Eval(m, Build(Mux, w, es, ws)) == Apply(Mux, w, EvalAll(m, es))
  {
    var cond := EvalAll(m, es)[0];
    assert |cond| == ws[0] == 1;
    assert cond == Zeros(1) <==> !cond[0];
  }

  lemma ReplicateIsApply(m: Model, w: nat, es: seq<Expr>, ws: seq<nat>)
    requires |es| == |ws| && IsTyped(Replicate, w, ws) && ws == Widths(EvalAll(m, es))
    ensures Eval(m, Build(Replicate, w, es, ws)) == Apply(Replicate, w, EvalAll(m, es))
  {
    var times, bits := w / ws[0], Eval(m, es[0]);
    assert EvalAll(m, es)[0] == bits && |bits| == ws[0];
    DivModOf(w, ws[0]);
    assert times > 0;
    RepeatedWidth(m, es[0], times);
    forall i: nat | i < w ensures Eval(m, Repeated(es[0], times))[i] == bits[i % |bits|] {
      RepeatedBits(m, es[0], times, i);
    }
  }

  /** The expression built for an operation computes what the operation computes. */
  lemma BuildIsApply(m: Model, kind: Kind, w: nat, es: seq<Expr>, ws: seq<nat>)
    requires |es| == |ws| && IsTyped(kind, w, ws) && kind != ICmp(NState) && ws == Widths(EvalAll(m, es))
    ensures Eval(m, Build(kind, w, es, ws)) == Apply(kind, w, EvalAll(m, es))
  {
    match kind
    case Add | Mul | Sub => VariadicArithmetic(m, kind, w, es, ws);
    case And | Or | Xor => VariadicBits(m, kind, w, es, ws);
    case Concat => FoldConcat(m, es);
    case Parity => ParityIsApply(m, w, es, ws);
    case Replicate => ReplicateIsApply(m, w, es, ws);
    case Mux => MuxIsApply(m, w, es, ws);
    case Extract(_) => ExtractIsApply(m, kind, w, es, ws);
    case _ => assert EvalAll(m, es)[0] == Eval(m, es[0]) && EvalAll(m, es)[1] == Eval(m, es[1]);
  }

  lemma ExtractIsApply(m: Model, kind: Kind, w: nat, es: seq<Expr>, ws: seq<nat>)
    requires kind.Extract? && |es| == |ws| && IsTyped(kind, w, ws) && ws == Widths(EvalAll(m, es))
    ensures Eval(m, Build(kind, w, es, ws)) == Apply(kind, w, EvalAll(m, es))
  {
    assert EvalAll(m, es)[0] == Eval(m, es[0]) && |Eval(m, es[0])| == ws[0];
  }

  lemma ParityIsApply(m: Model, w: nat, es: seq<Expr>, ws: seq<nat>)
    requires |es| == |ws| && IsTyped(Parity, w, ws) && ws == Widths(EvalAll(m, es))
    ensures Eval(m, Build(Parity, w, es, ws)) == Apply(Parity, w, EvalAll(m, es))
  {
    var bits := Eval(m, es[0]);
    assert EvalAll(m, es)[0] == bits && |bits| == ws[0];
    ParityIsOdd(m, es[0], ws[0]);
    assert bits[..ws[0]] == bits;
  }

  lemma {:induction false} FoldBelow(op: BinaryOp, es: seq<Expr>, n: nat)
    requires es != [] && AllSymbolsBelow(es, n)
    ensures SymbolsBelow(Fold(op, es), n)
  {
    if |es| > 1 {
      FoldBelow(op, es[..|es| - 1], n);
    }
  }

  lemma {:induction false} ParityBelow(e: Expr, k: nat, n: nat)
    requires k > 0 && SymbolsBelow(e, n)
    ensures SymbolsBelow(ParityOf(e, k), n)
  {
    if k > 1 {
      ParityBelow(e, k - 1, n);
    }
  }

  lemma {:induction false} RepeatedBelow(e: Expr, k: nat, n: nat)
    requires SymbolsBelow(e, n)
    ensures SymbolsBelow(Repeated(e, k), n)
  {
    if k > 1 {
      RepeatedBelow(e, k - 1, n);
    }
  }

  lemma BuildBelow(kind: Kind, w: nat, es: seq<Expr>, ws: seq<nat>, n: nat)
    requires |es| == |ws| && IsTyped(kind, w, ws) && kind != ICmp(NState) && AllSymbolsBelow(es, n)
    ensures SymbolsBelow(Build(kind, w, es, ws), n)
  {
    match kind
    case Add | And | Concat | Mul | Or | Sub | Xor => FoldBelow(OpOf(kind), es, n);
    case Parity => ParityBelow(es[0], ws[0], n);
    case Replicate => RepeatedBelow(es[0], w / ws[0], n);
    case _ =>
  }
}
