/** Bit vectors, least significant bit first, and what bit vector operations compute. */
module BitVectors {
  import opened Arithmetic

  type Bits = seq<bool>

  function ToNat(b: Bits): nat {
    if b == [] then 0 else (if b[0] then 1 else 0) + 2 * ToNat(b[1..])
  }

  /** The low `w` bits of an integer in two's complement. */
  function FromInt(x: int, w: nat): (b: Bits)
    ensures |b| == w
    decreases w
  {
    if w == 0 then [] else [x % 2 == 1] + FromInt(x / 2, w - 1)
  }

  function ToInt(b: Bits): int {
    if b != [] && b[|b| - 1] then ToNat(b) - Pow2(|b|) else ToNat(b)
  }

  function BitAt(b: Bits, i: int): bool {
    0 <= i < |b| && b[i]
  }

  function Zeros(w: nat): (b: Bits)
    ensures |b| == w
  {
    seq(w, i => false)
  }

  /** A number modulo the width, as the number itself up to a multiple of the modulus. */
  lemma {:induction false} WrapIsCongruent(x: int, w: nat) returns (q: int)
    ensures ToNat(FromInt(x, w)) == x + Pow2(w) * q
    decreases w
  {
    if w == 0 {
      q := -x;
    } else {
      var q1 := WrapIsCongruent(x / 2, w - 1);
      assert FromInt(x, w)[1..] == FromInt(x / 2, w - 1);
      assert x == 2 * (x / 2) + x % 2;
      assert Pow2(w) * q1 == 2 * (Pow2(w - 1) * q1);
      q := q1;
    }
  }

  lemma {:induction false} CongruentIsEqual(x: int, q: int, w: nat)
    ensures FromInt(x + Pow2(w) * q, w) == FromInt(x, w)
    decreases w
  {
    if w > 0 {
      assert Pow2(w) * q == 2 * (Pow2(w - 1) * q);
      assert (x + Pow2(w) * q) / 2 == x / 2 + Pow2(w - 1) * q;
      CongruentIsEqual(x / 2, q, w - 1);
    }
  }

  lemma {:induction false} FromToNat(b: Bits)
    ensures FromInt(ToNat(b), |b|) == b
  {
    if b != [] {
      FromToNat(b[1..]);
      assert ToNat(b) / 2 == ToNat(b[1..]);
    }
  }

  /** Wrapping early makes no difference to a sum. */
  lemma AddWraps(x: int, y: int, w: nat)
    ensures FromInt(ToNat(FromInt(x, w)) + y, w) == FromInt(x + y, w)
  {
    var q := WrapIsCongruent(x, w);
    CongruentIsEqual(x + y, q, w);
    assert x + Pow2(w) * q + y == x + y + Pow2(w) * q;
  }

  /** Wrapping early makes no difference to a product. */
  lemma MulWraps(x: int, y: int, w: nat)
    ensures FromInt(ToNat(FromInt(x, w)) * y, w) == FromInt(x * y, w)
  {
    var q := WrapIsCongruent(x, w);
    CongruentIsEqual(x * y, q * y, w);
    Distribute(x, Pow2(w), q, y);
  }

  lemma Distribute(x: int, p: int, q: int, y: int)
    ensures (x + p * q) * y == x * y + p * (q * y)
  {
    assert (p * q) * y == p * (q * y);
  }

  // ---------------------------------------------------------------------------------------------
  // Expressions of the solver
  // ---------------------------------------------------------------------------------------------

  datatype BinaryOp = BvAdd | BvSub | BvMul | BvAnd | BvOr | BvXor | BvConcat | BvShl | BvAshr | BvLshr

  datatype Relation = Eq | Ne | Slt | Sle | Sgt | Sge | Ult | Ule | Ugt | Uge

  function ShiftLeft(b: Bits, n: nat): Bits {
    seq(|b|, i requires 0 <= i < |b| => BitAt(b, i - n))
  }

  function ShiftRight(b: Bits, n: nat, fill: bool): Bits {
    seq(|b|, i requires 0 <= i < |b| => if i + n < |b| then b[i + n] else fill)
  }

  function EvalBinary(op: BinaryOp, a: Bits, b: Bits): Bits {
    match op
    case BvAdd => FromInt(ToNat(a) + ToNat(b), |a|)
    case BvSub => FromInt(ToNat(a) - ToNat(b), |a|)
    case BvMul => FromInt(ToNat(a) * ToNat(b), |a|)
    case BvAnd => seq(|a|, i requires 0 <= i < |a| => a[i] && BitAt(b, i))
    case BvOr => seq(|a|, i requires 0 <= i < |a| => a[i] || BitAt(b, i))
    case BvXor => seq(|a|, i requires 0 <= i < |a| => a[i] != BitAt(b, i))
    case BvConcat => b + a
    case BvShl => ShiftLeft(a, ToNat(b))
    case BvAshr => ShiftRight(a, ToNat(b), BitAt(a, |a| - 1))
    case BvLshr => ShiftRight(a, ToNat(b), false)
  }

  predicate EvalRelation(rel: Relation, a: Bits, b: Bits) {
    match rel
    case Eq => a == b
    case Ne => a != b
    case Slt => ToInt(a) < ToInt(b)
    case Sle => ToInt(a) <= ToInt(b)
    case Sgt => ToInt(a) > ToInt(b)
    case Sge => ToInt(a) >= ToInt(b)
    case Ult => ToNat(a) < ToNat(b)
    case Ule => ToNat(a) <= ToNat(b)
    case Ugt => ToNat(a) > ToNat(b)
    case Uge => ToNat(a) >= ToNat(b)
  }

  // ---------------------------------------------------------------------------------------------
  // Operations of the combinational dialect
  // ---------------------------------------------------------------------------------------------

  /** Comparisons of more than two states are not supported. */
  datatype Predicate = TwoState(rel: Relation) | NState

  datatype Kind = Add | And | Concat | Extract(low: nat) | ICmp(pred: Predicate) | Mul | Mux | Or | Parity | Replicate
                | Shl | ShrS | ShrU | Sub | Xor

  predicate AllWidths(ws: seq<nat>, w: nat) {
    forall i :: 0 <= i < |ws| ==> ws[i] == w
  }

  function SumWidths(ws: seq<nat>): nat {
    if ws == [] then 0 else ws[0] + SumWidths(ws[1..])
  }

  /** What the dialect demands of the widths of the result and the operands. */
  predicate IsTyped(kind: Kind, w: nat, ws: seq<nat>) {
    && w > 0 && |ws| > 0 && (forall i :: 0 <= i < |ws| ==> ws[i] > 0)
    && match kind
       case Add | And | Mul | Or | Sub | Xor => AllWidths(ws, w)
       case Concat => SumWidths(ws) == w
       case Extract(low) => |ws| == 1 && low + w <= ws[0]
       case ICmp(_) => |ws| == 2 && ws[0] == ws[1] && w == 1
       case Mux => |ws| == 3 && ws[0] == 1 && ws[1] == w && ws[2] == w
       case Parity => |ws| == 1 && w == 1
       case Replicate => |ws| == 1 && w % ws[0] == 0
       case Shl | ShrS | ShrU => |ws| == 2 && ws[0] == w && ws[1] == w
  }

  function Widths(vals: seq<Bits>): (ws: seq<nat>)
    ensures |ws| == |vals|
  {
    seq(|vals|, i requires 0 <= i < |vals| => |vals[i]|)
  }

  function Sum(vals: seq<Bits>): nat {
    if vals == [] then 0 else Sum(vals[..|vals| - 1]) + ToNat(vals[|vals| - 1])
  }

  function Product(vals: seq<Bits>): nat {
    if vals == [] then 1 else Product(vals[..|vals| - 1]) * ToNat(vals[|vals| - 1])
  }

  predicate OddBits(vals: seq<Bits>, i: nat) {
    vals != [] && OddBits(vals[..|vals| - 1], i) != BitAt(vals[|vals| - 1], i)
  }

  /** The first operand is the most significant. */
  function ConcatAll(vals: seq<Bits>): Bits {
    if vals == [] then [] else ConcatAll(vals[1..]) + vals[0]
  }

  predicate IsOdd(b: Bits) {
    b != [] && IsOdd(b[1..]) != b[0]
  }

  /** What an operation computes. */
  function Apply(kind: Kind, w: nat, vals: seq<Bits>): Bits
    requires IsTyped(kind, w, Widths(vals))
  {
    match kind
    case Add => FromInt(Sum(vals), w)
    case Mul => FromInt(Product(vals), w)
    case Sub => FromInt(ToNat(vals[0]) - Sum(vals[1..]), w)
    case And => seq(w, i => forall j: nat :: j < |vals| ==> BitAt(vals[j], i))
    case Or => seq(w, i => exists j: nat :: j < |vals| && BitAt(vals[j], i))
    case Xor => seq(w, i requires i >= 0 => OddBits(vals, i))
    case Concat => ConcatAll(vals)
    case Extract(low) => assert |vals[0]| == Widths(vals)[0]; vals[0][low..low + w]
    case ICmp(pred) => [pred.TwoState? && EvalRelation(pred.rel, vals[0], vals[1])]
    case Mux => assert |vals[0]| == Widths(vals)[0]; if vals[0][0] then vals[1] else vals[2]
    case Parity => [IsOdd(vals[0])]
    case Replicate => assert |vals[0]| == Widths(vals)[0]; seq(w, i requires i >= 0 => vals[0][i % |vals[0]|])
    case Shl => ShiftLeft(vals[0], ToNat(vals[1]))
    case ShrS => ShiftRight(vals[0], ToNat(vals[1]), BitAt(vals[0], |vals[0]| - 1))
    case ShrU => ShiftRight(vals[0], ToNat(vals[1]), false)
  }

  lemma {:induction false} ConcatAllWidth(vals: seq<Bits>)
    ensures |ConcatAll(vals)| == SumWidths(Widths(vals))
  {
    if vals != [] {
      assert Widths(vals)[1..] == Widths(vals[1..]);
      ConcatAllWidth(vals[1..]);
    }
  }

  lemma ApplyWidth(kind: Kind, w: nat, vals: seq<Bits>)
    requires IsTyped(kind, w, Widths(vals))
    ensures |Apply(kind, w, vals)| == w
  {
    assert forall i :: 0 <= i < |vals| ==> |vals[i]| == Widths(vals)[i];
    if kind.Concat? {
      ConcatAllWidth(vals);
    }
  }
}
