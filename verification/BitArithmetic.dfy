/** Bit vectors as numbers: the signed value, and shifts as products and quotients. */
module BitArithmetic {
  import opened Arithmetic
  import opened BitVectors

  lemma {:induction false} ToNatOfPrefix(b: Bits, top: bool)
    ensures ToNat(b + [top]) == ToNat(b) + if top then Pow2(|b|) else 0
  {
    if b == [] {
      assert b + [top] == [top] && [top][1..] == [];
    } else {
      assert (b + [top])[1..] == b[1..] + [top];
      ToNatOfPrefix(b[1..], top);
    }
  }

  lemma {:induction false} ToNatRange(b: Bits)
    ensures ToNat(b) < Pow2(|b|)
  {
    if b != [] {
      ToNatRange(b[1..]);
    }
  }

  /** The highest bit is set in exactly the upper half of all numbers. */
  lemma HighestBit(b: Bits)
    requires b != []
    ensures b[|b| - 1] <==> ToNat(b) >= Pow2(|b| - 1)
  {
    var w := |b| - 1;
    assert b == b[..w] + [b[w]];
    ToNatOfPrefix(b[..w], b[w]);
    ToNatRange(b[..w]);
  }

  /** The values of bit vectors in two's complement are the numbers of a range around zero. */
  lemma ToIntRange(b: Bits)
    requires b != []
    ensures 0 - Pow2(|b| - 1) <= ToInt(b) < Pow2(|b| - 1)
  {
    HighestBit(b);
    ToNatRange(b);
  }

  lemma MultipleInRange(p: nat, x: int, y: int, q: int)
    requires y == x + p * q && 0 - p < y - x < p
    ensures x == y
  {
    assert p * q < p && p * q > 0 - p;
    SmallMultiple(p, q);
  }

  lemma SmallMultiple(p: nat, q: int)
    requires 0 - p < p * q < p
    ensures q == 0
  {
    MultipleIsFar(p, q);
  }

  lemma MultipleIsFar(p: nat, q: int)
    ensures q >= 1 ==> p * q >= p
    ensures q <= -1 ==> p * q <= 0 - p
  {
    if q >= 1 {
      ProductAtLeast(q, p);
    } else if q <= -1 {
      var m: nat := 0 - q;
      ProductAtLeast(m, p);
      assert m * p == 0 - p * q;
    }
  }

  /** Each number of the range is the value of its low bits. */
  lemma ToIntOfFromInt(x: int, w: nat)
    requires w > 0 && 0 - Pow2(w - 1) <= x < Pow2(w - 1)
    ensures ToInt(FromInt(x, w)) == x
  {
    var b := FromInt(x, w);
    var q := WrapIsCongruent(x, w);
    ToIntRange(b);
    if b[w - 1] {
      assert Pow2(w) * (q - 1) == Pow2(w) * q - Pow2(w);
      MultipleInRange(Pow2(w), x, ToInt(b), q - 1);
    } else {
      MultipleInRange(Pow2(w), x, ToInt(b), q);
    }
  }

  lemma WrapOnce(x: int, w: nat, p: int, y: int)
    requires p == Pow2(w) && y == x - p
    ensures FromInt(y, w) == FromInt(x, w)
  {
    assert p * (0 - 1) == 0 - p;
    CongruentIsEqual(x, 0 - 1, w);
  }

  /** Each bit vector is that of its value. */
  lemma FromIntOfToInt(b: Bits)
    ensures FromInt(ToInt(b), |b|) == b
  {
    FromToNat(b);
    if b != [] && b[|b| - 1] {
      WrapOnce(ToNat(b), |b|, Pow2(|b|), ToInt(b));
    }
  }

  // ---------------------------------------------------------------------------------------------
  // Shifts
  // ---------------------------------------------------------------------------------------------

  lemma HalfOfQuotient(x: int, n: nat)
    requires n > 0
    ensures x / 2 / Pow2(n - 1) == x / Pow2(n)
  {
    var p := Pow2(n - 1);
    var q := x / Pow2(n);
    var r := x - q * (2 * p);
    assert 0 <= r < 2 * p;
    assert q * (2 * p) == 2 * (q * p);
    assert x / 2 == q * p + r / 2;
    QuotientIs(x / 2, p, q, r / 2);
  }

  lemma QuotientIs(a: int, d: nat, q: int, r: nat)
    requires r < d && a == q * d + r
    ensures a / d == q
  {
    var k := a / d - q;
    assert (a / d) * d + a % d == a;
    DifferenceTimes(a / d, q, d);
    assert d * k == r - a % d;
    SmallMultiple(d, k);
  }

  lemma ShiftRightByOne(b: Bits, n: nat, fill: bool)
    requires n > 0 && b != []
    ensures ShiftRight(b, n, fill) == ShiftRight(b[1..] + [fill], n - 1, fill)
  {
  }

  /** Shifting right, with zeros, divides the number by a power of two. */
  lemma {:induction false} ShiftRightDivides(b: Bits, n: nat)
    ensures ToNat(ShiftRight(b, n, false)) == ToNat(b) / Pow2(n)
    decreases n
  {
    if b == [] {
      assert ShiftRight(b, n, false) == [];
      QuotientIs(0, Pow2(n), 0, 0);
    } else if n == 0 {
      assert ShiftRight(b, n, false) == b;
    } else {
      ShiftRightByOne(b, n, false);
      ToNatOfPrefix(b[1..], false);
      ShiftRightDivides(b[1..] + [false], n - 1);
      HalfOfQuotient(ToNat(b), n);
    }
  }

  /** Shifting right, with copies of the sign, divides the value by a power of two, rounding down. */
  lemma {:induction false} ShiftRightSignedDivides(b: Bits, n: nat)
    ensures ToInt(ShiftRight(b, n, BitAt(b, |b| - 1))) == ToInt(b) / Pow2(n)
    decreases n
  {
    var sign := BitAt(b, |b| - 1);
    if b == [] {
      assert ShiftRight(b, n, sign) == [];
      QuotientIs(0, Pow2(n), 0, 0);
    } else if n == 0 {
      assert ShiftRight(b, n, sign) == b;
    } else {
      var c := b[1..] + [sign];
      ShiftRightByOne(b, n, sign);
      ToNatOfPrefix(b[1..], sign);
      ShiftRightSignedDivides(c, n - 1);
      assert BitAt(c, |c| - 1) == sign;
      HalfOfInt(b, sign);
      HalfOfQuotient(ToInt(b), n);
    }
  }

  lemma HalfOfInt(b: Bits, sign: bool)
    requires b != [] && sign == b[|b| - 1]
    ensures ToInt(b[1..] + [sign]) == ToInt(b) / 2
  {
    ToNatOfPrefix(b[1..], sign);
    var h, p := ToNat(b[1..]), Pow2(|b| - 1);
    assert Pow2(|b|) == 2 * p && |b[1..] + [sign]| == |b|;
    assert (b[1..] + [sign])[|b| - 1] == sign;
  }

  lemma {:induction false} LowBits(x: int, w: nat)
    ensures FromInt(x, w + 1)[..w] == FromInt(x, w)
    decreases w
  {
    if w > 0 {
      LowBits(x / 2, w - 1);
      assert FromInt(x, w + 1) == [x % 2 == 1] + FromInt(x / 2, w);
    }
  }

  lemma DoubleBits(x: nat, w: nat)
    ensures FromInt(2 * x, w + 1) == [false] + FromInt(x, w)
  {
    assert (2 * x) % 2 == 0 && (2 * x) / 2 == x;
  }

  lemma ShiftLeftAt(b: Bits, n: nat, i: nat)
    requires i < |b|
    ensures |ShiftLeft(b, n)| == |b| && ShiftLeft(b, n)[i] == BitAt(b, i - n)
  {
  }

  lemma SameBits(a: Bits, b: Bits)
    requires |a| == |b| && forall i: nat :: i < |a| ==> a[i] == b[i]
    ensures a == b
  {
  }

  lemma ShiftedOnce(b: Bits)
    requires b != []
    ensures ShiftLeft(b, 1) == [false] + b[..|b| - 1]
  {
    var c := [false] + b[..|b| - 1];
    forall i: nat | i < |b| ensures ShiftLeft(b, 1)[i] == c[i] {
      ShiftLeftAt(b, 1, i);
    }
    SameBits(ShiftLeft(b, 1), c);
  }

  lemma ShiftLeftByOne(b: Bits)
    requires b != []
    ensures ShiftLeft(b, 1) == FromInt(2 * ToNat(b), |b|)
  {
    FromToNat(b);
    LowBits(ToNat(b), |b| - 1);
    DoubleBits(ToNat(b), |b| - 1);
    ShiftedOnce(b);
  }

  lemma TwoShifts(b: Bits, n: nat)
    requires n > 0
    ensures ShiftLeft(b, n) == ShiftLeft(ShiftLeft(b, 1), n - 1)
  {
    var c := ShiftLeft(b, 1);
    forall i: nat | i < |b| ensures ShiftLeft(b, n)[i] == ShiftLeft(c, n - 1)[i] {
      ShiftLeftAt(b, n, i);
      ShiftLeftAt(c, n - 1, i);
      if i >= n - 1 {
        ShiftLeftAt(b, 1, i - (n - 1));
      }
    }
    SameBits(ShiftLeft(b, n), ShiftLeft(c, n - 1));
  }

  /** Shifting left multiplies by a power of two, modulo the width. */
  lemma {:induction false} ShiftLeftMultiplies(b: Bits, n: nat)
    ensures ShiftLeft(b, n) == FromInt(ToNat(b) * Pow2(n), |b|)
    decreases n
  {
    if b == [] {
    } else if n == 0 {
      FromToNat(b);
      assert ShiftLeft(b, n) == b;
    } else {
      var c := ShiftLeft(b, 1);
      TwoShifts(b, n);
      ShiftLeftByOne(b);
      ShiftLeftMultiplies(c, n - 1);
      MulWraps(2 * ToNat(b), Pow2(n - 1), |b|);
      TwicePower(ToNat(b), n);
    }
  }

  lemma TwicePower(x: nat, n: nat)
    requires n > 0
    ensures 2 * x * Pow2(n - 1) == x * Pow2(n)
  {
  }
}
