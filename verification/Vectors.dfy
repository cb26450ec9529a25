/** Integer vectors: dot products, and the lexicographic order the solver uses to compare objective columns. */
module Vectors {

  // ---------------------------------------------------------------------------------------------
  // Dot products
  // ---------------------------------------------------------------------------------------------

  /** The dot product of the first `k` entries of `a` and `b`. */
  function DotTo(a: seq<int>, b: seq<int>, k: nat): int
    requires k <= |a| && k <= |b|
  {
    if k == 0 then 0 else DotTo(a, b, k - 1) + a[k - 1] * b[k - 1]
  }

  function Dot(a: seq<int>, b: seq<int>): int
    requires |a| == |b|
  {
    DotTo(a, b, |a|)
  }

  /** Entry-wise `f * a`. */
  function Scale(f: int, a: seq<int>): (r: seq<int>)
    ensures |r| == |a|
  {
    seq(|a|, i requires 0 <= i < |a| => f * a[i])
  }

  /** Entry-wise `a + f * b`. */
  function AddScaled(a: seq<int>, f: int, b: seq<int>): (r: seq<int>)
    requires |a| == |b|
    ensures |r| == |a|
  {
    seq(|a|, i requires 0 <= i < |a| => a[i] + f * b[i])
  }

  lemma {:induction false} DotToScale(f: int, a: seq<int>, v: seq<int>, k: nat)
    requires k <= |a| == |v|
    ensures DotTo(Scale(f, a), v, k) == f * DotTo(a, v, k)
  {
    if k > 0 {
      DotToScale(f, a, v, k - 1);
      var p := DotTo(a, v, k - 1);
      var x, y := a[k - 1], v[k - 1];
      assert f * x * y == f * (x * y);
      assert f * (p + x * y) == f * p + f * (x * y);
    }
  }

  lemma {:induction false} DotToAddScaled(a: seq<int>, f: int, b: seq<int>, v: seq<int>, k: nat)
    requires k <= |a| == |b| == |v|
    ensures DotTo(AddScaled(a, f, b), v, k) == DotTo(a, v, k) + f * DotTo(b, v, k)
  {
    if k > 0 {
      DotToAddScaled(a, f, b, v, k - 1);
      var p := DotTo(b, v, k - 1);
      var x, y, z := a[k - 1], b[k - 1], v[k - 1];
      assert (x + f * y) * z == x * z + f * (y * z);
      assert f * (p + y * z) == f * p + f * (y * z);
    }
  }

  /** Changing one coordinate of both vectors exchanges one product. */
  lemma {:induction false} DotToUpdate(a: seq<int>, v: seq<int>, c: nat, x: int, y: int, k: nat)
    requires |a| == |v| && c < |a| && k <= |a|
    ensures DotTo(a[c := x], v[c := y], k) == DotTo(a, v, k) + (if c < k then x * y - a[c] * v[c] else 0)
  {
    if k > 0 {
      DotToUpdate(a, v, c, x, y, k - 1);
    }
  }

  /** A vector that vanishes outside coordinate `c` picks out one product. */
  lemma {:induction false} DotToUnit(a: seq<int>, v: seq<int>, c: nat, k: nat)
    requires |a| == |v| && c < |a| && k <= |a|
    requires forall i :: 0 <= i < |v| && i != c ==> v[i] == 0
    ensures DotTo(a, v, k) == if c < k then a[c] * v[c] else 0
  {
    if k > 0 {
      DotToUnit(a, v, c, k - 1);
    }
  }

  lemma {:induction false} DotCommutes(a: seq<int>, v: seq<int>, k: nat)
    requires k <= |a| && k <= |v|
    ensures DotTo(a, v, k) == DotTo(v, a, k)
  {
    if k > 0 {
      DotCommutes(a, v, k - 1);
    }
  }

  lemma {:induction false} DotToZero(a: seq<int>, v: seq<int>, k: nat)
    requires k <= |a| && k <= |v|
    requires forall i :: 0 <= i < k ==> a[i] == 0 || v[i] == 0
    ensures DotTo(a, v, k) == 0
  {
    if k > 0 {
      DotToZero(a, v, k - 1);
    }
  }

  lemma {:induction false} DotToSame(a: seq<int>, v: seq<int>, w: seq<int>, k: nat)
    requires k <= |a| && k <= |v| && k <= |w|
    requires forall i :: 0 <= i < k ==> a[i] == 0 || v[i] == w[i]
    ensures DotTo(a, v, k) == DotTo(a, w, k)
  {
    if k > 0 {
      DotToSame(a, v, w, k - 1);
    }
  }

  /** Splits off the first `m` coordinates. */
  lemma {:induction false} DotToTail(a: seq<int>, v: seq<int>, m: nat, k: nat)
    requires m <= k <= |a| && k <= |v|
    requires forall i :: m <= i < k ==> a[i] * v[i] >= 0
    ensures DotTo(a, v, k) >= DotTo(a, v, m)
  {
    if m < k {
      DotToTail(a, v, m, k - 1);
    }
  }

  lemma DotThree(a: seq<int>, v: seq<int>)
    requires |a| >= 3 && |v| >= 3
    ensures DotTo(a, v, 3) == a[0] * v[0] + a[1] * v[1] + a[2] * v[2]
  {
    assert DotTo(a, v, 1) == DotTo(a, v, 0) + a[0] * v[0];
    assert DotTo(a, v, 2) == DotTo(a, v, 1) + a[1] * v[1];
  }

  // ---------------------------------------------------------------------------------------------
  // Lexicographic order
  // ---------------------------------------------------------------------------------------------

  /** `std::lexicographical_compare` on two vectors of one length: `a` is strictly smaller. */
  predicate LexLess(a: seq<int>, b: seq<int>)
    requires |a| == |b|
  {
    a != [] && (a[0] < b[0] || (a[0] == b[0] && LexLess(a[1..], b[1..])))
  }

  /** The first non-zero entry, if there is one, is positive. */
  predicate LexNonNegative(a: seq<int>)
  {
    a == [] || a[0] > 0 || (a[0] == 0 && LexNonNegative(a[1..]))
  }

  function Minus(a: seq<int>, b: seq<int>): (r: seq<int>)
    requires |a| == |b|
    ensures |r| == |a|
  {
    AddScaled(a, -1, b)
  }

  /** Not being smaller is the same as having a lexicographically non-negative difference. */
  lemma {:induction false} NotLessIsNonNegative(a: seq<int>, b: seq<int>)
    requires |a| == |b|
    ensures !LexLess(a, b) <==> LexNonNegative(Minus(a, b))
  {
    if a != [] {
      NotLessIsNonNegative(a[1..], b[1..]);
      assert Minus(a, b)[1..] == Minus(a[1..], b[1..]);
    }
  }

  /** Lexicographically non-negative vectors form a cone. */
  lemma {:induction false} LexCone(a: seq<int>, f: int, b: seq<int>)
    requires |a| == |b| && LexNonNegative(a) && LexNonNegative(b) && f >= 0
    ensures LexNonNegative(AddScaled(a, f, b))
  {
    if a != [] {
      assert AddScaled(a, f, b)[1..] == AddScaled(a[1..], f, b[1..]);
      if b[0] > 0 && f > 0 {
        assert f * b[0] > 0;
      } else if f == 0 {
        assert AddScaled(a, f, b) == a;
      } else {
        if a[0] == 0 {
          LexCone(a[1..], f, b[1..]);
        }
      }
    }
  }

  lemma {:induction false} LexNegate(a: seq<int>, b: seq<int>)
    requires |a| == |b|
    ensures LexLess(Scale(-1, a), Scale(-1, b)) <==> LexLess(b, a)
  {
    if a != [] {
      LexNegate(a[1..], b[1..]);
      assert Scale(-1, a)[1..] == Scale(-1, a[1..]);
      assert Scale(-1, b)[1..] == Scale(-1, b[1..]);
    }
  }
}
