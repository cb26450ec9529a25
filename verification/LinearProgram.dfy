/** What a tableau says about the linear program: certificates of infeasibility and of optimality. */
module LinearProgram {
  // Frozen variables may only take the value 0 (relative to their shift).

  import opened Vectors
  import opened Tableaus

  ghost predicate Feasible(y: seq<int>, frozen: set<nat>) {
    forall v :: 0 <= v < |y| ==> y[v] >= 0 && (v in frozen ==> y[v] == 0)
  }

  ghost predicate PrimalFeasible(t: Tableau, u: Params)
    requires t.Shape()
  {
    forall r :: t.nObjectives <= r < |t.rows| ==> t.Constant(r, u) >= 0
  }

  /** No column of the cost matrix that may still enter the basis is lexicographically negative. */
  ghost predicate DualFeasible(t: Tableau, frozen: set<nat>)
    requires t.Shape()
  {
    forall c :: PARAMETERS <= c < t.Columns() && t.nonBasic[c - PARAMETERS] !in frozen ==>
      LexNonNegative(t.Objectives(c))
  }

  // ---------------------------------------------------------------------------------------------
  // Rows as parameters plus non-basic part
  // ---------------------------------------------------------------------------------------------

  /** The contribution of the first `k` non-basic variables to row `r`. */
  function NonBasicPart(t: Tableau, r: nat, y: seq<int>, k: nat): int
    requires t.Valid(|y|) && r < |t.rows| && k <= |t.nonBasic|
  {
    if k == 0 then 0 else NonBasicPart(t, r, y, k - 1) + t.rows[r][PARAMETERS + k - 1] * y[t.nonBasic[k - 1]]
  }

  lemma {:induction false} RowSplits(t: Tableau, r: nat, u: Params, y: seq<int>, k: nat)
    requires t.Valid(|y|) && r < |t.rows| && k <= |t.nonBasic|
    ensures DotTo(t.rows[r], t.Values(u, y), PARAMETERS + k) == NonBasicPart(t, r, y, k) - t.Constant(r, u)
  {
    if k == 0 {
      DotThree(t.rows[r], t.Values(u, y));
    } else {
      RowSplits(t, r, u, y, k - 1);
    }
  }

  lemma ResidualSplits(t: Tableau, r: nat, u: Params, y: seq<int>)
    requires t.Valid(|y|) && r < |t.rows|
    ensures t.Residual(r, u, y) == NonBasicPart(t, r, y, |t.nonBasic|) - t.Constant(r, u)
                                   + (if r < t.nObjectives then 0 else y[t.basic[r - t.nObjectives]])
  {
    RowSplits(t, r, u, y, |t.nonBasic|);
  }

  lemma {:induction false} PartVanishes(t: Tableau, r: nat, y: seq<int>, k: nat)
    requires t.Valid(|y|) && r < |t.rows| && k <= |t.nonBasic|
    requires forall j :: 0 <= j < k ==> y[t.nonBasic[j]] == 0
    ensures NonBasicPart(t, r, y, k) == 0
  {
    if k > 0 {
      PartVanishes(t, r, y, k - 1);
    }
  }

  lemma {:induction false} PartNonNegative(t: Tableau, r: nat, y: seq<int>, k: nat)
    requires t.Valid(|y|) && r < |t.rows| && k <= |t.nonBasic|
    requires forall j :: 0 <= j < k ==>
               y[t.nonBasic[j]] == 0 || (y[t.nonBasic[j]] >= 0 && t.rows[r][PARAMETERS + j] >= 0)
    ensures NonBasicPart(t, r, y, k) >= 0
  {
    if k > 0 {
      PartNonNegative(t, r, y, k - 1);
      assert t.rows[r][PARAMETERS + k - 1] * y[t.nonBasic[k - 1]] >= 0;
    }
  }

  // ---------------------------------------------------------------------------------------------
  // The basic point
  // ---------------------------------------------------------------------------------------------

  ghost function Zeros(n: nat): (z: seq<int>)
    ensures |z| == n
  {
    seq(n, i => 0)
  }

  ghost function Constants(t: Tableau, u: Params): (b: seq<int>)
    requires t.Shape()
    ensures |b| == |t.basic|
  {
    seq(|t.basic|, r requires 0 <= r < |t.basic| => t.Constant(t.nObjectives + r, u))
  }

  /** The point at which all non-basic variables vanish, and the basic variables are what their rows leave. */
  ghost predicate IsBasicPoint(t: Tableau, u: Params, y: seq<int>)
    requires t.Valid(|y|)
  {
    && (forall k :: 0 <= k < |t.nonBasic| ==> y[t.nonBasic[k]] == 0)
    && (forall r :: 0 <= r < |t.basic| ==> y[t.basic[r]] == t.Constant(t.nObjectives + r, u))
  }

  lemma BasicPointExists(t: Tableau, nVars: nat, u: Params) returns (y: seq<int>)
    requires t.Valid(nVars)
    ensures |y| == nVars && IsBasicPoint(t, u, y)
  {
    y := Point(t, nVars, Zeros(|t.nonBasic|), Constants(t, u));
    PointAt(t, nVars, Zeros(|t.nonBasic|), Constants(t, u));
    ConstantsMakeBasicPoint(t, u, y, Constants(t, u));
  }

  lemma ConstantsMakeBasicPoint(t: Tableau, u: Params, y: seq<int>, b: seq<int>)
    requires t.Valid(|y|) && b == Constants(t, u)
    requires forall k :: 0 <= k < |t.nonBasic| ==> y[t.nonBasic[k]] == 0
    requires forall r :: 0 <= r < |t.basic| ==> y[t.basic[r]] == b[r]
    ensures IsBasicPoint(t, u, y)
  {
    forall r | 0 <= r < |t.basic| ensures y[t.basic[r]] == t.Constant(t.nObjectives + r, u) {
      assert b[r] == t.Constant(t.nObjectives + r, u);
    }
  }

  lemma BasicPointResidual(t: Tableau, u: Params, y: seq<int>, r: nat)
    requires t.Valid(|y|) && r < |t.rows| && IsBasicPoint(t, u, y)
    ensures t.Residual(r, u, y) == if r < t.nObjectives then -t.Constant(r, u) else 0
  {
    ResidualSplits(t, r, u, y);
    PartVanishes(t, r, y, |t.nonBasic|);
  }

  lemma BasicPointHolds(t: Tableau, u: Params, y: seq<int>)
    requires t.Valid(|y|) && IsBasicPoint(t, u, y)
    ensures t.Holds(u, y)
  {
    forall r | t.nObjectives <= r < |t.rows| ensures t.Residual(r, u, y) == 0 {
      BasicPointResidual(t, u, y, r);
    }
  }

  lemma BasicPointFeasible(t: Tableau, u: Params, y: seq<int>, frozen: set<nat>)
    requires t.Valid(|y|) && IsBasicPoint(t, u, y) && PrimalFeasible(t, u)
    requires forall v :: v in frozen ==> v in t.nonBasic
    ensures Feasible(y, frozen)
  {
    forall v: nat | v < |y| ensures y[v] >= 0 && (v in frozen ==> y[v] == 0) {
      if v in t.nonBasic {
        var k := IndexOf(t.nonBasic, v);
      } else {
        var r := IndexOf(t.basic, v);
      }
    }
  }

  // ---------------------------------------------------------------------------------------------
  // Infeasibility and optimality
  // ---------------------------------------------------------------------------------------------

  /** A row with a negative constant in which no candidate is negative excludes every feasible point. */
  lemma InfeasibleRow(t: Tableau, r: nat, u: Params, y: seq<int>, frozen: set<nat>)
    requires t.Valid(|y|) && t.IsConstraintRow(r) && t.Constant(r, u) < 0
    requires forall c :: PARAMETERS <= c < t.Columns() && t.nonBasic[c - PARAMETERS] !in frozen ==> t.rows[r][c] >= 0
    requires Feasible(y, frozen)
    ensures !t.Holds(u, y)
  {
    ResidualSplits(t, r, u, y);
    forall j | 0 <= j < |t.nonBasic|
      ensures y[t.nonBasic[j]] == 0 || (y[t.nonBasic[j]] >= 0 && t.rows[r][PARAMETERS + j] >= 0)
    {
      assert t.nonBasic[j] !in frozen ==> t.rows[r][PARAMETERS + j] >= 0;
    }
    PartNonNegative(t, r, y, |t.nonBasic|);
    assert t.Residual(r, u, y) > 0;
  }

  /** The objective rows' contributions of the first `k` non-basic variables. */
  ghost function ObjectiveParts(t: Tableau, y: seq<int>, k: nat): (z: seq<int>)
    requires t.Valid(|y|) && k <= |t.nonBasic|
    ensures |z| == t.nObjectives
  {
    seq(t.nObjectives, o requires 0 <= o < t.nObjectives => NonBasicPart(t, o, y, k))
  }

  lemma ObjectivePartsStep(t: Tableau, y: seq<int>, k: nat)
    requires t.Valid(|y|) && k < |t.nonBasic|
    ensures ObjectiveParts(t, y, k + 1)
         == AddScaled(ObjectiveParts(t, y, k), y[t.nonBasic[k]], t.Objectives(PARAMETERS + k))
  {
  }

  lemma {:induction false} ObjectivePartsNonNegative(t: Tableau, y: seq<int>, frozen: set<nat>, k: nat)
    requires t.Valid(|y|) && k <= |t.nonBasic| && DualFeasible(t, frozen) && Feasible(y, frozen)
    ensures LexNonNegative(ObjectiveParts(t, y, k))
  {
    if k == 0 {
      ZeroIsNonNegative(ObjectiveParts(t, y, 0));
    } else {
      ObjectivePartsNonNegative(t, y, frozen, k - 1);
      ObjectivePartsStep(t, y, k - 1);
      var v := t.nonBasic[k - 1];
      if v in frozen {
        assert ObjectiveParts(t, y, k) == ObjectiveParts(t, y, k - 1);
      } else {
        assert LexNonNegative(t.Objectives(PARAMETERS + k - 1));
        LexCone(ObjectiveParts(t, y, k - 1), y[v], t.Objectives(PARAMETERS + k - 1));
      }
    }
  }

  lemma {:induction false} ZeroIsNonNegative(z: seq<int>)
    requires forall o :: 0 <= o < |z| ==> z[o] == 0
    ensures LexNonNegative(z)
  {
    if z != [] {
      ZeroIsNonNegative(z[1..]);
    }
  }

  /** With non-negative costs the basic point is lexicographically optimal among all feasible points. */
  lemma BasicPointOptimal(t: Tableau, u: Params, best: seq<int>, y: seq<int>, frozen: set<nat>)
    requires t.Valid(|y|) && |best| == |y| && IsBasicPoint(t, u, best)
    requires DualFeasible(t, frozen) && Feasible(y, frozen)
    ensures !LexLess(t.ObjectiveValues(u, y), t.ObjectiveValues(u, best))
  {
    var z, b := t.ObjectiveValues(u, y), t.ObjectiveValues(u, best);
    ObjectivePartsNonNegative(t, y, frozen, |t.nonBasic|);
    forall o | 0 <= o < t.nObjectives ensures Minus(z, b)[o] == ObjectiveParts(t, y, |t.nonBasic|)[o] {
      ResidualSplits(t, o, u, y);
      BasicPointResidual(t, u, best, o);
    }
    assert Minus(z, b) == ObjectiveParts(t, y, |t.nonBasic|);
    NotLessIsNonNegative(z, b);
  }

  // ---------------------------------------------------------------------------------------------
  // Pivots that keep one side feasible
  // ---------------------------------------------------------------------------------------------

  lemma PivotObjectives(t: Tableau, p: nat, c: nat, col: nat)
    requires t.Shape() && t.IsPivot(p, c) && col < t.Columns()
    ensures t.Pivot(p, c).Objectives(col) ==
            if col == c then Scale(-t.rows[p][c], t.Objectives(c))
            else AddScaled(t.Objectives(col), -t.rows[p][c] * t.rows[p][col], t.Objectives(c))
  {
    var t' := t.Pivot(p, c);
    forall o | 0 <= o < t.nObjectives
      ensures t'.Objectives(col)[o] == if col == c then -t.rows[p][c] * t.rows[o][c]
                                       else t.rows[o][col] + -t.rows[p][c] * t.rows[p][col] * t.rows[o][c]
    {
      assert t'.rows[o] == t.PivotedRow(p, c, o);
      assert -t.rows[o][c] * t.rows[p][c] == -t.rows[p][c] * t.rows[o][c];
      Commute(t.rows[o][c], t.rows[p][c], t.rows[p][col]);
    }
  }

  lemma Commute(a: int, e: int, b: int)
    ensures -a * (e * b) == -e * b * a
  {
    assert a * (e * b) == e * b * a;
  }

  /** Pivoting on a negative element whose column is lexicographically least among the negative candidates of
      the row (the ratio test of the dual simplex algorithm) keeps dual feasibility. */
  lemma DualPivotKeepsDualFeasible(t: Tableau, nVars: nat, p: nat, c: nat, frozen: set<nat>)
    requires t.Valid(nVars) && t.IsPivot(p, c) && t.rows[p][c] == -1
    requires t.nonBasic[c - PARAMETERS] !in frozen && DualFeasible(t, frozen)
    requires forall col :: PARAMETERS <= col < t.Columns() && t.nonBasic[col - PARAMETERS] !in frozen ==>
               -1 <= t.rows[p][col] <= 1
    requires forall col ::
               (PARAMETERS <= col < t.Columns() && t.nonBasic[col - PARAMETERS] !in frozen && t.rows[p][col] < 0) ==>
               !LexLess(t.Objectives(col), t.Objectives(c))
    ensures DualFeasible(t.Pivot(p, c), frozen)
  {
    var t' := t.Pivot(p, c);
    forall col | PARAMETERS <= col < t'.Columns() && t'.nonBasic[col - PARAMETERS] !in frozen
      ensures LexNonNegative(t'.Objectives(col))
    {
      PivotObjectives(t, p, c, col);
      assert LexNonNegative(t.Objectives(c));
      if col == c {
        assert t'.Objectives(c) == t.Objectives(c);
      } else {
        assert t'.nonBasic[col - PARAMETERS] == t.nonBasic[col - PARAMETERS];
        assert LexNonNegative(t.Objectives(col));
        if t.rows[p][col] == -1 {
          NotLessIsNonNegative(t.Objectives(col), t.Objectives(c));
          assert t'.Objectives(col) == Minus(t.Objectives(col), t.Objectives(c));
        } else {
          LexCone(t.Objectives(col), t.rows[p][col], t.Objectives(c));
        }
      }
    }
  }

  lemma PivotConstant(t: Tableau, p: nat, c: nat, r: nat, u: Params)
    requires t.Shape() && t.IsPivot(p, c) && r < |t.rows|
    ensures t.Pivot(p, c).Constant(r, u) ==
            if r == p then t.rows[p][c] * t.Constant(p, u)
            else t.Constant(r, u) - t.rows[r][c] * t.rows[p][c] * t.Constant(p, u)
  {
    var t' := t.Pivot(p, c);
    assert t'.rows[r] == t.PivotedRow(p, c, r);
    var e, b := t.rows[p][c], t.rows[p];
    if r == p {
      forall i | 0 <= i < 3 ensures t'.rows[p][i] == e * b[i] {}
      Distribute(e, b[0], b[1], b[2], u);
    } else {
      var f := t.rows[r][c];
      forall i | 0 <= i < 3 ensures t'.rows[r][i] == t.rows[r][i] - (f * e) * b[i] {
        Regroup(f, e, b[i], 0);
      }
      DistributeMinus(t.rows[r][0], t.rows[r][1], t.rows[r][2], f * e, b[0], b[1], b[2], u);
    }
  }

  lemma Distribute(e: int, b0: int, b1: int, b2: int, u: Params)
    ensures e * b0 * u.one + e * b1 * u.s + e * b2 * u.t == e * (b0 * u.one + b1 * u.s + b2 * u.t)
  {
    assert e * b0 * u.one == e * (b0 * u.one);
    assert e * b1 * u.s == e * (b1 * u.s);
    assert e * b2 * u.t == e * (b2 * u.t);
  }

  lemma DistributeMinus(a0: int, a1: int, a2: int, e: int, b0: int, b1: int, b2: int, u: Params)
    ensures (a0 - e * b0) * u.one + (a1 - e * b1) * u.s + (a2 - e * b2) * u.t
         == a0 * u.one + a1 * u.s + a2 * u.t - e * (b0 * u.one + b1 * u.s + b2 * u.t)
  {
    Distribute(e, b0, b1, b2, u);
    assert (a0 - e * b0) * u.one == a0 * u.one - e * b0 * u.one;
    assert (a1 - e * b1) * u.s == a1 * u.s - e * b1 * u.s;
    assert (a2 - e * b2) * u.t == a2 * u.t - e * b2 * u.t;
  }

  /** Pivoting on a positive element whose row has the least constant among the positive candidates of the
      column (the ratio test of the primal simplex algorithm) keeps primal feasibility. */
  lemma PrimalPivotKeepsPrimalFeasible(t: Tableau, p: nat, c: nat, u: Params)
    requires t.Shape() && t.IsPivot(p, c) && t.rows[p][c] == 1 && PrimalFeasible(t, u)
    requires forall r :: t.nObjectives <= r < |t.rows| ==> -1 <= t.rows[r][c] <= 1
    requires forall r :: t.nObjectives <= r < |t.rows| && t.rows[r][c] > 0 ==> t.Constant(p, u) <= t.Constant(r, u)
    ensures PrimalFeasible(t.Pivot(p, c), u)
  {
    var t' := t.Pivot(p, c);
    forall r | t'.nObjectives <= r < |t'.rows| ensures t'.Constant(r, u) >= 0 {
      PivotConstant(t, p, c, r, u);
      assert t.Constant(r, u) >= 0;
    }
  }
}
