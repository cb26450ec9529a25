/** Columns that the primal simplex finds no pivot row for: the linear program is unbounded. */
module Unbounded {
  import opened Vectors
  import opened Tableaus
  import opened LinearProgram
  import opened SimplexTheory

  /** The point at which the non-basic variable of column `c` has the value `k`, and the others vanish. */
  ghost predicate IsRayPoint(t: Tableau, u: Params, c: nat, k: int, y: seq<int>)
    requires t.Valid(|y|) && PARAMETERS <= c < t.Columns()
  {
    && (forall j :: 0 <= j < |t.nonBasic| ==> y[t.nonBasic[j]] == if PARAMETERS + j == c then k else 0)
    && forall r :: 0 <= r < |t.basic| ==>
         y[t.basic[r]] == t.Constant(t.nObjectives + r, u) - t.rows[t.nObjectives + r][c] * k
  }

  ghost function RayConstants(t: Tableau, u: Params, c: nat, k: int): (b: seq<int>)
    requires t.Shape() && PARAMETERS <= c < t.Columns()
    ensures |b| == |t.basic|
  {
    seq(|t.basic|, r requires 0 <= r < |t.basic| =>
      t.Constant(t.nObjectives + r, u) - t.rows[t.nObjectives + r][c] * k)
  }

  lemma RayPointExists(t: Tableau, nVars: nat, u: Params, c: nat, k: int) returns (y: seq<int>)
    requires t.Valid(nVars) && PARAMETERS <= c < t.Columns()
    ensures |y| == nVars && IsRayPoint(t, u, c, k, y)
  {
    var nb := seq(|t.nonBasic|, j => if PARAMETERS + j == c then k else 0);
    var b := RayConstants(t, u, c, k);
    y := Point(t, nVars, nb, b);
    PointAt(t, nVars, nb, b);
    ConstantsMakeRayPoint(t, u, c, k, y, b);
  }

  lemma ConstantsMakeRayPoint(t: Tableau, u: Params, c: nat, k: int, y: seq<int>, b: seq<int>)
    requires t.Valid(|y|) && PARAMETERS <= c < t.Columns() && b == RayConstants(t, u, c, k)
    requires forall j :: 0 <= j < |t.nonBasic| ==> y[t.nonBasic[j]] == if PARAMETERS + j == c then k else 0
    requires forall r :: 0 <= r < |t.basic| ==> y[t.basic[r]] == b[r]
    ensures IsRayPoint(t, u, c, k, y)
  {
    forall r | 0 <= r < |t.basic|
      ensures y[t.basic[r]] == t.Constant(t.nObjectives + r, u) - t.rows[t.nObjectives + r][c] * k
    {
      assert b[r] == t.Constant(t.nObjectives + r, u) - t.rows[t.nObjectives + r][c] * k;
    }
  }

  lemma {:induction false} RayPart(t: Tableau, r: nat, u: Params, c: nat, k: int, y: seq<int>, m: nat)
    requires t.Valid(|y|) && r < |t.rows| && PARAMETERS <= c < t.Columns() && m <= |t.nonBasic|
    requires IsRayPoint(t, u, c, k, y)
    ensures NonBasicPart(t, r, y, m) == if c < PARAMETERS + m then t.rows[r][c] * k else 0
  {
    if m > 0 {
      RayPart(t, r, u, c, k, y, m - 1);
    }
  }

  lemma RayResidual(t: Tableau, r: nat, u: Params, c: nat, k: int, y: seq<int>)
    requires t.Valid(|y|) && r < |t.rows| && PARAMETERS <= c < t.Columns() && IsRayPoint(t, u, c, k, y)
    ensures t.Residual(r, u, y) == if r < t.nObjectives then t.rows[r][c] * k - t.Constant(r, u) else 0
  {
    ResidualSplits(t, r, u, y);
    RayPart(t, r, u, c, k, y, |t.nonBasic|);
  }

  /** No constraint row limits the column. */
  ghost predicate IsUnlimited(t: Tableau, c: nat)
    requires t.Shape() && c < t.Columns()
  {
    forall r :: t.nObjectives <= r < |t.rows| ==> t.rows[r][c] <= 0
  }

  lemma RayFeasible(t: Tableau, u: Params, c: nat, k: nat, y: seq<int>, frozen: set<nat>)
    requires t.Valid(|y|) && PARAMETERS <= c < t.Columns() && IsRayPoint(t, u, c, k, y)
    requires PrimalFeasible(t, u) && IsUnlimited(t, c)
    requires t.nonBasic[c - PARAMETERS] !in frozen && forall v :: v in frozen ==> v in t.nonBasic
    ensures t.Holds(u, y) && Feasible(y, frozen)
  {
    forall r | t.nObjectives <= r < |t.rows| ensures t.Residual(r, u, y) == 0 {
      RayResidual(t, r, u, c, k, y);
    }
    forall v: nat | v < |y| ensures y[v] >= 0 && (v in frozen ==> y[v] == 0) {
      if v in t.nonBasic {
        var j := IndexOf(t.nonBasic, v);
      } else {
        var r := IndexOf(t.basic, v);
        assert t.rows[t.nObjectives + r][c] * k <= 0;
      }
    }
  }

  /** A feasible point at which the objective is below the bound, and those of higher priority are as at `u`. */
  ghost predicate IsBelow(t: Tableau, u: Params, frozen: set<nat>, o: nat, bound: int, y: seq<int>)
    requires t.Shape() && o < t.nObjectives
  {
    && t.Valid(|y|) && t.Holds(u, y) && Feasible(y, frozen)
    && t.Residual(o, u, y) < bound && forall h: nat :: h < o ==> t.Residual(h, u, y) == -t.Constant(h, u)
  }

  ghost predicate HasPointBelow(t: Tableau, nVars: nat, u: Params, frozen: set<nat>, o: nat, bound: int)
    requires t.Shape() && o < t.nObjectives
  {
    exists y: seq<int> :: |y| == nVars && IsBelow(t, u, frozen, o, bound, y)
  }

  /** There are feasible points at which the objective is as small as wanted. */
  ghost predicate IsUnbounded(t: Tableau, nVars: nat, u: Params, frozen: set<nat>, o: nat)
    requires t.Shape() && o < t.nObjectives
  {
    forall bound: int :: HasPointBelow(t, nVars, u, frozen, o, bound)
  }

  lemma {:induction false} FirstNegative(v: seq<int>, z: seq<int>) returns (o: nat)
    requires |z| == |v| && LexLess(v, z) && forall i :: 0 <= i < |z| ==> z[i] == 0
    ensures o < |v| && v[o] < 0 && forall h :: 0 <= h < o ==> v[h] == 0
  {
    o := 0;
    if v[0] == 0 {
      var rest := FirstNegative(v[1..], z[1..]);
      o := rest + 1;
      assert v[o] == v[1..][rest];
      forall h | 0 <= h < o ensures v[h] == 0 {
        assert h > 0 ==> v[h] == v[1..][h - 1];
      }
    }
  }

  lemma AtMostMinus(a: int, k: nat)
    requires a < 0
    ensures a * k <= 0 - k
  {
  }

  lemma RayIsBelow(t: Tableau, nVars: nat, u: Params, frozen: set<nat>, c: nat, o: nat, bound: int)
    requires t.Valid(nVars) && PrimalFeasible(t, u) && PARAMETERS <= c < t.Columns() && IsUnlimited(t, c)
    requires t.nonBasic[c - PARAMETERS] !in frozen && forall v :: v in frozen ==> v in t.nonBasic
    requires o < t.nObjectives && t.rows[o][c] < 0 && forall h: nat :: h < o ==> t.rows[h][c] == 0
    ensures HasPointBelow(t, nVars, u, frozen, o, bound)
  {
    var k: nat := if -t.Constant(o, u) < bound then 0 else -t.Constant(o, u) - bound + 1;
    var y := RayPointExists(t, nVars, u, c, k);
    RayFeasible(t, u, c, k, y, frozen);
    RayResidual(t, o, u, c, k, y);
    AtMostMinus(t.rows[o][c], k);
    forall h: nat | h < o ensures t.Residual(h, u, y) == -t.Constant(h, u) {
      RayResidual(t, h, u, c, k, y);
    }
  }

  /** A negative cost column that no constraint limits makes the program unbounded. */
  lemma UnlimitedIsUnbounded(t: Tableau, nVars: nat, u: Params, frozen: set<nat>, c: nat) returns (o: nat)
    requires t.Valid(nVars) && PrimalFeasible(t, u) && IsNegativeColumn(t, frozen, c) && IsUnlimited(t, c)
    requires forall v :: v in frozen ==> v in t.nonBasic
    ensures o < t.nObjectives && IsUnbounded(t, nVars, u, frozen, o)
  {
    o := FirstNegative(t.Objectives(c), seq(t.nObjectives, i => 0));
    assert forall h: nat :: h <= o ==> t.rows[h][c] == t.Objectives(c)[h];
    forall bound: int ensures HasPointBelow(t, nVars, u, frozen, o, bound) {
      RayIsBelow(t, nVars, u, frozen, c, o, bound);
    }
  }

  // ---------------------------------------------------------------------------------------------
  // Sums of start times are bounded
  // ---------------------------------------------------------------------------------------------

  ghost predicate NonNegativeWeights(weights: seq<seq<int>>) {
    forall o: nat, i: nat :: o < |weights| && i < |weights[o]| ==> weights[o][i] >= 0
  }

  /** The start times when all variables vanish. */
  ghost function Shifts(sys: System, u: Params): (s: seq<int>)
    requires sys.Valid()
    ensures |s| == sys.n
  {
    seq(sys.n, i requires 0 <= i < sys.n => sys.shift[i].Times(u))
  }

  lemma {:induction false} DotIsMonotone(w: seq<int>, a: seq<int>, b: seq<int>, k: nat)
    requires |w| == |a| == |b| && k <= |w|
    requires forall i :: 0 <= i < |w| ==> w[i] >= 0 && a[i] <= b[i]
    ensures DotTo(w, a, k) <= DotTo(w, b, k)
  {
    if k > 0 {
      DotIsMonotone(w, a, b, k - 1);
      assert w[k - 1] * a[k - 1] <= w[k - 1] * b[k - 1];
    }
  }

  /** A weighted sum of start times is not below the one of the shifts. */
  lemma CostIsBounded(t: Tableau, sys: System, weights: seq<seq<int>>, u: Params, y: seq<int>, frozen: set<nat>, o: nat)
    requires Represents(t, sys) && Measures(t, sys, weights) && NonNegativeWeights(weights)
    requires o < t.nObjectives && |y| == sys.Variables() && sys.Holds(u, y) && Feasible(y, frozen)
    ensures t.Residual(o, u, y) >= Dot(weights[o], Shifts(sys, u))
  {
    DotIsMonotone(weights[o], Shifts(sys, u), sys.Starts(u, y), sys.n);
  }

  /** If the objectives are weighted sums of start times, every negative cost column is limited. */
  lemma SumsAreLimited(t: Tableau, sys: System, weights: seq<seq<int>>, u: Params, frozen: set<nat>, c: nat)
    requires Represents(t, sys) && Measures(t, sys, weights) && NonNegativeWeights(weights)
    requires PrimalFeasible(t, u) && IsNegativeColumn(t, frozen, c)
    requires forall v :: v in frozen ==> v in t.nonBasic
    ensures !IsUnlimited(t, c)
  {
    if IsUnlimited(t, c) {
      var o := UnlimitedIsUnbounded(t, sys.Variables(), u, frozen, c);
      var bound := Dot(weights[o], Shifts(sys, u));
      assert HasPointBelow(t, sys.Variables(), u, frozen, o, bound);
      var y: seq<int> :| |y| == sys.Variables() && IsBelow(t, u, frozen, o, bound, y);
      CostIsBounded(t, sys, weights, u, y, frozen, o);
    }
  }
}
