/** How the solver selects pivots, what its outcomes mean for schedules, and the start times it reads off. */
module SimplexTheory {
  import opened Vectors
  import opened Tableaus
  import opened LinearProgram
  import opened Schedules

  // ---------------------------------------------------------------------------------------------
  // Selecting pivots
  // ---------------------------------------------------------------------------------------------

  /** An element that the dual ratio test looks at. */
  predicate IsCandidate(t: Tableau, frozen: set<nat>, row: nat, allowPositive: bool, col: nat)
    requires t.Shape() && t.IsConstraintRow(row)
  {
    && PARAMETERS <= col < t.Columns()
    && t.nonBasic[col - PARAMETERS] !in frozen
    && (t.rows[row][col] < 0 || (allowPositive && t.rows[row][col] > 0))
  }

  function Quotients(t: Tableau, row: nat, col: nat): (q: seq<int>)
    requires t.Shape() && t.IsConstraintRow(row) && col < t.Columns() && t.rows[row][col] != 0
    ensures |q| == t.nObjectives
  {
    seq(t.nObjectives, o requires 0 <= o < t.nObjectives => t.rows[o][col] / t.rows[row][col])
  }

  lemma QuotientsOfMinusOne(t: Tableau, row: nat, col: nat)
    requires t.Shape() && t.IsConstraintRow(row) && col < t.Columns() && t.rows[row][col] == -1
    ensures Quotients(t, row, col) == Scale(-1, t.Objectives(col))
  {
  }

  /** Row and column of a dual pivot step, as `findDualPivotColumn` chooses the column. */
  ghost predicate IsLexMaxCandidate(t: Tableau, frozen: set<nat>, row: nat, allowPositive: bool, col: nat)
    requires t.Shape() && t.IsConstraintRow(row)
  {
    && IsCandidate(t, frozen, row, allowPositive, col)
    && forall c :: IsCandidate(t, frozen, row, allowPositive, c) ==>
         !LexLess(Quotients(t, row, col), Quotients(t, row, c))
  }

  lemma {:induction false} LexLessTransitive(a: seq<int>, b: seq<int>, c: seq<int>)
    requires |a| == |b| == |c| && LexLess(a, b) && LexLess(b, c)
    ensures LexLess(a, c)
  {
    if a[0] == b[0] == c[0] {
      LexLessTransitive(a[1..], b[1..], c[1..]);
    }
  }

  /** The first constraint row whose parametric constant is negative. */
  ghost predicate IsFirstNegativeRow(t: Tableau, u: Params, row: nat)
    requires t.Shape()
  {
    && t.IsConstraintRow(row) && t.Constant(row, u) < 0
    && forall r :: t.nObjectives <= r < row ==> t.Constant(r, u) >= 0
  }

  /** A column that the primal ratio test accepts: lexicographically negative, and not frozen. */
  predicate IsNegativeColumn(t: Tableau, frozen: set<nat>, col: nat)
    requires t.Shape()
  {
    && PARAMETERS <= col < t.Columns()
    && t.nonBasic[col - PARAMETERS] !in frozen
    && LexLess(t.Objectives(col), seq(t.nObjectives, i => 0))
  }

  ghost predicate IsLeastRow(t: Tableau, u: Params, col: nat, row: nat)
    requires t.Shape() && PARAMETERS <= col < t.Columns()
  {
    && t.IsConstraintRow(row) && t.rows[row][col] > 0
    && forall r: nat :: t.IsConstraintRow(r) && t.rows[r][col] > 0 ==> t.Constant(row, u) <= t.Constant(r, u)
  }

  lemma {:induction false} NotBelowZero(a: seq<int>, z: seq<int>)
    requires |a| == |z| && forall i :: 0 <= i < |z| ==> z[i] == 0
    ensures LexNonNegative(a) <==> !LexLess(a, z)
  {
    if a != [] {
      NotBelowZero(a[1..], z[1..]);
    }
  }

  // ---------------------------------------------------------------------------------------------
  // Excluded parameters
  // ---------------------------------------------------------------------------------------------

  /** The system has no feasible point at these parameters. */
  ghost predicate NoSolution(sys: System, frozen: set<nat>, u: Params)
    requires sys.Valid()
  {
    forall y: seq<int> :: |y| == sys.Variables() && sys.Holds(u, y) ==> !Feasible(y, frozen)
  }

  /** No row mentions the parameter T: the problem has no inter-iteration dependences. */
  ghost predicate FreeOfT(t: Tableau)
    requires t.Shape()
  {
    forall r :: 0 <= r < |t.rows| ==> t.rows[r][2] == 0
  }

  lemma PivotStaysFreeOfT(t: Tableau, p: nat, c: nat)
    requires t.Shape() && t.IsPivot(p, c) && FreeOfT(t)
    ensures FreeOfT(t.Pivot(p, c))
  {
    forall r: nat | r < |t.rows| ensures t.Pivot(p, c).rows[r][2] == 0 {
      assert t.Pivot(p, c).rows[r] == t.PivotedRow(p, c, r);
      assert t.rows[r][2] == 0 && t.rows[p][2] == 0;
    }
  }

  /** A row without candidates whose constant is negative at `u` excludes `u`. */
  lemma RowExcludes(t: Tableau, sys: System, frozen: set<nat>, row: nat, u: Params)
    requires Represents(t, sys) && t.IsConstraintRow(row) && t.Constant(row, u) < 0
    requires forall c :: !IsCandidate(t, frozen, row, false, c)
    ensures NoSolution(sys, frozen, u)
  {
    forall y: seq<int> | |y| == sys.Variables() && sys.Holds(u, y) ensures !Feasible(y, frozen) {
      if Feasible(y, frozen) {
        forall c | PARAMETERS <= c < t.Columns() && t.nonBasic[c - PARAMETERS] !in frozen
          ensures t.rows[row][c] >= 0
        {
          assert !IsCandidate(t, frozen, row, false, c);
        }
        InfeasibleRow(t, row, u, y, frozen);
        assert false;
      }
    }
  }

  /** The least T that makes  one + coefficient * T  non-negative, as the source computes it. */
  function LeastT(one: int, coefficient: int): (t: int)
    requires one < 0 < coefficient
    ensures t >= 1 && one + coefficient * t >= 0
    ensures forall t' :: t' < t ==> one + coefficient * t' < 0
  {
    var q := (-one - 1) / coefficient;
    assert coefficient * q <= -one - 1 < coefficient * (q + 1);
    assert forall t' :: t' < q + 1 ==> coefficient * t' <= coefficient * q;
    q + 1
  }

  /** The initiation interval is raised to the least value at which the entries of a row for 1 and T do not sum up to a
      negative number. */
  ghost predicate IsRaised(t: Tableau, p: nat, ii: int, ii': int)
    requires t.Shape()
  {
    && ii' > ii && t.IsConstraintRow(p) && t.rows[p][2] > 0
    && t.rows[p][0] + t.rows[p][2] * ii' >= 0 && t.rows[p][0] + t.rows[p][2] * (ii' - 1) < 0
  }

  /** A pivot, or a larger initiation interval. */
  ghost predicate IsSolvingStep(t: Tableau, ii: int, t': Tableau, ii': int) {
    || (t.Shape() && ii' == ii && exists p: nat, c: nat :: t.IsPivot(p, c) && t' == t.Pivot(p, c))
    || (t' == t && t.Shape() && exists p: nat :: IsRaised(t, p, ii, ii'))
  }

  /** The tableaus and intervals that the steps of the solver go through. */
  ghost predicate IsSolvingRun(run: seq<(Tableau, int)>) {
    run != [] && forall i: nat :: i + 1 < |run| ==> IsSolvingStep(run[i].0, run[i].1, run[i + 1].0, run[i + 1].1)
  }

  /** The tableau and the interval after `n` steps. */
  ghost predicate MakesSteps(t: Tableau, ii: int, t': Tableau, ii': int, n: nat) {
    exists run :: IsSolvingRun(run) && |run| == n + 1 && run[0] == (t, ii) && run[n] == (t', ii')
  }

  lemma NoSteps(t: Tableau, ii: int)
    ensures MakesSteps(t, ii, t, ii, 0)
  {
    assert IsSolvingRun([(t, ii)]);
  }

  lemma OneMoreStep(t: Tableau, ii: int, t1: Tableau, ii1: int, n: nat, t': Tableau, ii': int)
    requires MakesSteps(t, ii, t1, ii1, n) && IsSolvingStep(t1, ii1, t', ii')
    ensures MakesSteps(t, ii, t', ii', n + 1)
  {
    var run :| IsSolvingRun(run) && |run| == n + 1 && run[0] == (t, ii) && run[n] == (t1, ii1);
    assert IsSolvingRun(run + [(t', ii')]);
  }

  /** From some tableau of a problem with these constraints, with start times fixed or not, the solver makes this number
      of steps without coming to an end. */
  ghost predicate RunsFor(n: nat, cons: seq<Constraint>, steps: nat) {
    exists sys: System, t, ii, t', ii' ::
      sys.n == n && sys.cons == cons && Represents(t, sys) && MakesSteps(t, ii, t', ii', steps)
  }

  lemma KeepsRunning(sys: System, t: Tableau, ii: int, t': Tableau, ii': int, steps: nat)
    requires Represents(t, sys) && MakesSteps(t, ii, t', ii', steps)
    ensures RunsFor(sys.n, sys.cons, steps)
  {
  }

  /** What the initiation intervals below the current one are excluded by when `solveTableau` ends. */
  ghost predicate ExcludedBetween(sys: System, frozen: set<nat>, s: int, low: int, high: int)
    requires sys.Valid()
  {
    forall ii :: low <= ii < high ==> NoSolution(sys, frozen, Params(1, s, ii))
  }

  // ---------------------------------------------------------------------------------------------
  // Start times
  // ---------------------------------------------------------------------------------------------

  /** The start time that the tableau assigns to operation `v`. */
  ghost function StartTime(t: Tableau, frozen: map<nat, nat>, u: Params, v: nat): int
    requires t.Shape()
  {
    if v in t.basic then t.Constant(t.nObjectives + IndexOf(t.basic, v), u)
    else if v in frozen then frozen[v] else 0
  }

  ghost function StartTimes(t: Tableau, frozen: map<nat, nat>, u: Params, n: nat): (times: seq<int>)
    requires t.Shape()
    ensures |times| == n
  {
    seq(n, v requires 0 <= v < n => StartTime(t, frozen, u, v))
  }

  lemma StartTimesOfBasicPoint(t: Tableau, sys: System, frozen: map<nat, nat>, u: Params, y: seq<int>)
    requires Represents(t, sys) && |y| == sys.Variables() && IsBasicPoint(t, u, y)
    requires ShiftsFreeze(sys, frozen, u) && forall v :: v in frozen ==> v in t.nonBasic
    ensures sys.Starts(u, y) == StartTimes(t, frozen, u, sys.n)
  {
    forall v: nat | v < sys.n ensures sys.Start(v, u, y) == StartTime(t, frozen, u, v) {
      if v in t.basic {
        var r := IndexOf(t.basic, v);
        assert v !in t.nonBasic;
      } else {
        var k := IndexOf(t.nonBasic, v);
      }
    }
  }

  /** A primal feasible tableau assigns a schedule that keeps the frozen start times. */
  lemma StartTimesAreSchedule(t: Tableau, sys: System, frozen: map<nat, nat>, s: int, ii: int)
    requires Represents(t, sys) && PrimalFeasible(t, Params(1, s, ii))
    requires ShiftsFreeze(sys, frozen, Params(1, s, ii)) && forall v :: v in frozen ==> v in t.nonBasic
    ensures var times := StartTimes(t, frozen, Params(1, s, ii), sys.n);
            IsSchedule(sys, times, ii) && Respects(times, frozen)
  {
    var u := Params(1, s, ii);
    var y := BasicPointExists(t, sys.Variables(), u);
    BasicPointHolds(t, u, y);
    assert sys.Holds(u, y);
    BasicPointFeasible(t, u, y, frozen.Keys);
    FeasibleIsSchedule(sys, frozen, s, y, ii);
    StartTimesOfBasicPoint(t, sys, frozen, u, y);
  }

  /** An excluded parameter leaves no schedule. */
  lemma NoSolutionNoSchedule(sys: System, frozen: map<nat, nat>, s: int, ii: int, times: seq<int>)
    requires sys.Valid() && ShiftsFreeze(sys, frozen, Params(1, s, ii))
    requires NoSolution(sys, frozen.Keys, Params(1, s, ii))
    ensures !(IsSchedule(sys, times, ii) && Respects(times, frozen))
  {
    if IsSchedule(sys, times, ii) && Respects(times, frozen) {
      PointOfHolds(sys, Params(1, s, ii), times);
      ScheduleIsFeasible(sys, frozen, s, times, ii);
      assert false;
    }
  }

  /** The weighted sums that the objective rows minimise. */
  ghost function Costs(weights: seq<seq<int>>, times: seq<int>): (z: seq<int>)
    requires forall o :: 0 <= o < |weights| ==> |weights[o]| == |times|
    ensures |z| == |weights|
  {
    seq(|weights|, o requires 0 <= o < |weights| => Dot(weights[o], times))
  }

  /** A tableau that is feasible on both sides assigns a lexicographically cheapest schedule. */
  lemma StartTimesAreOptimal(t: Tableau, sys: System, weights: seq<seq<int>>, frozen: map<nat, nat>, s: int, ii: int,
                             other: seq<int>)
    requires Represents(t, sys) && Measures(t, sys, weights)
    requires DualFeasible(t, frozen.Keys)
    requires ShiftsFreeze(sys, frozen, Params(1, s, ii)) && forall v :: v in frozen ==> v in t.nonBasic
    requires IsSchedule(sys, other, ii) && Respects(other, frozen)
    ensures !LexLess(Costs(weights, other), Costs(weights, StartTimes(t, frozen, Params(1, s, ii), sys.n)))
  {
    var u := Params(1, s, ii);
    var y := BasicPointExists(t, sys.Variables(), u);
    var z := PointOf(sys, u, other);
    BasicPointHolds(t, u, y);
    assert sys.Holds(u, y);
    StartTimesOfBasicPoint(t, sys, frozen, u, y);
    PointOfHolds(sys, u, other);
    ScheduleIsFeasible(sys, frozen, s, other, ii);
    BasicPointOptimal(t, u, y, z, frozen.Keys);
    MeasuredValues(t, sys, weights, u, y);
    MeasuredValues(t, sys, weights, u, z);
  }

  lemma MeasuredValues(t: Tableau, sys: System, weights: seq<seq<int>>, u: Params, y: seq<int>)
    requires Represents(t, sys) && Measures(t, sys, weights) && |y| == sys.Variables() && sys.Holds(u, y)
    ensures t.ObjectiveValues(u, y) == Costs(weights, sys.Starts(u, y))
  {
    forall o: nat | o < |weights| ensures t.Residual(o, u, y) == Dot(weights[o], sys.Starts(u, y)) {}
  }
}
