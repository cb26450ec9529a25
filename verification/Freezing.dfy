/** Fixing start times: the shifts of fixed operations, and what fixing one more keeps. */
module Freezing {
  import opened Options
  import opened Vectors
  import opened Tableaus
  import opened LinearProgram
  import opened Schedules
  import opened Unimodular
  import opened SimplexTheory
  import opened Unbounded

  /** The shift of an operation that is frozen to a constant, or not at all. */
  function SettledShift(frozen: map<nat, nat>, i: nat): Params {
    Params(if i in frozen then frozen[i] else 0, 0, 0)
  }

  ghost predicate IsSettled(sys: System, frozen: map<nat, nat>) {
    && |sys.shift| == sys.n
    && forall i: nat :: i < sys.n ==> sys.shift[i] == SettledShift(frozen, i)
  }

  /** The system while operation `v` is frozen to the parameter S. */
  function FreezeToS(sys: System, v: nat): System
    requires v < |sys.shift|
  {
    sys.(shift := sys.shift[v := Params(0, 1, 0)])
  }

  lemma ShiftByIs(sys: System, v: nat, f: Params, p: Params)
    requires v < |sys.shift| && Sum(sys.shift[v], f) == p
    ensures ShiftBy(sys, v, f) == sys.(shift := sys.shift[v := p])
  {
  }

  lemma SumWith(a: Params, f: Params)
    ensures a == ZERO_PARAMS ==> Sum(a, f) == f
    ensures a == Params(-f.one, -f.s, -f.t) ==> Sum(a, f) == ZERO_PARAMS
  {
  }

  lemma ShiftToS(sys: System, frozen: map<nat, nat>, v: nat)
    requires IsSettled(sys, frozen) && v < sys.n && v !in frozen
    ensures ShiftBy(sys, v, Params(0, 1, 0)) == FreezeToS(sys, v)
  {
    assert sys.shift[v] == SettledShift(frozen, v);
    SumWith(sys.shift[v], Params(0, 1, 0));
    ShiftByIs(sys, v, Params(0, 1, 0), Params(0, 1, 0));
  }

  lemma ShiftBackFromS(sys: System, frozen: map<nat, nat>, v: nat)
    requires IsSettled(sys, frozen) && v < sys.n && v !in frozen
    ensures ShiftBy(FreezeToS(sys, v), v, Params(0, -1, 0)) == sys
  {
    assert sys.shift[v] == SettledShift(frozen, v);
    SumWith(Params(0, 1, 0), Params(0, -1, 0));
    ShiftByIs(FreezeToS(sys, v), v, Params(0, -1, 0), ZERO_PARAMS);
    SameShift(sys.shift, v, Params(0, 1, 0));
  }

  lemma SameShift(shift: seq<Params>, v: nat, p: Params)
    requires v < |shift|
    ensures shift[v := p][v := shift[v]] == shift
  {
  }

  lemma FixedShiftAt(sys: System, timeStep: int, i: nat)
    requires i < |sys.shift|
    ensures FixShift(sys, timeStep).shift[i]
         == Params(sys.shift[i].one + sys.shift[i].s * timeStep, 0, sys.shift[i].t)
  {
  }

  lemma FixedIsSettled(sys: System, frozen: map<nat, nat>, v: nat, timeStep: nat)
    requires IsSettled(sys, frozen) && v < sys.n && v !in frozen
    ensures IsSettled(FixShift(FreezeToS(sys, v), timeStep), frozen[v := timeStep])
  {
    forall i: nat | i < sys.n
      ensures FixShift(FreezeToS(sys, v), timeStep).shift[i] == SettledShift(frozen[v := timeStep], i)
    {
      assert sys.shift[i] == SettledShift(frozen, i);
      FixedShiftAt(FreezeToS(sys, v), timeStep, i);
    }
  }

  lemma SettledFreezes(sys: System, frozen: map<nat, nat>, ii: int)
    requires sys.Valid() && IsSettled(sys, frozen) && forall v :: v in frozen ==> v < sys.n
    ensures ShiftsFreeze(sys, frozen, Params(1, 0, ii))
  {
    forall i: nat | i < sys.n
      ensures sys.shift[i].Times(Params(1, 0, ii)) == if i in frozen then frozen[i] else 0
    {
      assert sys.shift[i] == SettledShift(frozen, i);
    }
  }

  lemma ShiftedFreezes(sys: System, frozen: map<nat, nat>, v: nat, timeStep: nat, ii: int)
    requires sys.Valid() && IsSettled(sys, frozen) && v < sys.n && v !in frozen && forall w :: w in frozen ==> w < sys.n
    ensures FreezeToS(sys, v).Valid()
    ensures ShiftsFreeze(FreezeToS(sys, v), frozen[v := timeStep], Params(1, timeStep, ii))
  {
    var sys', frozen' := FreezeToS(sys, v), frozen[v := timeStep];
    forall i: nat | i < sys.n
      ensures sys'.shift[i].Times(Params(1, timeStep, ii)) == if i in frozen' then frozen'[i] else 0
    {
      assert sys.shift[i] == SettledShift(frozen, i);
    }
  }

  /** No schedule that keeps the fixed start times has the operation at the time step. */
  ghost predicate NeverAt(sys: System, frozen: map<nat, nat>, v: nat, timeStep: nat, ii: int)
    requires sys.Valid() && v < sys.n
  {
    forall times :: IsSchedule(sys, times, ii) && Respects(times, frozen) ==> times[v] != timeStep
  }

  lemma NoTimesAt(sys: System, frozen: map<nat, nat>, v: nat, timeStep: nat, ii: int)
    requires sys.Valid() && IsSettled(sys, frozen) && v < sys.n && v !in frozen && forall w :: w in frozen ==> w < sys.n
    requires FreezeToS(sys, v).Valid()
    requires NoSolution(FreezeToS(sys, v), frozen[v := timeStep].Keys, Params(1, timeStep, ii))
    ensures NeverAt(sys, frozen, v, timeStep, ii)
  {
    ShiftedFreezes(sys, frozen, v, timeStep, ii);
    forall times | IsSchedule(sys, times, ii) && Respects(times, frozen) ensures times[v] != timeStep {
      if times[v] == timeStep {
        NoSolutionNoSchedule(FreezeToS(sys, v), frozen[v := timeStep], timeStep, ii, times);
      }
    }
  }

  /** A feasible tableau refutes that there is no solution. */
  lemma FeasibleHasSolution(t: Tableau, sys: System, frozen: map<nat, nat>, ii: int)
    requires Represents(t, sys) && PrimalFeasible(t, Params(1, 0, ii)) && IsSettled(sys, frozen)
    requires forall v :: v in frozen ==> v < sys.n && v in t.nonBasic
    ensures !NoSolution(sys, frozen.Keys, Params(1, 0, ii))
  {
    SettledFreezes(sys, frozen, ii);
    StartTimesAreSchedule(t, sys, frozen, 0, ii);
    if NoSolution(sys, frozen.Keys, Params(1, 0, ii)) {
      NoSolutionNoSchedule(sys, frozen, 0, ii, StartTimes(t, frozen, Params(1, 0, ii), sys.n));
    }
  }

  lemma FixedConstants(t: Tableau, step: int, ii: int)
    requires t.Shape()
    ensures PrimalFeasible(t, Params(1, step, ii)) <==> PrimalFeasible(t.FixS(step), Params(1, 0, ii))
  {
    forall r: nat | r < |t.rows|
      ensures t.FixS(step).Constant(r, Params(1, 0, ii)) == t.Constant(r, Params(1, step, ii))
    {
      assert t.FixS(step).rows[r] == FixedRow(t.rows[r], step);
    }
  }

  // ---------------------------------------------------------------------------------------------
  // Fixing keeps the costs non-negative
  // ---------------------------------------------------------------------------------------------

  /** The potentials that a non-basic variable determines do not differ in sign: the threshold that cuts off the
      positive ones leaves a multiple of all of them. */
  lemma PotentialsHaveOneSign(t: Tableau, sys: System, col: nat, y: seq<int>, i: nat, j: nat)
    requires Represents(t, sys) && PARAMETERS <= col < t.Columns() && i < sys.n && j < sys.n
    requires |y| == sys.Variables() && sys.Holds(ZERO_PARAMS, y) && IsUnitPoint(t, col, y)
    requires y[i] < 0
    ensures y[j] <= 0
  {
    if y[j] > 0 {
      CutIsMultiple(t, sys, col, y, 1, i);
      CutIsMultiple(t, sys, col, y, 1, j);
      ProductOfNonZero(Cut(sys, y, 1)[t.nonBasic[col - PARAMETERS]], y[i]);
    }
  }

  lemma ProductOfNonZero(a: int, b: int)
    requires b != 0
    ensures a * b == 0 <==> a == 0
  {
  }

  lemma UnitPointCost(t: Tableau, col: nat, y: seq<int>, o: nat)
    requires t.Valid(|y|) && PARAMETERS <= col < t.Columns() && o < t.nObjectives && IsUnitPoint(t, col, y)
    ensures t.Residual(o, ZERO_PARAMS, y) == t.rows[o][col]
  {
    var v := t.Values(ZERO_PARAMS, y);
    DotToUnit(t.rows[o], v, col, |v|);
  }

  lemma {:induction false} DotNotPositive(w: seq<int>, a: seq<int>, k: nat)
    requires |w| == |a| && k <= |w| && forall i :: 0 <= i < |w| ==> w[i] >= 0 && a[i] <= 0
    ensures DotTo(w, a, k) <= 0
  {
    if k > 0 {
      DotNotPositive(w, a, k - 1);
      assert w[k - 1] * a[k - 1] <= 0;
    }
  }

  lemma {:induction false} NotPositiveIsZero(z: seq<int>)
    requires LexNonNegative(z) && forall o :: 0 <= o < |z| ==> z[o] <= 0
    ensures forall o :: 0 <= o < |z| ==> z[o] == 0
  {
    if z != [] {
      NotPositiveIsZero(z[1..]);
      forall o | 0 <= o < |z| ensures z[o] == 0 {
        assert o > 0 ==> z[o] == z[1..][o - 1];
      }
    }
  }

  /** Entering the basis for a start time that decreases with it costs nothing. */
  lemma PositiveEntryCostsNothing(t: Tableau, sys: System, weights: seq<seq<int>>, p: nat, col: nat)
    requires Represents(t, sys) && Measures(t, sys, weights) && NonNegativeWeights(weights)
    requires t.IsConstraintRow(p) && t.basic[p - t.nObjectives] < sys.n
    requires PARAMETERS <= col < t.Columns() && t.rows[p][col] > 0 && LexNonNegative(t.Objectives(col))
    ensures forall o: nat :: o < t.nObjectives ==> t.Objectives(col)[o] == 0
  {
    var y := UnitPoint(t, sys.Variables(), col);
    UnitPointIsUnit(t, sys.Variables(), col);
    UnitPointHolds(t, col, y);
    assert sys.Holds(ZERO_PARAMS, y);
    var starts := sys.Starts(ZERO_PARAMS, y);
    forall i: nat | i < sys.n ensures starts[i] <= 0 {
      PotentialsHaveOneSign(t, sys, col, y, t.basic[p - t.nObjectives], i);
    }
    forall o: nat | o < t.nObjectives ensures t.Objectives(col)[o] <= 0 {
      UnitPointCost(t, col, y, o);
      DotNotPositive(weights[o], starts, sys.n);
    }
    NotPositiveIsZero(t.Objectives(col));
  }

  /** Taking a start time out of the basis, with the column that the ratio test selects if it may be positive, keeps the
      costs non-negative, as the source says it should. */
  lemma FreezingKeepsDualFeasible(t: Tableau, sys: System, weights: seq<seq<int>>, frozen: set<nat>, p: nat, c: nat)
    requires Represents(t, sys) && Measures(t, sys, weights) && NonNegativeWeights(weights)
    requires t.IsConstraintRow(p) && t.basic[p - t.nObjectives] < sys.n
    requires IsLexMaxCandidate(t, frozen, p, true, c) && DualFeasible(t, frozen)
    ensures t.IsPivot(p, c) && DualFeasible(t.Pivot(p, c), frozen)
  {
    NonZeroIsPivot(t, sys, p, c);
    RepresentsIsUnimodular(t, sys);
    if t.rows[p][c] > 0 {
      PositiveEntryCostsNothing(t, sys, weights, p, c);
      FreePivotKeepsDualFeasible(t, p, c, frozen);
    } else {
      forall col |
        PARAMETERS <= col < t.Columns() && t.nonBasic[col - PARAMETERS] !in frozen && t.rows[p][col] < 0
        ensures !LexLess(t.Objectives(col), t.Objectives(c))
      {
        assert IsCandidate(t, frozen, p, true, col);
        QuotientsOfMinusOne(t, p, col);
        QuotientsOfMinusOne(t, p, c);
        LexNegate(t.Objectives(c), t.Objectives(col));
      }
      DualPivotKeepsDualFeasible(t, sys.Variables(), p, c, frozen);
    }
  }

  lemma FreePivotKeepsDualFeasible(t: Tableau, p: nat, c: nat, frozen: set<nat>)
    requires t.Shape() && t.IsPivot(p, c) && t.nonBasic[c - PARAMETERS] !in frozen && DualFeasible(t, frozen)
    requires forall o: nat :: o < t.nObjectives ==> t.Objectives(c)[o] == 0
    ensures DualFeasible(t.Pivot(p, c), frozen)
  {
    var t' := t.Pivot(p, c);
    forall col | PARAMETERS <= col < t'.Columns() && t'.nonBasic[col - PARAMETERS] !in frozen
      ensures LexNonNegative(t'.Objectives(col))
    {
      PivotObjectives(t, p, c, col);
      if col == c {
        ZeroIsNonNegative(t'.Objectives(col));
      } else {
        assert LexNonNegative(t.Objectives(col));
        assert t'.Objectives(col) == t.Objectives(col);
      }
    }
  }

  /** Non-negative costs stay so, where the objectives are sums of start times. */
  ghost predicate KeepsCosts(weights: seq<seq<int>>, t: Tableau, frozen: set<nat>, t': Tableau, frozen': set<nat>)
    requires t.Shape() && t'.Shape()
  {
    DualFeasible(t, frozen) && NonNegativeWeights(weights) ==> DualFeasible(t', frozen')
  }

  /** Only the columns of the parameters are translated. */
  lemma SameCosts(t: Tableau, t': Tableau, frozen: set<nat>)
    requires t.Shape() && t'.Shape() && DualFeasible(t, frozen)
    requires t'.nonBasic == t.nonBasic && t'.nObjectives == t.nObjectives && |t'.rows| == |t.rows|
    requires forall r, c :: 0 <= r < |t.rows| && PARAMETERS <= c < t.Columns() ==> t'.rows[r][c] == t.rows[r][c]
    ensures DualFeasible(t', frozen)
  {
    forall c | PARAMETERS <= c < t'.Columns() && t'.nonBasic[c - PARAMETERS] !in frozen
      ensures LexNonNegative(t'.Objectives(c))
    {
      assert LexNonNegative(t.Objectives(c));
      assert t'.Objectives(c) == t.Objectives(c);
    }
  }

  lemma TranslatingKeepsCosts(t: Tableau, col: nat, f: Params, frozen: set<nat>)
    requires t.Shape() && PARAMETERS <= col < t.Columns()
    ensures DualFeasible(t, frozen) ==> DualFeasible(t.Translate(col, f), frozen)
  {
    var t' := t.Translate(col, f);
    forall r, c | 0 <= r < |t.rows| && PARAMETERS <= c < t.Columns() ensures t'.rows[r][c] == t.rows[r][c] {
      assert t'.rows[r] == TranslatedRow(t.rows[r], col, f);
    }
    if DualFeasible(t, frozen) {
      SameCosts(t, t', frozen);
    }
  }

  lemma FixingSKeepsCosts(t: Tableau, step: int, frozen: set<nat>)
    requires t.Shape()
    ensures DualFeasible(t, frozen) ==> DualFeasible(t.FixS(step), frozen)
  {
    var t' := t.FixS(step);
    forall r, c | 0 <= r < |t.rows| && PARAMETERS <= c < t.Columns() ensures t'.rows[r][c] == t.rows[r][c] {
      assert t'.rows[r] == FixedRow(t.rows[r], step);
    }
    if DualFeasible(t, frozen) {
      SameCosts(t, t', frozen);
    }
  }

  // ---------------------------------------------------------------------------------------------
  // Fixing a start time where it is
  // ---------------------------------------------------------------------------------------------

  /** A solution in which the non-basic variables vanish is the basic point. */
  lemma VanishingIsBasicPoint(t: Tableau, u: Params, y: seq<int>)
    requires t.Valid(|y|) && t.Holds(u, y) && forall k :: 0 <= k < |t.nonBasic| ==> y[t.nonBasic[k]] == 0
    ensures IsBasicPoint(t, u, y)
  {
    forall r | 0 <= r < |t.basic| ensures y[t.basic[r]] == t.Constant(t.nObjectives + r, u) {
      ResidualSplits(t, t.nObjectives + r, u, y);
      PartVanishes(t, t.nObjectives + r, y, |t.nonBasic|);
      assert t.Residual(t.nObjectives + r, u, y) == 0;
    }
  }

  /** The values of the variables do not depend on how the frozen ones are shifted, but for those. */
  lemma ShiftedPoint(sys: System, frozen: map<nat, nat>, v: nat, step: nat, ii: int, times: seq<int>, w: nat)
    requires sys.Valid() && IsSettled(sys, frozen) && v < sys.n && v !in frozen && |times| == sys.n
    requires w < sys.Variables() && FreezeToS(sys, v).Valid()
    ensures PointOf(FreezeToS(sys, v), Params(1, step, ii), times)[w] ==
            if w == v then times[v] - step else PointOf(sys, Params(1, 0, ii), times)[w]
  {
    assert w < sys.n ==> sys.shift[w] == SettledShift(frozen, w);
  }

  /** The point that the start times of a tableau belong to. */
  lemma PointOfStartTimes(t: Tableau, sys: System, frozen: map<nat, nat>, ii: int, times: seq<int>)
    requires Represents(t, sys) && IsSettled(sys, frozen)
    requires forall v :: v in frozen ==> v < sys.n && v in t.nonBasic
    requires times == StartTimes(t, frozen, Params(1, 0, ii), sys.n)
    ensures forall k :: 0 <= k < |t.nonBasic| ==> PointOf(sys, Params(1, 0, ii), times)[t.nonBasic[k]] == 0
  {
    var u := Params(1, 0, ii);
    SettledFreezes(sys, frozen, ii);
    var y := BasicPointExists(t, sys.Variables(), u);
    BasicPointHolds(t, u, y);
    assert sys.Holds(u, y);
    StartTimesOfBasicPoint(t, sys, frozen, u, y);
    forall w: nat | w < sys.Variables() ensures PointOf(sys, u, times)[w] == y[w] {
      if w < sys.n {
        assert sys.Start(w, u, y) == times[w];
      } else {
        var con := sys.cons[w - sys.n];
        assert sys.Start(con.src, u, y) == times[con.src] && sys.Start(con.dst, u, y) == times[con.dst];
        assert y[sys.n + (w - sys.n)] == sys.Slack(w - sys.n, u, y);
      }
    }
  }

  /** All that has left the basis, compared to `before`, is `v`. */
  predicate OnlyLeaves(before: seq<nat>, after: seq<nat>, v: nat) {
    forall w :: w in after ==> w == v || w in before
  }

  /** Fixing an operation at its current start time leaves a feasible tableau, with the same start times. */
  lemma FixedWhereItIs(t: Tableau, sys: System, frozen: map<nat, nat>, v: nat, step: nat, ii: int, t': Tableau)
    requires Represents(t, sys) && IsSettled(sys, frozen) && PrimalFeasible(t, Params(1, 0, ii))
    requires v < sys.n && v !in frozen && forall w :: w in frozen ==> w < sys.n && w in t.nonBasic
    requires step == StartTime(t, frozen, Params(1, 0, ii), v)
    requires Represents(t', FreezeToS(sys, v)) && OnlyLeaves(t.nonBasic, t'.nonBasic, v)
    requires forall w :: w in frozen[v := step] ==> w in t'.nonBasic
    ensures PrimalFeasible(t', Params(1, step, ii))
    ensures StartTimes(t', frozen[v := step], Params(1, step, ii), sys.n)
         == StartTimes(t, frozen, Params(1, 0, ii), sys.n)
  {
    var u', sys', frozen' := Params(1, step, ii), FreezeToS(sys, v), frozen[v := step];
    var times := StartTimes(t, frozen, Params(1, 0, ii), sys.n);
    SettledFreezes(sys, frozen, ii);
    StartTimesAreSchedule(t, sys, frozen, 0, ii);
    PointOfStartTimes(t, sys, frozen, ii, times);
    ShiftedFreezes(sys, frozen, v, step, ii);
    var y := PointOf(sys', u', times);
    PointOfHolds(sys', u', times);
    assert t'.Holds(u', y);
    forall k | 0 <= k < |t'.nonBasic| ensures y[t'.nonBasic[k]] == 0 {
      var w := t'.nonBasic[k];
      ShiftedPoint(sys, frozen, v, step, ii, times, w);
      if w != v {
        assert w in t.nonBasic;
        var j := IndexOf(t.nonBasic, w);
      }
    }
    VanishingIsBasicPoint(t', u', y);
    StartTimesOfBasicPoint(t', sys', frozen', u', y);
    assert IsSchedule(sys', times, ii);
    ScheduleIsFeasible(sys', frozen', step, times, ii);
    BasicPointIsFeasible(t', u', y);
  }

  /** If the operation is fixed where it starts, the tableau is feasible, T is as before, and nothing moves. */
  ghost predicate StaysPut(n: nat, t: Tableau, frozen: map<nat, nat>, v: nat, step: nat, ii: int, t': Tableau, ii': int)
    requires t.Shape() && t'.Shape()
  {
    PrimalFeasible(t, Params(1, 0, ii)) && step == StartTime(t, frozen, Params(1, 0, ii), v) ==>
      && ii' == ii && PrimalFeasible(t', Params(1, step, ii'))
      && StartTimes(t', frozen[v := step], Params(1, step, ii'), n) == StartTimes(t, frozen, Params(1, 0, ii), n)
  }

  lemma FixedStaysPut(t: Tableau, sys: System, frozen: map<nat, nat>, v: nat, step: nat, ii: int, t': Tableau)
    requires Represents(t, sys) && IsSettled(sys, frozen)
    requires v < sys.n && v !in frozen && forall w :: w in frozen ==> w < sys.n && w in t.nonBasic
    requires Represents(t', FreezeToS(sys, v)) && OnlyLeaves(t.nonBasic, t'.nonBasic, v)
    requires forall w :: w in frozen[v := step] ==> w in t'.nonBasic
    ensures StaysPut(sys.n, t, frozen, v, step, ii, t', ii)
  {
    if PrimalFeasible(t, Params(1, 0, ii)) && step == StartTime(t, frozen, Params(1, 0, ii), v) {
      FixedWhereItIs(t, sys, frozen, v, step, ii, t');
    }
  }

  lemma BasicPointIsFeasible(t: Tableau, u: Params, y: seq<int>)
    requires t.Valid(|y|) && IsBasicPoint(t, u, y) && forall w :: 0 <= w < |y| ==> y[w] >= 0
    ensures PrimalFeasible(t, u)
  {
    forall r | t.nObjectives <= r < |t.rows| ensures t.Constant(r, u) >= 0 {
      assert y[t.basic[r - t.nObjectives]] == t.Constant(t.nObjectives + (r - t.nObjectives), u);
    }
  }

  /** Putting a number in for S changes no start time. */
  lemma FixedStartTimes(t: Tableau, frozen: map<nat, nat>, step: int, ii: int, n: nat)
    requires t.Shape()
    ensures t.FixS(step).Shape()
    ensures StartTimes(t.FixS(step), frozen, Params(1, 0, ii), n) == StartTimes(t, frozen, Params(1, step, ii), n)
  {
    var t' := t.FixS(step);
    forall v: nat | v < n
      ensures StartTime(t', frozen, Params(1, 0, ii), v) == StartTime(t, frozen, Params(1, step, ii), v)
    {
      if v in t.basic {
        var r := t.nObjectives + IndexOf(t.basic, v);
        assert t'.rows[r] == FixedRow(t.rows[r], step);
      }
    }
  }
}
