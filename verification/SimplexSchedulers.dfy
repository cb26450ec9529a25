/** The acyclic and the cyclic simplex scheduler. */
module SimplexSchedulers {
  import opened Options
  import opened Vectors
  import opened Tableaus
  import opened LinearProgram
  import opened Schedules
  import opened SimplexTheory
  import opened InitialTableau
  import opened Freezing
  import opened SimplexBase
  import opened Problems

  datatype ScheduleResult =
    | Scheduled(startTime: map<nat, nat>, ii: nat)
    | LastOpMissing
    | ProblemInfeasible
    | AssertionFailed
    | Unfinished

  // ---------------------------------------------------------------------------------------------
  // Dependences as constraints
  // ---------------------------------------------------------------------------------------------

  /** The constraint of a dependence; only cyclic problems have distances. */
  function ConstraintOf(prob: Problem, dep: Dependence, cyclic: bool): Constraint
    requires prob.Check() && dep.src < prob.Size()
  {
    Constraint(dep.src, dep.dst, prob.Latency(dep.src), if cyclic then dep.distance.ValueOr(0) else 0)
  }

  /** The constraints of the first `k` dependences of operation `op`. */
  function ConstraintsAt(prob: Problem, op: nat, k: nat, cyclic: bool): (cons: seq<Constraint>)
    requires prob.WellFormed() && prob.Check() && op < prob.Size() && k <= |prob.dependences[op]|
    ensures |cons| == k
    ensures forall d :: 0 <= d < k ==> cons[d] == ConstraintOf(prob, prob.dependences[op][d], cyclic)
  {
    if k == 0 then []
    else ConstraintsAt(prob, op, k - 1, cyclic) + [ConstraintOf(prob, prob.dependences[op][k - 1], cyclic)]
  }

  /** The constraints of the first `n` operations, in the order in which the tableau gets its rows. */
  function ConstraintsTo(prob: Problem, n: nat, cyclic: bool): (cons: seq<Constraint>)
    requires prob.WellFormed() && prob.Check() && n <= prob.Size()
  {
    if n == 0 then [] else
      ConstraintsTo(prob, n - 1, cyclic) + ConstraintsAt(prob, n - 1, |prob.dependences[n - 1]|, cyclic)
  }

  function Constraints(prob: Problem, cyclic: bool): seq<Constraint>
    requires prob.WellFormed() && prob.Check()
  {
    ConstraintsTo(prob, prob.Size(), cyclic)
  }

  lemma {:induction false} ConstraintsAreDependences(prob: Problem, n: nat, cyclic: bool, d: nat)
    returns (op: nat, k: nat)
    requires prob.WellFormed() && prob.Check() && n <= prob.Size() && d < |ConstraintsTo(prob, n, cyclic)|
    ensures op < n && k < |prob.dependences[op]|
    ensures ConstraintsTo(prob, n, cyclic)[d] == ConstraintOf(prob, prob.dependences[op][k], cyclic)
  {
    var before := ConstraintsTo(prob, n - 1, cyclic);
    if d < |before| {
      op, k := ConstraintsAreDependences(prob, n - 1, cyclic, d);
    } else {
      op, k := n - 1, d - |before|;
    }
  }

  lemma {:induction false} DependencesAreConstraints(prob: Problem, n: nat, cyclic: bool, op: nat, k: nat)
    returns (d: nat)
    requires prob.WellFormed() && prob.Check() && op < n <= prob.Size() && k < |prob.dependences[op]|
    ensures d < |ConstraintsTo(prob, n, cyclic)|
    ensures ConstraintsTo(prob, n, cyclic)[d] == ConstraintOf(prob, prob.dependences[op][k], cyclic)
  {
    if op == n - 1 {
      d := |ConstraintsTo(prob, n - 1, cyclic)| + k;
    } else {
      d := DependencesAreConstraints(prob, n - 1, cyclic, op, k);
    }
  }

  // ---------------------------------------------------------------------------------------------
  // Start times as schedules
  // ---------------------------------------------------------------------------------------------

  function Times(prob: Problem, startTime: map<nat, nat>): (times: seq<int>)
    requires prob.Started(startTime)
    ensures |times| == prob.Size()
  {
    seq(prob.Size(), op requires 0 <= op < prob.Size() => startTime[op])
  }

  lemma ConstraintsAreValid(prob: Problem, cyclic: bool)
    requires prob.WellFormed() && prob.Check()
    ensures InitialSystem(prob.Size(), Constraints(prob, cyclic)).Valid()
  {
    forall d: nat | d < |Constraints(prob, cyclic)|
      ensures Constraints(prob, cyclic)[d].src < prob.Size() && Constraints(prob, cyclic)[d].dst < prob.Size()
    {
      var op, k := ConstraintsAreDependences(prob, prob.Size(), cyclic, d);
      assert prob.dependences[op][k].dst == op;
    }
  }

  /** Start times pass the precedence checks exactly if they are a schedule of the constraints. */
  lemma ScheduleIffPrecedences(prob: Problem, cyclic: bool, sys: System, startTime: map<nat, nat>, ii: nat)
    requires prob.WellFormed() && prob.Check() && prob.Started(startTime)
    requires sys.Valid() && sys.n == prob.Size() && sys.cons == Constraints(prob, cyclic)
    ensures IsSchedule(sys, Times(prob, startTime), ii) <==>
              forall op, k :: 0 <= op < prob.Size() && 0 <= k < |prob.dependences[op]| ==>
                var dep := prob.dependences[op][k];
                startTime[dep.src] + prob.Latency(dep.src)
                <= startTime[dep.dst] + (if cyclic then dep.distance.ValueOr(0) else 0) * ii
  {
    var times := Times(prob, startTime);
    forall op: nat, k: nat | IsSchedule(sys, times, ii) && op < prob.Size() && k < |prob.dependences[op]|
      ensures var dep := prob.dependences[op][k];
              startTime[dep.src] + prob.Latency(dep.src)
              <= startTime[dep.dst] + (if cyclic then dep.distance.ValueOr(0) else 0) * ii
    {
      var d := DependencesAreConstraints(prob, prob.Size(), cyclic, op, k);
      assert Meets(sys.cons[d], times, ii);
    }
    if forall op, k :: 0 <= op < prob.Size() && 0 <= k < |prob.dependences[op]| ==>
         var dep := prob.dependences[op][k];
         startTime[dep.src] + prob.Latency(dep.src)
         <= startTime[dep.dst] + (if cyclic then dep.distance.ValueOr(0) else 0) * ii
    {
      forall d: nat | d < |sys.cons| ensures Meets(sys.cons[d], times, ii) {
        var op, k := ConstraintsAreDependences(prob, prob.Size(), cyclic, d);
        var dep := prob.dependences[op][k];
        assert dep.dst == op && dep.src < prob.Size();
      }
    }
  }

  lemma LastOpCost(n: nat, lastOp: nat, times: seq<int>)
    requires lastOp < n == |times|
    ensures Costs(AllWeights(n, [{lastOp}]), times) == [times[lastOp]]
  {
    var w := Weights(n, {lastOp});
    DotCommutes(w, times, n);
    DotToUnit(times, w, lastOp, n);
  }

  /** Reads the start times of all operations off a feasible tableau. */
  method ReadStartTimes(prob: Problem, sched: SimplexSchedulerBase) returns (startTime: map<nat, nat>)
    requires sched.Valid() && sched.Settled() && PrimalFeasible(sched.Tab(), sched.U())
    requires sched.sys.n == prob.Size()
    ensures prob.Started(startTime)
    ensures Times(prob, startTime) == StartTimes(sched.Tab(), sched.frozenVariables, sched.U(), prob.Size())
    ensures IsSchedule(sched.sys, Times(prob, startTime), sched.parameterT)
    ensures Respects(Times(prob, startTime), sched.frozenVariables)
  {
    SettledFreezes(sched.sys, sched.frozenVariables, sched.parameterT);
    StartTimesAreSchedule(sched.Tab(), sched.sys, sched.frozenVariables, 0, sched.parameterT);
    ghost var times := StartTimes(sched.Tab(), sched.frozenVariables, sched.U(), prob.Size());
    startTime := map[];
    for op := 0 to prob.Size()
      invariant forall i: nat :: i < op ==> i in startTime && startTime[i] == times[i]
    {
      var time := sched.GetStartTime(op);
      assert time == times[op];
      startTime := startTime[op := time];
    }
    assert Times(prob, startTime) == times;
  }

  /** The last operation starts as early as in any other schedule for this initiation interval. */
  lemma LastOpIsEarliest(t: Tableau, sys: System, n: nat, lastOp: nat, ii: int, other: seq<int>)
    requires lastOp < n == sys.n
    requires Represents(t, sys) && Measures(t, sys, AllWeights(n, [{lastOp}])) && DualFeasible(t, {})
    requires IsSettled(sys, map[]) && IsSchedule(sys, other, ii)
    ensures StartTimes(t, map[], Params(1, 0, ii), n)[lastOp] <= other[lastOp]
  {
    var empty: map<nat, nat> := map[];
    assert empty.Keys == {};
    SettledFreezes(sys, empty, ii);
    StartTimesAreOptimal(t, sys, AllWeights(n, [{lastOp}]), empty, 0, ii, other);
    LastOpCost(n, lastOp, other);
    LastOpCost(n, lastOp, StartTimes(t, empty, Params(1, 0, ii), n));
  }

  /** No schedule exists for an excluded initiation interval. */
  lemma ExcludedInterval(prob: Problem, cyclic: bool, sys: System, ii: int, other: map<nat, nat>)
    requires prob.WellFormed() && prob.Check() && prob.Started(other)
    requires sys.Valid() && sys.n == prob.Size() && IsSettled(sys, map[])
    requires NoSolution(sys, {}, Params(1, 0, ii))
    ensures !IsSchedule(sys, Times(prob, other), ii)
  {
    var empty: map<nat, nat> := map[];
    assert empty.Keys == {};
    SettledFreezes(sys, empty, ii);
    NoSolutionNoSchedule(sys, empty, 0, ii, Times(prob, other));
    assert Respects(Times(prob, other), empty);
  }

  // ---------------------------------------------------------------------------------------------
  // Acyclic problems
  // ---------------------------------------------------------------------------------------------

  lemma VerifyIffSchedule(prob: Problem, sys: System, startTime: map<nat, nat>, ii: nat)
    requires prob.WellFormed() && prob.Check() && prob.Started(startTime)
    requires sys.Valid() && sys.n == prob.Size() && sys.cons == Constraints(prob, false)
    ensures prob.Verify(startTime) <==> IsSchedule(sys, Times(prob, startTime), ii)
  {
    ScheduleIffPrecedences(prob, false, sys, startTime, ii);
    forall op: nat, k: nat | op < prob.Size() && k < |prob.dependences[op]|
      ensures var dep := prob.dependences[op][k];
              prob.Precedes(dep, startTime) <==>
              startTime[dep.src] + prob.Latency(dep.src) <= startTime[dep.dst] + 0 * ii
    {
    }
  }

  lemma NeverVerified(prob: Problem, sys: System)
    requires prob.WellFormed() && prob.Check() && sys.Valid() && sys.n == prob.Size() && IsSettled(sys, map[])
    requires sys.cons == Constraints(prob, false) && NoSolution(sys, {}, Params(1, 0, 0))
    ensures forall other :: !prob.Verify(other)
  {
    forall other ensures !prob.Verify(other) {
      if prob.Verify(other) {
        VerifyIffSchedule(prob, sys, other, 0);
        ExcludedInterval(prob, false, sys, 0, other);
      }
    }
  }

  /** From the initial tableau of these constraints, the solver makes this number of steps without coming to an end. */
  ghost predicate RunsFrom(n: nat, cons: seq<Constraint>, lastOp: nat, ii: int, steps: nat) {
    InitialSystem(n, cons).Valid() && exists t, t', ii' ::
      IsInitial(t, n, cons, [{lastOp}]) && MakesSteps(t, ii, t', ii', steps)
  }

  ghost predicate RunsOn(prob: Problem, cyclic: bool, lastOp: nat, ii: int, steps: nat)
    requires prob.WellFormed() && prob.Check()
  {
    RunsFrom(prob.Size(), Constraints(prob, cyclic), lastOp, ii, steps)
  }

  lemma StillRuns(n: nat, cons: seq<Constraint>, lastOp: nat, t: Tableau, ii: int, t': Tableau, ii': int, steps: nat)
    requires InitialSystem(n, cons).Valid()
    requires IsInitial(t, n, cons, [{lastOp}]) && MakesSteps(t, ii, t', ii', steps)
    ensures RunsFrom(n, cons, lastOp, ii, steps)
  {
  }

  lemma SolvedIsEarliest(prob: Problem, lastOp: nat, t: Tableau, sys: System, startTime: map<nat, nat>)
    requires prob.WellFormed() && prob.Check() && prob.Started(startTime) && lastOp < prob.Size() == sys.n
    requires Represents(t, sys) && Measures(t, sys, AllWeights(prob.Size(), [{lastOp}])) && DualFeasible(t, {})
    requires IsSettled(sys, map[]) && sys.cons == Constraints(prob, false)
    requires IsSchedule(sys, Times(prob, startTime), 0)
    requires Times(prob, startTime) == StartTimes(t, map[], Params(1, 0, 0), prob.Size())
    ensures prob.Verify(startTime) && forall other :: prob.Verify(other) ==> startTime[lastOp] <= other[lastOp]
  {
    VerifyIffSchedule(prob, sys, startTime, 0);
    forall other | prob.Verify(other) ensures startTime[lastOp] <= other[lastOp] {
      VerifyIffSchedule(prob, sys, other, 0);
      LastOpIsEarliest(t, sys, prob.Size(), lastOp, 0, Times(prob, other));
      assert Times(prob, startTime)[lastOp] == startTime[lastOp];
    }
  }

  /** The tableau is feasible and optimal for the start times that have been fixed. */
  ghost predicate IsOptimal(prob: Problem, lastOp: nat, sched: SimplexSchedulerBase)
    requires prob.WellFormed() && prob.Check()
    reads sched
  {
    && sched.Valid() && sched.Settled() && PrimalFeasible(sched.Tab(), sched.U()) && FreeOfT(sched.Tab())
    && sched.parameterT == 0
    && sched.sys.n == prob.Size() && sched.sys.cons == Constraints(prob, false)
    && sched.weights == AllWeights(prob.Size(), [{lastOp}])
    && DualFeasible(sched.Tab(), sched.frozenVariables.Keys)
  }

  /** Builds the tableau of constraints without distances, and solves it. */
  method SolveFrom(n: nat, cons: seq<Constraint>, lastOp: nat, fuel: nat)
    returns (sched: SimplexSchedulerBase, outcome: Outcome)
    requires InitialSystem(n, cons).Valid() && lastOp < n && forall d :: 0 <= d < |cons| ==> cons[d].distance == 0
    ensures fresh(sched) && !outcome.Aborted? && sched.frozenVariables == map[] && sched.parameterT == 0
    ensures sched.Valid() && sched.Settled() && FreeOfT(sched.Tab()) && DualFeasible(sched.Tab(), {})
    ensures sched.sys.n == n && sched.sys.cons == cons && sched.weights == AllWeights(n, [{lastOp}])
    ensures outcome.Solved? ==> PrimalFeasible(sched.Tab(), sched.U())
    ensures outcome.Infeasible? ==> NoSolution(sched.sys, {}, Params(1, 0, 0))
    ensures outcome.OutOfFuel? ==> RunsFrom(n, cons, lastOp, 0, fuel) && RunsFor(n, cons, fuel)
  {
    sched := new SimplexSchedulerBase(0, 0);
    sched.BuildTableau(n, cons, [{lastOp}]);
    ghost var initial := sched.Tab();
    outcome := sched.SolveTableau(fuel);
    assert sched.frozenVariables.Keys == {};
    if outcome.OutOfFuel? {
      KeepsRunning(sched.sys, initial, 0, sched.Tab(), sched.parameterT, fuel);
      StillRuns(n, cons, lastOp, initial, 0, sched.Tab(), sched.parameterT, fuel);
    }
  }

  /** The tableau of an acyclic problem, solved. */
  method SolveProblem(prob: Problem, lastOp: nat, fuel: nat) returns (sched: SimplexSchedulerBase, outcome: Outcome)
    requires prob.WellFormed() && prob.Check() && lastOp < prob.Size()
    ensures fresh(sched) && !outcome.Aborted? && sched.frozenVariables == map[]
    ensures outcome.Solved? ==> IsOptimal(prob, lastOp, sched)
    ensures outcome.Infeasible? ==> forall other :: !prob.Verify(other)
    ensures outcome.OutOfFuel? ==> RunsOn(prob, false, lastOp, 0, fuel)
    ensures outcome.OutOfFuel? ==> RunsFor(prob.Size(), Constraints(prob, false), fuel)
  {
    ConstraintsAreValid(prob, false);
    NoDistances(prob, prob.Size());
    sched, outcome := SolveFrom(prob.Size(), Constraints(prob, false), lastOp, fuel);
    assert sched.frozenVariables.Keys == {};
    if outcome.Infeasible? {
      NeverVerified(prob, sched.sys);
    }
  }

  /** `SimplexScheduler::schedule`: a correct schedule in which the last operation starts as early as possible, or
      none at all if there is none. */
  method ScheduleAcyclic(prob: Problem, lastOp: nat, fuel: nat) returns (result: ScheduleResult)
    requires prob.WellFormed() && prob.Check()
    ensures result.LastOpMissing? <==> lastOp >= prob.Size()
    ensures result.Scheduled? ==>
              && prob.Verify(result.startTime)
              && forall other :: prob.Verify(other) ==> result.startTime[lastOp] <= other[lastOp]
    ensures result.ProblemInfeasible? ==> forall other :: !prob.Verify(other)
    ensures result.Unfinished? ==> RunsOn(prob, false, lastOp, 0, fuel)
    ensures !result.AssertionFailed?
  {
    if lastOp >= prob.Size() {
      return LastOpMissing;
    }
    var sched, outcome := SolveProblem(prob, lastOp, fuel);
    match outcome {
      case Solved =>
        var startTime := ReadStartTimes(prob, sched);
        assert sched.frozenVariables.Keys == {};
        SolvedIsEarliest(prob, lastOp, sched.Tab(), sched.sys, startTime);
        return Scheduled(startTime, 0);
      case Infeasible => return ProblemInfeasible;
      case OutOfFuel => return Unfinished;
    }
  }

  lemma {:induction false} NoDistances(prob: Problem, n: nat)
    requires prob.WellFormed() && prob.Check() && n <= prob.Size()
    ensures forall d :: 0 <= d < |ConstraintsTo(prob, n, false)| ==> ConstraintsTo(prob, n, false)[d].distance == 0
  {
    forall d: nat | d < |ConstraintsTo(prob, n, false)| ensures ConstraintsTo(prob, n, false)[d].distance == 0 {
      var op, k := ConstraintsAreDependences(prob, n, false, d);
    }
  }

  // ---------------------------------------------------------------------------------------------
  // Cyclic problems
  // ---------------------------------------------------------------------------------------------

  lemma VerifyCyclicIffSchedule(prob: Problem, sys: System, startTime: map<nat, nat>, ii: nat)
    requires prob.WellFormed() && prob.Check() && prob.Started(startTime)
    requires sys.Valid() && sys.n == prob.Size() && sys.cons == Constraints(prob, true)
    ensures prob.VerifyCyclic(startTime, ii) <==> ii != 0 && IsSchedule(sys, Times(prob, startTime), ii)
  {
    ScheduleIffPrecedences(prob, true, sys, startTime, ii);
    forall op: nat, k: nat | op < prob.Size() && k < |prob.dependences[op]|
      ensures var dep := prob.dependences[op][k];
              prob.PrecedesCyclic(dep, startTime, ii) <==>
              startTime[dep.src] + prob.Latency(dep.src) <= startTime[dep.dst] + dep.distance.ValueOr(0) * ii
    {
    }
  }

  ghost predicate IntervalIsExcluded(prob: Problem, ii: nat)
    requires prob.WellFormed() && prob.Check()
  {
    forall other :: !prob.VerifyCyclic(other, ii)
  }

  lemma NoneForInterval(prob: Problem, sys: System, ii: nat)
    requires prob.WellFormed() && prob.Check() && sys.Valid() && sys.n == prob.Size() && IsSettled(sys, map[])
    requires sys.cons == Constraints(prob, true) && NoSolution(sys, {}, Params(1, 0, ii))
    ensures IntervalIsExcluded(prob, ii)
  {
    forall other ensures !prob.VerifyCyclic(other, ii) {
      if prob.VerifyCyclic(other, ii) {
        VerifyCyclicIffSchedule(prob, sys, other, ii);
        ExcludedInterval(prob, true, sys, ii, other);
      }
    }
  }

  lemma NoneForAnyInterval(prob: Problem, sys: System)
    requires prob.WellFormed() && prob.Check() && sys.Valid() && sys.n == prob.Size() && IsSettled(sys, map[])
    requires sys.cons == Constraints(prob, true) && forall ii :: ii >= 1 ==> NoSolution(sys, {}, Params(1, 0, ii))
    ensures forall other, ii :: !prob.VerifyCyclic(other, ii)
  {
    forall other, ii: nat ensures !prob.VerifyCyclic(other, ii) {
      if ii >= 1 {
        NoneForInterval(prob, sys, ii);
        assert IntervalIsExcluded(prob, ii);
      }
    }
  }

  lemma SolvedIsLeastInterval(prob: Problem, sys: System, ii: nat)
    requires prob.WellFormed() && prob.Check() && sys.Valid() && sys.n == prob.Size() && IsSettled(sys, map[])
    requires sys.cons == Constraints(prob, true) && ExcludedBetween(sys, {}, 0, 1, ii)
    ensures forall other, ii': nat :: prob.VerifyCyclic(other, ii') ==> ii <= ii'
  {
    forall other, ii': nat | prob.VerifyCyclic(other, ii') ensures ii <= ii' {
      if ii' < ii {
        NoneForInterval(prob, sys, ii');
      }
    }
  }

  lemma SolvedIsEarliestCyclic(prob: Problem, lastOp: nat, t: Tableau, sys: System, ii: nat, startTime: map<nat, nat>)
    requires prob.WellFormed() && prob.Check() && prob.Started(startTime) && lastOp < prob.Size() == sys.n && ii > 0
    requires Represents(t, sys) && Measures(t, sys, AllWeights(prob.Size(), [{lastOp}])) && DualFeasible(t, {})
    requires IsSettled(sys, map[]) && sys.cons == Constraints(prob, true)
    requires IsSchedule(sys, Times(prob, startTime), ii)
    requires Times(prob, startTime) == StartTimes(t, map[], Params(1, 0, ii), prob.Size())
    ensures prob.VerifyCyclic(startTime, ii)
    ensures forall other :: prob.VerifyCyclic(other, ii) ==> startTime[lastOp] <= other[lastOp]
  {
    VerifyCyclicIffSchedule(prob, sys, startTime, ii);
    forall other | prob.VerifyCyclic(other, ii) ensures startTime[lastOp] <= other[lastOp] {
      VerifyCyclicIffSchedule(prob, sys, other, ii);
      LastOpIsEarliest(t, sys, prob.Size(), lastOp, ii, Times(prob, other));
      assert Times(prob, startTime)[lastOp] == startTime[lastOp];
    }
  }

  /** `CyclicSimplexScheduler::schedule`: the least initiation interval that admits a schedule, and for it a schedule
      in which the last operation starts as early as possible; failure means that no interval admits a schedule. */
  method ScheduleCyclic(prob: Problem, lastOp: nat, fuel: nat) returns (result: ScheduleResult)
    requires prob.WellFormed() && prob.Check()
    ensures result.LastOpMissing? <==> lastOp >= prob.Size()
    ensures result.Scheduled? ==>
              && prob.VerifyCyclic(result.startTime, result.ii)
              && (forall other, ii :: prob.VerifyCyclic(other, ii) ==> result.ii <= ii)
              && (forall other :: prob.VerifyCyclic(other, result.ii) ==> result.startTime[lastOp] <= other[lastOp])
    ensures result.ProblemInfeasible? ==> forall other, ii :: !prob.VerifyCyclic(other, ii)
    ensures result.Unfinished? ==> RunsOn(prob, true, lastOp, 1, fuel)
    ensures !result.AssertionFailed?
  {
    if lastOp >= prob.Size() {
      return LastOpMissing;
    }
    var sched, outcome := SolveCyclic(prob, lastOp, fuel);
    match outcome {
      case Solved =>
        var startTime := ReadStartTimes(prob, sched);
        assert sched.frozenVariables.Keys == {};
        var ii := sched.parameterT;
        SolvedIsLeastInterval(prob, sched.sys, ii);
        SolvedIsEarliestCyclic(prob, lastOp, sched.Tab(), sched.sys, ii, startTime);
        return Scheduled(startTime, ii);
      case Infeasible =>
        NoneForAnyInterval(prob, sched.sys);
        return ProblemInfeasible;
      case OutOfFuel => return Unfinished;
    }
  }

  /** Builds the tableau of a cyclic problem, and solves it, starting with the initiation interval 1. */
  method SolveCyclic(prob: Problem, lastOp: nat, fuel: nat) returns (sched: SimplexSchedulerBase, outcome: Outcome)
    requires prob.WellFormed() && prob.Check() && lastOp < prob.Size()
    ensures fresh(sched) && !outcome.Aborted? && sched.frozenVariables == map[] && sched.parameterT >= 1
    ensures sched.Valid() && sched.Settled() && DualFeasible(sched.Tab(), {})
    ensures sched.sys.n == prob.Size() && sched.sys.cons == Constraints(prob, true)
    ensures sched.weights == AllWeights(prob.Size(), [{lastOp}])
    ensures ExcludedBetween(sched.sys, {}, 0, 1, sched.parameterT)
    ensures outcome.Solved? ==> PrimalFeasible(sched.Tab(), sched.U())
    ensures outcome.Infeasible? ==> forall ii :: ii >= 1 ==> NoSolution(sched.sys, {}, Params(1, 0, ii))
    ensures outcome.OutOfFuel? ==> RunsOn(prob, true, lastOp, 1, fuel)
  {
    sched := new SimplexSchedulerBase(0, 1);
    ConstraintsAreValid(prob, true);
    sched.BuildTableau(prob.Size(), Constraints(prob, true), [{lastOp}]);
    ghost var initial := sched.Tab();
    outcome := sched.SolveTableau(fuel);
    assert sched.frozenVariables.Keys == {};
    if outcome.OutOfFuel? {
      StillRuns(prob.Size(), Constraints(prob, true), lastOp, initial, 1, sched.Tab(), sched.parameterT, fuel);
    }
  }
}
