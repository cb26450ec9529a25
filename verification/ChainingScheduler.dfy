/** The chaining scheduler: chain-breaking constraints, the simplex schedule, and start times in cycle. */
module ChainingScheduler {
  import opened Options
  import opened Vectors
  import opened Tableaus
  import opened LinearProgram
  import opened Schedules
  import opened SimplexTheory
  import opened InitialTableau
  import opened Freezing
  import opened SimplexBase
  import opened SimplexSchedulers
  import opened Problems
  import opened Topological
  import opened TopologicalDriver
  import opened ChainingTheory
  import opened ChainBreaks

  datatype ChainingResult =
    | ChainsScheduled(startTime: map<nat, nat>, inCycle: map<nat, real>)
    | NoLastOp
    | DelayTooLong
    | NoSchedule
    | InCycleFailed
    | NotFinished

  predicate DelaysFit(prob: Problem, cycleTime: real)
    requires prob.CheckChaining()
  {
    forall opr :: 0 <= opr < |prob.operatorTypes| ==>
      assert prob.CheckDelays(opr);
      prob.operatorTypes[opr].incomingDelay.value <= cycleTime
      && prob.operatorTypes[opr].outgoingDelay.value <= cycleTime
  }

  // ---------------------------------------------------------------------------------------------
  // Breaks are between registered operations
  // ---------------------------------------------------------------------------------------------

  ghost predicate InRange(prob: Problem, st: State) {
    && (forall v, u :: v in st.chains && u in st.chains[v] ==> u < prob.Size())
    && (forall u, v :: (u, v) in st.breaks ==> u < prob.Size() && v < prob.Size())
  }

  lemma {:induction false} IncomingInRange(prob: Problem, st: State, op: nat, k: nat)
    requires prob.WellFormed() && prob.CheckChaining() && op < prob.Size() && k <= |prob.dependences[op]|
    requires InRange(prob, st)
    ensures forall u :: u in IncomingChains(prob, st.chains, op, k).0 ==> u < prob.Size()
  {
    if k > 0 {
      IncomingInRange(prob, st, op, k - 1);
    }
  }

  lemma {:induction false} AttemptInRange(prob: Problem, cycleTime: real, st: State, ops: seq<nat>)
    requires Suits(prob, BreakChains(cycleTime), st) && Registered(prob, ops) && InRange(prob, st)
    ensures InRange(prob, Attempt(prob, BreakChains(cycleTime), st, ops).0)
    decreases |ops|
  {
    if ops != [] {
      IncomingInRange(prob, st, ops[0], |prob.dependences[ops[0]]|);
      AttemptInRange(prob, cycleTime, Step(prob, BreakChains(cycleTime), st, ops[0]).0, ops[1..]);
    }
  }

  lemma {:induction false} DriveInRange(prob: Problem, cycleTime: real, st: State, ops: seq<nat>)
    requires Suits(prob, BreakChains(cycleTime), st) && Registered(prob, ops) && InRange(prob, st)
    ensures InRange(prob, Drive(prob, BreakChains(cycleTime), st, ops).0)
    decreases |ops|
  {
    if ops != [] {
      AttemptInRange(prob, cycleTime, st, ops);
      var (st1, failed) := Attempt(prob, BreakChains(cycleTime), st, ops);
      if |failed| != |ops| {
        DriveInRange(prob, cycleTime, st1, failed);
      }
    }
  }

  // ---------------------------------------------------------------------------------------------
  // Breaks as constraints
  // ---------------------------------------------------------------------------------------------

  /** One extra time step breaks the chain. */
  function BreakConstraint(prob: Problem, b: (nat, nat)): Constraint
    requires prob.Check() && b.0 < prob.Size()
  {
    Constraint(b.0, b.1, prob.Latency(b.0) + 1, 0)
  }

  /** The additional constraints list the breaks, in some order. */
  ghost predicate Lists(prob: Problem, breaks: set<(nat, nat)>, cons: seq<Constraint>)
    requires prob.Check()
  {
    && (forall b :: b in breaks ==> b.0 < prob.Size() && b.1 < prob.Size() && BreakConstraint(prob, b) in cons)
    && (forall d :: 0 <= d < |cons| ==> cons[d].src < prob.Size() && (cons[d].src, cons[d].dst) in breaks
                                        && cons[d] == BreakConstraint(prob, (cons[d].src, cons[d].dst)))
  }

  method CollectBreaks(prob: Problem, breaks: set<(nat, nat)>) returns (cons: seq<Constraint>)
    requires prob.Check() && forall b :: b in breaks ==> b.0 < prob.Size() && b.1 < prob.Size()
    ensures Lists(prob, breaks, cons)
  {
    cons := [];
    var left := breaks;
    while left != {}
      invariant left <= breaks && Lists(prob, breaks - left, cons)
      decreases left
    {
      var b :| b in left;
      ghost var before := cons;
      ghost var done := breaks - left;
      left := left - {b};
      cons := cons + [BreakConstraint(prob, b)];
      forall c | c in breaks - left ensures BreakConstraint(prob, c) in cons {
        if c == b {
          assert cons[|before|] == BreakConstraint(prob, b);
        } else {
          assert c in done;
          assert BreakConstraint(prob, c) in before;
        }
      }
    }
  }

  lemma ScheduleIffBreaks(prob: Problem, sys: System, breaks: set<(nat, nat)>, extra: seq<Constraint>,
                          startTime: map<nat, nat>)
    requires prob.WellFormed() && prob.Check() && prob.Started(startTime) && Lists(prob, breaks, extra)
    requires sys.Valid() && sys.n == prob.Size() && sys.cons == Constraints(prob, false) + extra
    ensures IsSchedule(sys, Times(prob, startTime), 0) <==>
              prob.Verify(startTime) && RespectsBreaks(prob, startTime, breaks)
  {
    var base := InitialSystem(prob.Size(), Constraints(prob, false));
    var times := Times(prob, startTime);
    ConstraintsAreValid(prob, false);
    VerifyIffSchedule(prob, base, startTime, 0);
    var m := |base.cons|;
    if IsSchedule(sys, times, 0) {
      forall d | 0 <= d < m ensures Meets(base.cons[d], times, 0) {
        assert sys.cons[d] == base.cons[d];
      }
      forall u: nat, v: nat | (u, v) in breaks && u < prob.Size() && v < prob.Size()
        ensures startTime[u] + prob.Latency(u) + 1 <= startTime[v]
      {
        assert BreakConstraint(prob, (u, v)) in extra;
        var d :| 0 <= d < |extra| && extra[d] == BreakConstraint(prob, (u, v));
        assert sys.cons[m + d] == extra[d];
        assert Meets(sys.cons[m + d], times, 0);
      }
    }
    if prob.Verify(startTime) && RespectsBreaks(prob, startTime, breaks) {
      forall d | 0 <= d < |sys.cons| ensures Meets(sys.cons[d], times, 0) {
        if d < m {
          assert Meets(base.cons[d], times, 0);
        } else {
          var c := extra[d - m];
          assert (c.src, c.dst) in breaks;
        }
      }
    }
  }

  lemma ExtendedSystemIsValid(prob: Problem, breaks: set<(nat, nat)>, extra: seq<Constraint>)
    requires prob.WellFormed() && prob.Check() && Lists(prob, breaks, extra)
    ensures var cons := Constraints(prob, false) + extra;
      && InitialSystem(prob.Size(), cons).Valid()
      && forall d :: 0 <= d < |cons| ==> cons[d].distance == 0
  {
    ConstraintsAreValid(prob, false);
    NoDistances(prob, prob.Size());
    var cons := Constraints(prob, false) + extra;
    forall d | 0 <= d < |cons| ensures cons[d].src < prob.Size() && cons[d].dst < prob.Size() && cons[d].distance == 0 {
      if d < |Constraints(prob, false)| {
        assert cons[d] == InitialSystem(prob.Size(), Constraints(prob, false)).cons[d];
      } else {
        var c := extra[d - |Constraints(prob, false)|];
        assert (c.src, c.dst) in breaks;
      }
    }
  }

  // ---------------------------------------------------------------------------------------------
  // The scheduler
  // ---------------------------------------------------------------------------------------------

  ghost predicate IsBrokenSchedule(prob: Problem, cycleTime: real, startTime: map<nat, nat>)
    requires prob.WellFormed() && prob.CheckChaining()
  {
    prob.Verify(startTime) && RespectsBreaks(prob, startTime, Breaks(prob, cycleTime))
  }

  /** The solver still runs after this number of steps. */
  ghost predicate RunsOnBroken(prob: Problem, lastOp: nat, cycleTime: real, steps: nat)
    requires prob.WellFormed() && prob.CheckChaining()
  {
    exists extra ::
      Lists(prob, Breaks(prob, cycleTime), extra)
      && RunsFrom(prob.Size(), Constraints(prob, false) + extra, lastOp, 0, steps)
  }

  /** If no path exceeds the cycle time, the schedule is as good as without chaining. */
  lemma NothingIsBroken(prob: Problem, cycleTime: real, startTime: map<nat, nat>)
    requires prob.WellFormed() && prob.CheckChaining() && AllPathsFit(prob, cycleTime)
    ensures IsBrokenSchedule(prob, cycleTime, startTime) <==> prob.Verify(startTime)
  {
    BreaksArePaths(prob, cycleTime);
  }

  /** Unless a delay is lowered, the schedules that are considered are those that keep the operations of a chain that
      is too long apart. */
  lemma BrokenIffKeepsApart(prob: Problem, cycleTime: real, startTime: map<nat, nat>)
    requires prob.WellFormed() && prob.CheckChaining() && InTopologicalOrder(prob) && NeverLowers(prob, cycleTime)
    ensures IsBrokenSchedule(prob, cycleTime, startTime) <==>
              prob.Verify(startTime) && KeepsApart(prob, cycleTime, startTime)
  {
    if prob.Verify(startTime) {
      RespectsIffKeepsApart(prob, cycleTime, startTime);
    }
  }

  ghost predicate IsEarliest(prob: Problem, cycleTime: real, lastOp: nat, startTime: map<nat, nat>)
    requires prob.WellFormed() && prob.CheckChaining() && lastOp < prob.Size() && lastOp in startTime
  {
    forall other :: IsBrokenSchedule(prob, cycleTime, other) ==> startTime[lastOp] <= other[lastOp]
  }

  /** What an optimal schedule, or that there is none, means without mentioning what the pass computes. */
  lemma IndependentOfBreaks(prob: Problem, lastOp: nat, cycleTime: real, startTime: map<nat, nat>)
    requires prob.WellFormed() && prob.CheckChaining() && lastOp < prob.Size()
    ensures AllPathsFit(prob, cycleTime) && (forall other :: !IsBrokenSchedule(prob, cycleTime, other)) ==>
              forall other :: !prob.Verify(other)
    ensures IsBrokenSchedule(prob, cycleTime, startTime) && IsEarliest(prob, cycleTime, lastOp, startTime) ==>
              && (AllPathsFit(prob, cycleTime) ==>
                    forall other :: prob.Verify(other) ==> startTime[lastOp] <= other[lastOp])
              && (InTopologicalOrder(prob) && NeverLowers(prob, cycleTime) ==>
                    && KeepsApart(prob, cycleTime, startTime)
                    && forall other :: prob.Verify(other) && KeepsApart(prob, cycleTime, other) ==>
                         startTime[lastOp] <= other[lastOp])
  {
    forall other: map<nat, nat> | AllPathsFit(prob, cycleTime)
      ensures IsBrokenSchedule(prob, cycleTime, other) <==> prob.Verify(other)
    {
      NothingIsBroken(prob, cycleTime, other);
    }
    forall other: map<nat, nat> | InTopologicalOrder(prob) && NeverLowers(prob, cycleTime)
      ensures IsBrokenSchedule(prob, cycleTime, other) <==>
                prob.Verify(other) && KeepsApart(prob, cycleTime, other)
    {
      BrokenIffKeepsApart(prob, cycleTime, other);
    }
  }

  /** `ChainingSimplexScheduler::schedule`. The chain-breaking pass cannot fail once the delays fit, even if values are
      passed around in a cycle. The source asserts that the last step, which assigns the start times in cycle, cannot
      fail either; it fails exactly on those cycles. */
  method ScheduleChaining(prob: Problem, lastOp: nat, cycleTime: real, fuel: nat) returns (result: ChainingResult)
    requires prob.WellFormed() && prob.CheckChaining()
    ensures result.NoLastOp? <==> lastOp >= prob.Size()
    ensures result.DelayTooLong? <==> lastOp < prob.Size() && !DelaysFit(prob, cycleTime)
    ensures result.ChainsScheduled? ==>
              && prob.VerifyChaining(result.startTime, result.inCycle) && !HasCycle(prob, StartInCycle)
              && IsBrokenSchedule(prob, cycleTime, result.startTime)
              && forall other :: IsBrokenSchedule(prob, cycleTime, other) ==> result.startTime[lastOp] <= other[lastOp]
    ensures result.ChainsScheduled? && InTopologicalOrder(prob) && NeverLowers(prob, cycleTime) ==>
              forall op :: 0 <= op < prob.Size() ==> result.inCycle[op] + prob.Incoming(op) <= cycleTime
    ensures result.ChainsScheduled? && InTopologicalOrder(prob) && NeverLowers(prob, cycleTime) ==>
              && KeepsApart(prob, cycleTime, result.startTime)
              && forall other :: prob.Verify(other) && KeepsApart(prob, cycleTime, other) ==>
                   result.startTime[lastOp] <= other[lastOp]
    ensures result.ChainsScheduled? && AllPathsFit(prob, cycleTime) ==>
              forall other :: prob.Verify(other) ==> result.startTime[lastOp] <= other[lastOp]
    ensures result.NoSchedule? ==> forall other :: !IsBrokenSchedule(prob, cycleTime, other)
    ensures result.NoSchedule? && AllPathsFit(prob, cycleTime) ==> forall other :: !prob.Verify(other)
    ensures result.NotFinished? ==> RunsOnBroken(prob, lastOp, cycleTime, fuel)
    ensures result.InCycleFailed? ==> HasCycle(prob, StartInCycle)
    ensures InTopologicalOrder(prob) ==> !result.InCycleFailed?
  {
    if lastOp >= prob.Size() {
      return NoLastOp;
    }
    if !DelaysFit(prob, cycleTime) {
      return DelayTooLong;
    }
    var breaker := new Driver(prob, BreakChains(cycleTime), map[]);
    var ok := breaker.HandleOperationsInTopologicalOrder();
    BreakingNeverFails(prob, cycleTime);
    assert ok;
    DriveInRange(prob, cycleTime, State(map[], map[], map[], {}), AllOperations(prob));
    var startTime;
    result, startTime := ScheduleBroken(prob, lastOp, cycleTime, breaker.breaks, fuel);
    IndependentOfBreaks(prob, lastOp, cycleTime, startTime);
    if !result.ChainsScheduled? {
      return;
    }
    var filler := new Driver(prob, StartInCycle, startTime);
    ok := filler.HandleOperationsInTopologicalOrder();
    InCycleTimesAreCorrect(prob, startTime);
    if InTopologicalOrder(prob) {
      TopologicalOrderIsAcyclic(prob);
    }
    if !ok {
      return InCycleFailed;
    }
    if InTopologicalOrder(prob) && NeverLowers(prob, cycleTime) {
      forall op | 0 <= op < prob.Size() ensures prob.Incoming(op) <= cycleTime {
        assert prob.CheckDelays(prob.linked[op].value);
      }
      CycleTimeIsMet(prob, cycleTime, startTime);
    }
    result := ChainsScheduled(startTime, filler.inCycle);
  }

  lemma BrokenIsEarliest(prob: Problem, lastOp: nat, cycleTime: real, t: Tableau, sys: System, extra: seq<Constraint>,
                         startTime: map<nat, nat>)
    requires prob.WellFormed() && prob.CheckChaining() && prob.Started(startTime) && lastOp < prob.Size() == sys.n
    requires Represents(t, sys) && Measures(t, sys, AllWeights(prob.Size(), [{lastOp}])) && DualFeasible(t, {})
    requires IsSettled(sys, map[]) && sys.cons == Constraints(prob, false) + extra
    requires Lists(prob, Breaks(prob, cycleTime), extra) && IsSchedule(sys, Times(prob, startTime), 0)
    requires Times(prob, startTime) == StartTimes(t, map[], Params(1, 0, 0), prob.Size())
    ensures IsBrokenSchedule(prob, cycleTime, startTime)
    ensures forall other :: IsBrokenSchedule(prob, cycleTime, other) ==> startTime[lastOp] <= other[lastOp]
  {
    ScheduleIffBreaks(prob, sys, Breaks(prob, cycleTime), extra, startTime);
    forall other | IsBrokenSchedule(prob, cycleTime, other) ensures startTime[lastOp] <= other[lastOp] {
      ScheduleIffBreaks(prob, sys, Breaks(prob, cycleTime), extra, other);
      LastOpIsEarliest(t, sys, prob.Size(), lastOp, 0, Times(prob, other));
      assert Times(prob, startTime)[lastOp] == startTime[lastOp];
    }
  }

  lemma NeverBroken(prob: Problem, cycleTime: real, sys: System, extra: seq<Constraint>)
    requires prob.WellFormed() && prob.CheckChaining() && sys.Valid() && sys.n == prob.Size()
    requires IsSettled(sys, map[]) && sys.cons == Constraints(prob, false) + extra
    requires Lists(prob, Breaks(prob, cycleTime), extra) && NoSolution(sys, {}, Params(1, 0, 0))
    ensures forall other :: !IsBrokenSchedule(prob, cycleTime, other)
  {
    forall other ensures !IsBrokenSchedule(prob, cycleTime, other) {
      if IsBrokenSchedule(prob, cycleTime, other) {
        ScheduleIffBreaks(prob, sys, Breaks(prob, cycleTime), extra, other);
        ExcludedInterval(prob, false, sys, 0, other);
      }
    }
  }

  /** The simplex schedule for the dependences and the chain-breaking dependences. */
  method ScheduleBroken(prob: Problem, lastOp: nat, cycleTime: real, breaks: set<(nat, nat)>, fuel: nat)
    returns (result: ChainingResult, startTime: map<nat, nat>)
    requires prob.WellFormed() && prob.CheckChaining() && lastOp < prob.Size()
    requires breaks == Breaks(prob, cycleTime) && forall b :: b in breaks ==> b.0 < prob.Size() && b.1 < prob.Size()
    ensures result.ChainsScheduled? || result.NoSchedule? || result.NotFinished?
    ensures result.ChainsScheduled? ==>
              && IsBrokenSchedule(prob, cycleTime, startTime)
              && forall other :: IsBrokenSchedule(prob, cycleTime, other) ==> startTime[lastOp] <= other[lastOp]
    ensures result.NoSchedule? ==> forall other :: !IsBrokenSchedule(prob, cycleTime, other)
    ensures result.NotFinished? ==> RunsOnBroken(prob, lastOp, cycleTime, fuel)
  {
    startTime := map[];
    var extra := CollectBreaks(prob, breaks);
    ExtendedSystemIsValid(prob, breaks, extra);
    var sched, outcome := SolveFrom(prob.Size(), Constraints(prob, false) + extra, lastOp, fuel);
    match outcome {
      case Solved =>
        startTime := ReadStartTimes(prob, sched);
        BrokenIsEarliest(prob, lastOp, cycleTime, sched.Tab(), sched.sys, extra, startTime);
        result := ChainsScheduled(startTime, map[]);
      case Infeasible =>
        NeverBroken(prob, cycleTime, sched.sys, extra);
        result := NoSchedule;
      case OutOfFuel => result := NotFinished;
    }
  }
}
