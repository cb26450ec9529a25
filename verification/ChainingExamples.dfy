/** Two inputs on which the chaining support does not do what it is for; the theorems exclude them. */
module ChainingExamples {
  import opened Options
  import opened Problems
  import opened Topological
  import opened ChainingTheory
  import opened ChainDelays

  const MULTI_CYCLE := OperatorType(Some(1), None, Some(0.0), Some(1.0))
  const COMBINATIONAL := OperatorType(Some(0), None, Some(5.0), Some(5.0))

  function Use(src: nat, dst: nat): Dependence {
    Dependence(src, dst, false, None)
  }

  /** Operation 2 uses the result of the multi-cycle operation 0 through operation 1, and then directly. */
  const DOUBLE_USE := Problem([Some(0), Some(1), Some(1)], [MULTI_CYCLE, COMBINATIONAL],
                              [[], [Use(0, 1)], [Use(1, 2), Use(0, 2)]])

  const EXAMPLE_TIMES: map<nat, nat> := map[0 := 0, 1 := 1, 2 := 1]

  lemma DoubleUseChains()
    ensures DOUBLE_USE.WellFormed() && DOUBLE_USE.CheckChaining()
    ensures BreakRun(DOUBLE_USE, 10.0, 2).chains == map[0 := map[0 := 0.0], 1 := map[0 := 1.0, 1 := 0.0]]
    ensures BreakRun(DOUBLE_USE, 10.0, 2).breaks == {}
  {
    var p := DOUBLE_USE;
    var run0 := BreakRun(p, 10.0, 0);
    assert IncomingChains(p, run0.chains, 0, 0) == (map[0 := 0.0], true);
    var run1 := BreakRun(p, 10.0, 1);
    assert Kept(p, 10.0, 0, map[0 := 0.0]) == map[0 := 0.0];
    assert run1.chains == map[0 := map[0 := 0.0]];
    assert NewBreaks(p, 10.0, 0, map[0 := 0.0]) == {};
    assert IncomingChains(p, run1.chains, 1, 0) == (map[1 := 0.0], true);
    var own: map<nat, real> := map[1 := 0.0];
    assert own[0 := 1.0] == map[0 := 1.0, 1 := 0.0];
    assert IncomingChains(p, run1.chains, 1, 1) == (map[0 := 1.0, 1 := 0.0], true);
    assert Kept(p, 10.0, 1, map[0 := 1.0, 1 := 0.0]) == map[0 := 1.0, 1 := 0.0];
    assert NewBreaks(p, 10.0, 1, map[0 := 1.0, 1 := 0.0]) == {};
  }

  /** What reaches operation 2 through operation 1. */
  lemma DoubleUseThroughOne()
    ensures DOUBLE_USE.WellFormed() && DOUBLE_USE.CheckChaining()
    ensures IncomingChains(DOUBLE_USE, BreakRun(DOUBLE_USE, 10.0, 2).chains, 2, 1) ==
            (map[0 := 6.0, 1 := 5.0, 2 := 0.0], true)
  {
    DoubleUseChains();
    var chains := BreakRun(DOUBLE_USE, 10.0, 2).chains;
    var m0: map<nat, real> := map[2 := 0.0];
    assert IncomingChains(DOUBLE_USE, chains, 2, 0) == (m0, true);
    ExtendedExample(m0, chains[1]);
  }

  lemma ExtendedExample(known: map<nat, real>, incoming: map<nat, real>)
    requires known == map[2 := 0.0] && incoming == map[0 := 1.0, 1 := 0.0]
    ensures Extend(known, incoming, 5.0) == map[0 := 6.0, 1 := 5.0, 2 := 0.0]
  {
  }

  lemma DoubleUseBreaksNothing()
    ensures DOUBLE_USE.WellFormed() && DOUBLE_USE.CheckChaining()
    ensures BreakRun(DOUBLE_USE, 10.0, 3).breaks == {}
  {
    var p := DOUBLE_USE;
    DoubleUseChains();
    DoubleUseThroughOne();
    var chains := BreakRun(p, 10.0, 2).chains;
    var m2: map<nat, real> := map[0 := 6.0, 1 := 5.0, 2 := 0.0][0 := 1.0];
    assert IncomingChains(p, chains, 2, 2) == (m2, true);
    assert forall u :: u in m2 ==> m2[u] <= 5.0;
    assert NewBreaks(p, 10.0, 2, m2) == {};
  }

  lemma DoubleUseLowers()
    ensures DOUBLE_USE.WellFormed() && DOUBLE_USE.CheckChaining() && Lowers(DOUBLE_USE, 10.0, 2, 1)
  {
    DoubleUseThroughOne();
  }

  lemma DoubleUseIsScheduled()
    ensures DOUBLE_USE.WellFormed() && DOUBLE_USE.CheckChaining() && InTopologicalOrder(DOUBLE_USE)
    ensures DOUBLE_USE.Verify(EXAMPLE_TIMES)
    ensures forall op :: 0 <= op < DOUBLE_USE.Size() ==> DOUBLE_USE.Incoming(op) <= 10.0
  {
  }

  /** The direct use overwrites the longer chain, so no chain is broken, and the delay exceeds the cycle time. */
  lemma DoubleUseExceedsCycleTime()
    ensures DOUBLE_USE.WellFormed() && DOUBLE_USE.CheckChaining() && InTopologicalOrder(DOUBLE_USE)
    ensures DOUBLE_USE.Verify(EXAMPLE_TIMES) && !NeverLowers(DOUBLE_USE, 10.0)
    ensures var (broken, ok) :=
              Drive(DOUBLE_USE, BreakChains(10.0), State(map[], map[], map[], {}), AllOperations(DOUBLE_USE));
            ok && RespectsBreaks(DOUBLE_USE, EXAMPLE_TIMES, broken.breaks)
    ensures var (st, ok) :=
              Drive(DOUBLE_USE, StartInCycle, State(EXAMPLE_TIMES, map[], map[], {}), AllOperations(DOUBLE_USE));
            ok && 2 in st.inCycle && st.inCycle[2] + DOUBLE_USE.Incoming(2) > 10.0
  {
    DoubleUseIsScheduled();
    DoubleUseLowers();
    DoubleUseBreaksNothing();
    DriveIsBreakRun(DOUBLE_USE, 10.0);
    DoubleUseInCycle();
  }

  lemma DoubleUseInCycle()
    ensures DOUBLE_USE.WellFormed() && DOUBLE_USE.CheckChaining() && DOUBLE_USE.Verify(EXAMPLE_TIMES)
    ensures var (st, ok) :=
              Drive(DOUBLE_USE, StartInCycle, State(EXAMPLE_TIMES, map[], map[], {}), AllOperations(DOUBLE_USE));
            ok && 2 in st.inCycle && st.inCycle[2] >= 6.0
  {
    DoubleUseIsScheduled();
    TopologicalOrderIsAcyclic(DOUBLE_USE);
    InCycleTimesAreCorrect(DOUBLE_USE, EXAMPLE_TIMES);
    var st := Drive(DOUBLE_USE, StartInCycle, State(EXAMPLE_TIMES, map[], map[], {}), AllOperations(DOUBLE_USE)).0;
    DoubleUseArrives(st.inCycle);
  }

  lemma DoubleUseArrives(inCycle: map<nat, real>)
    requires DOUBLE_USE.WellFormed() && DOUBLE_USE.CheckChaining() && DOUBLE_USE.Verify(EXAMPLE_TIMES)
    requires DOUBLE_USE.VerifyChaining(EXAMPLE_TIMES, inCycle)
    ensures 1 in inCycle && 2 in inCycle && inCycle[2] >= 6.0
  {
    var p := DOUBLE_USE;
    assert p.PrecedesInCycle(p.dependences[1][0], EXAMPLE_TIMES, inCycle);
    assert p.PrecedesInCycle(p.dependences[2][0], EXAMPLE_TIMES, inCycle);
  }

  /** Two combinational operations that use each other's result. */
  const MUTUAL_USE := Problem([Some(0), Some(0)], [COMBINATIONAL], [[Use(1, 0)], [Use(0, 1)]])

  /** The chain-breaking pass misses the cycle here as well; a schedule exists, and the start times in cycle then cannot
      be computed. */
  lemma MutualUseIsMissed(cycleTime: real)
    ensures MUTUAL_USE.WellFormed() && MUTUAL_USE.CheckChaining() && HasCycle(MUTUAL_USE, StartInCycle)
    ensures Drive(MUTUAL_USE, BreakChains(cycleTime), State(map[], map[], map[], {}), AllOperations(MUTUAL_USE)).1
    ensures MUTUAL_USE.Verify(map[0 := 0, 1 := 0])
    ensures !Drive(MUTUAL_USE, StartInCycle, State(map[0 := 0, 1 := 0], map[], map[], {}), AllOperations(MUTUAL_USE)).1
  {
    MutualUseIsCycle();
    BreakingNeverFails(MUTUAL_USE, cycleTime);
    DriveIffAcyclic(MUTUAL_USE, StartInCycle, State(map[0 := 0, 1 := 0], map[], map[], {}));
  }

  lemma MutualUseIsCycle()
    ensures MUTUAL_USE.WellFormed() && MUTUAL_USE.CheckChaining() && HasCycle(MUTUAL_USE, StartInCycle)
  {
    var p := MUTUAL_USE;
    assert DependsOn(p, StartInCycle, 0, 1) by { assert p.dependences[0][0].src == 1; }
    assert DependsOn(p, StartInCycle, 1, 0) by { assert p.dependences[1][0].src == 0; }
    assert IsCycle(p, StartInCycle, [0, 1, 0]);
  }
}
