/** Start times in cycle, and the chain-breaking dependences that bound them. */
module ChainingTheory {
  // An operation's start time in cycle is realised by a path of combinational operations that all start in the same
  // cycle. The chain along that path has been accumulated by the chain-breaking pass, and cannot have been broken,
  // as a break would have put the ends of the path into different cycles.

  import opened Options
  import opened Problems
  import opened Topological

  // ---------------------------------------------------------------------------------------------
  // Start times in cycle
  // ---------------------------------------------------------------------------------------------

  /** The predecessors' values have arrived in the cycle before the operation starts there. */
  ghost predicate ArrivedInOrder(prob: Problem, st: State, op: nat)
    requires prob.WellFormed() && prob.CheckChaining() && prob.Started(st.startTime)
    requires op < prob.Size() && op in st.inCycle
  {
    && st.inCycle[op] >= 0.0
    && forall k :: 0 <= k < |prob.dependences[op]| && !prob.dependences[op][k].auxiliary ==>
         prob.dependences[op][k].src in st.inCycle
         && prob.PrecedesInCycle(prob.dependences[op][k], st.startTime, st.inCycle)
  }

  /** The operation starts with its cycle, or just when the value of some predecessor arrives. */
  ghost predicate IsRealized(prob: Problem, st: State, op: nat, k: nat)
    requires prob.WellFormed() && prob.CheckChaining() && prob.Started(st.startTime)
    requires op < prob.Size() && op in st.inCycle && k < |prob.dependences[op]|
  {
    var dep := prob.dependences[op][k];
    && !dep.auxiliary && dep.src in st.inCycle
    && st.startTime[dep.src] + prob.Latency(dep.src) >= st.startTime[op]
    && st.inCycle[op] == ArrivalInCycle(prob, st, dep.src)
  }

  ghost predicate Realized(prob: Problem, st: State, op: nat)
    requires prob.WellFormed() && prob.CheckChaining() && prob.Started(st.startTime)
    requires op < prob.Size() && op in st.inCycle
  {
    st.inCycle[op] == 0.0 || exists k: nat :: k < |prob.dependences[op]| && IsRealized(prob, st, op, k)
  }

  ghost predicate InCycleCorrect(prob: Problem, st: State)
    requires prob.WellFormed() && prob.CheckChaining() && prob.Started(st.startTime)
  {
    forall op :: op in st.inCycle ==> op < prob.Size() && ArrivedInOrder(prob, st, op) && Realized(prob, st, op)
  }

  lemma {:induction false} LatestArrivalIsBound(prob: Problem, st: State, op: nat, k: nat)
    requires prob.WellFormed() && prob.CheckChaining() && prob.Started(st.startTime)
    requires op < prob.Size() && k <= |prob.dependences[op]| && LatestArrival(prob, st, op, k).Some?
    ensures LatestArrival(prob, st, op, k).value >= 0.0
    ensures forall j :: 0 <= j < k && !prob.dependences[op][j].auxiliary ==>
              var pred := prob.dependences[op][j].src;
              && pred in st.inCycle
              && (st.startTime[pred] + prob.Latency(pred) < st.startTime[op]
                  || ArrivalInCycle(prob, st, pred) <= LatestArrival(prob, st, op, k).value)
  {
    if k > 0 {
      LatestArrivalIsBound(prob, st, op, k - 1);
    }
  }

  lemma {:induction false} LatestArrivalIsAttained(prob: Problem, st: State, op: nat, k: nat) returns (j: nat)
    requires prob.WellFormed() && prob.CheckChaining() && prob.Started(st.startTime)
    requires op < prob.Size() && k <= |prob.dependences[op]| && LatestArrival(prob, st, op, k).Some?
    ensures LatestArrival(prob, st, op, k).value == 0.0 ||
            (j < k && var dep := prob.dependences[op][j];
               && !dep.auxiliary && dep.src in st.inCycle
               && st.startTime[dep.src] + prob.Latency(dep.src) >= st.startTime[op]
               && LatestArrival(prob, st, op, k).value == ArrivalInCycle(prob, st, dep.src))
  {
    j := 0;
    if k > 0 {
      j := LatestArrivalIsAttained(prob, st, op, k - 1);
      if LatestArrival(prob, st, op, k) != LatestArrival(prob, st, op, k - 1) {
        j := k - 1;
      }
    }
  }

  lemma InCycleStepIsCorrect(prob: Problem, st: State, op: nat)
    requires prob.WellFormed() && prob.CheckChaining() && prob.Started(st.startTime) && op < prob.Size()
    requires op !in st.inCycle && InCycleStep(prob, st, op).1
    ensures var st' := InCycleStep(prob, st, op).0; ArrivedInOrder(prob, st', op) && Realized(prob, st', op)
  {
    var n := |prob.dependences[op]|;
    var st' := InCycleStep(prob, st, op).0;
    LatestArrivalIsBound(prob, st, op, n);
    forall k | 0 <= k < n && !prob.dependences[op][k].auxiliary
      ensures prob.dependences[op][k].src in st'.inCycle
      ensures prob.PrecedesInCycle(prob.dependences[op][k], st'.startTime, st'.inCycle)
    {
      assert prob.dependences[op][k].src in st.inCycle;
    }
    var j := LatestArrivalIsAttained(prob, st, op, n);
    if st'.inCycle[op] != 0.0 {
      assert IsRealized(prob, st', op, j);
    }
  }

  lemma InCycleStepKeeps(prob: Problem, st: State, op: nat)
    requires Suits(prob, StartInCycle, st) && op < prob.Size() && op !in st.inCycle && InCycleCorrect(prob, st)
    ensures InCycleCorrect(prob, InCycleStep(prob, st, op).0)
  {
    var (st', ok) := InCycleStep(prob, st, op);
    if ok {
      InCycleStepIsCorrect(prob, st, op);
      forall v | v in st'.inCycle ensures v < prob.Size() && ArrivedInOrder(prob, st', v) && Realized(prob, st', v) {
        if v != op {
          OthersStayCorrect(prob, st, st', op, v);
        }
      }
    }
  }

  lemma OthersStayCorrect(prob: Problem, st: State, st': State, op: nat, v: nat)
    requires prob.WellFormed() && prob.CheckChaining() && prob.Started(st.startTime)
    requires st'.startTime == st.startTime && op !in st.inCycle && op in st'.inCycle
    requires st'.inCycle == st.inCycle[op := st'.inCycle[op]]
    requires v in st.inCycle && v < prob.Size() && ArrivedInOrder(prob, st, v) && Realized(prob, st, v)
    ensures ArrivedInOrder(prob, st', v) && Realized(prob, st', v)
  {
    forall k | 0 <= k < |prob.dependences[v]| && !prob.dependences[v][k].auxiliary
      ensures prob.dependences[v][k].src in st'.inCycle
      ensures prob.PrecedesInCycle(prob.dependences[v][k], st'.startTime, st'.inCycle)
    {
      assert prob.PrecedesInCycle(prob.dependences[v][k], st.startTime, st.inCycle);
    }
    if st.inCycle[v] != 0.0 {
      var k: nat :| k < |prob.dependences[v]| && IsRealized(prob, st, v, k);
      assert IsRealized(prob, st', v, k);
    }
  }

  lemma {:induction false} AttemptKeepsInCycle(prob: Problem, st: State, ops: seq<nat>)
    requires Suits(prob, StartInCycle, st) && Registered(prob, ops) && Fresh(StartInCycle, st, ops)
    requires InCycleCorrect(prob, st)
    ensures var (st', failed) := Attempt(prob, StartInCycle, st, ops);
            st'.startTime == st.startTime && InCycleCorrect(prob, st') && Fresh(StartInCycle, st', failed)
    decreases |ops|
  {
    if ops != [] {
      InCycleStepKeeps(prob, st, ops[0]);
      StepIffReady(prob, StartInCycle, st, ops[0]);
      var (st1, ok) := Step(prob, StartInCycle, st, ops[0]);
      AttemptKeepsInCycle(prob, st1, ops[1..]);
      AttemptFails(prob, StartInCycle, st1, ops[1..], ops[0]);
    }
  }

  lemma {:induction false} DriveKeepsInCycle(prob: Problem, st: State, ops: seq<nat>)
    requires Suits(prob, StartInCycle, st) && Registered(prob, ops) && Fresh(StartInCycle, st, ops)
    requires InCycleCorrect(prob, st)
    ensures var st' := Drive(prob, StartInCycle, st, ops).0;
            st'.startTime == st.startTime && InCycleCorrect(prob, st')
    decreases |ops|
  {
    if ops != [] {
      AttemptKeepsInCycle(prob, st, ops);
      var (st1, failed) := Attempt(prob, StartInCycle, st, ops);
      if |failed| != |ops| {
        DriveKeepsInCycle(prob, st1, failed);
      }
    }
  }

  /** For every schedule, the start times in cycle complete it to a solution of the chaining problem; they exist
      exactly if no values are passed around in a cycle. */
  lemma InCycleTimesAreCorrect(prob: Problem, startTime: map<nat, nat>)
    requires prob.WellFormed() && prob.CheckChaining() && prob.Verify(startTime)
    ensures var (st, ok) := Drive(prob, StartInCycle, State(startTime, map[], map[], {}), AllOperations(prob));
      && (ok <==> !HasCycle(prob, StartInCycle))
      && st.startTime == startTime && InCycleCorrect(prob, st)
      && (ok ==> prob.VerifyChaining(startTime, st.inCycle))
  {
    var st0 := State(startTime, map[], map[], {});
    var (st, ok) := Drive(prob, StartInCycle, st0, AllOperations(prob));
    DriveIffAcyclic(prob, StartInCycle, st0);
    DriveKeepsInCycle(prob, st0, AllOperations(prob));
    if ok {
      forall op | 0 <= op < prob.Size() ensures op in st.inCycle && ArrivedInOrder(prob, st, op) {
        assert op in Handled(StartInCycle, st);
      }
    }
  }

  /** The assertion of the source: a predecessor that does not end before the cycle ends in it. */
  lemma PredecessorEndsInCycle(prob: Problem, startTime: map<nat, nat>, op: nat, k: nat)
    requires prob.WellFormed() && prob.Check() && prob.Verify(startTime)
    requires op < prob.Size() && k < |prob.dependences[op]|
    ensures var pred := prob.dependences[op][k].src;
      && !(startTime[pred] + prob.Latency(pred) < startTime[op]) ==>
           startTime[pred] + prob.Latency(pred) == startTime[op]
  {
    assert prob.Precedes(prob.dependences[op][k], startTime);
    assert prob.dependences[op][k].dst == op;
  }

  // ---------------------------------------------------------------------------------------------
  // Chains, for operations registered in topological order
  // ---------------------------------------------------------------------------------------------

  ghost predicate InTopologicalOrder(prob: Problem)
    requires prob.WellFormed()
  {
    forall op, k :: 0 <= op < prob.Size() && 0 <= k < |prob.dependences[op]| && !prob.dependences[op][k].auxiliary ==>
      prob.dependences[op][k].src < op
  }

  /** The value of `u` reaches an operand of `v` directly, or through combinational operations. */
  ghost predicate Feeds(prob: Problem, u: nat, v: nat)
    requires prob.WellFormed() && prob.Check() && v < prob.Size()
    decreases v
  {
    exists k :: 0 <= k < |prob.dependences[v]| && !prob.dependences[v][k].auxiliary &&
      var c := prob.dependences[v][k].src;
      c < v && (c == u || (prob.Latency(c) == 0 && Feeds(prob, u, c)))
  }

  /** The state after the first `m` operations have been handled, each in its first attempt. */
  function BreakRun(prob: Problem, cycleTime: real, m: nat): State
    requires prob.WellFormed() && prob.CheckChaining() && m <= prob.Size()
  {
    if m == 0 then State(map[], map[], map[], {})
    else BreakStep(prob, cycleTime, BreakRun(prob, cycleTime, m - 1), m - 1).0
  }

  lemma {:induction false} ChainsKnown(prob: Problem, chains: map<nat, map<nat, real>>, op: nat, k: nat)
    requires prob.WellFormed() && prob.CheckChaining() && op < prob.Size() && k <= |prob.dependences[op]|
    requires InTopologicalOrder(prob) && forall v :: 0 <= v < op ==> v in chains
    ensures IncomingChains(prob, chains, op, k).1
  {
    if k > 0 {
      ChainsKnown(prob, chains, op, k - 1);
      var dep := prob.dependences[op][k - 1];
    }
  }

  lemma {:induction false} BreakRunHandles(prob: Problem, cycleTime: real, m: nat)
    requires prob.WellFormed() && prob.CheckChaining() && m <= prob.Size() && InTopologicalOrder(prob)
    ensures forall v: nat :: v in BreakRun(prob, cycleTime, m).chains <==> v < m
  {
    if m > 0 {
      BreakRunHandles(prob, cycleTime, m - 1);
    }
  }

  lemma {:induction false} AttemptIsBreakRun(prob: Problem, cycleTime: real, m: nat)
    requires prob.WellFormed() && prob.CheckChaining() && m <= prob.Size() && InTopologicalOrder(prob)
    ensures Attempt(prob, BreakChains(cycleTime), BreakRun(prob, cycleTime, m), AllOperations(prob)[m..])
         == (BreakRun(prob, cycleTime, prob.Size()), [])
    decreases prob.Size() - m
  {
    var ops := AllOperations(prob)[m..];
    if m < prob.Size() {
      BreakRunHandles(prob, cycleTime, m);
      ChainsKnown(prob, BreakRun(prob, cycleTime, m).chains, m, |prob.dependences[m]|);
      AttemptIsBreakRun(prob, cycleTime, m + 1);
      assert ops[0] == m && ops[1..] == AllOperations(prob)[m + 1..];
    }
  }

  lemma DriveIsBreakRun(prob: Problem, cycleTime: real)
    requires prob.WellFormed() && prob.CheckChaining() && InTopologicalOrder(prob)
    ensures Drive(prob, BreakChains(cycleTime), State(map[], map[], map[], {}), AllOperations(prob))
         == (BreakRun(prob, cycleTime, prob.Size()), true)
  {
    AttemptIsBreakRun(prob, cycleTime, 0);
    assert AllOperations(prob)[0..] == AllOperations(prob);
  }

  /** The chains at `op` before those that exceed the cycle time are broken. */
  function ChainsAt(prob: Problem, cycleTime: real, op: nat): map<nat, real>
    requires prob.WellFormed() && prob.CheckChaining() && op < prob.Size()
  {
    IncomingChains(prob, BreakRun(prob, cycleTime, op).chains, op, |prob.dependences[op]|).0
  }

  lemma {:induction false} BreakRunRecords(prob: Problem, cycleTime: real, op: nat, m: nat)
    requires prob.WellFormed() && prob.CheckChaining() && op < m <= prob.Size() && InTopologicalOrder(prob)
    ensures op in BreakRun(prob, cycleTime, m).chains
    ensures BreakRun(prob, cycleTime, m).chains[op] == Kept(prob, cycleTime, op, ChainsAt(prob, cycleTime, op))
    ensures NewBreaks(prob, cycleTime, op, ChainsAt(prob, cycleTime, op)) <= BreakRun(prob, cycleTime, m).breaks
  {
    BreakRunHandles(prob, cycleTime, m - 1);
    ChainsKnown(prob, BreakRun(prob, cycleTime, m - 1).chains, m - 1, |prob.dependences[m - 1]|);
    if op < m - 1 {
      BreakRunRecords(prob, cycleTime, op, m - 1);
    }
  }

  lemma {:induction false} FeedsForward(prob: Problem, u: nat, v: nat)
    requires prob.WellFormed() && prob.Check() && v < prob.Size() && Feeds(prob, u, v)
    ensures u < v
    decreases v
  {
    var k :| 0 <= k < |prob.dependences[v]| && !prob.dependences[v][k].auxiliary &&
      var c := prob.dependences[v][k].src;
      c < v && (c == u || (prob.Latency(c) == 0 && Feeds(prob, u, c)));
    if prob.dependences[v][k].src != u {
      FeedsForward(prob, u, prob.dependences[v][k].src);
    }
  }

  /** The chains recorded for an earlier operation are those that fit. */
  lemma RecordedChains(prob: Problem, cycleTime: real, c: nat, v: nat)
    requires prob.WellFormed() && prob.CheckChaining() && c < v <= prob.Size() && InTopologicalOrder(prob)
    ensures c in BreakRun(prob, cycleTime, v).chains
    ensures forall u :: u in BreakRun(prob, cycleTime, v).chains[c] ==>
              u in ChainsAt(prob, cycleTime, c)
              && BreakRun(prob, cycleTime, v).chains[c][u] == ChainsAt(prob, cycleTime, c)[u]
  {
    BreakRunRecords(prob, cycleTime, c, v);
  }

  /** Chains originate in the operation itself, or in an operation whose value reaches it. */
  lemma {:induction false} ChainsFeed(prob: Problem, cycleTime: real, v: nat, k: nat)
    requires prob.WellFormed() && prob.CheckChaining() && v < prob.Size() && k <= |prob.dependences[v]|
    requires InTopologicalOrder(prob)
    ensures forall u :: u in IncomingChains(prob, BreakRun(prob, cycleTime, v).chains, v, k).0 ==>
              u == v || Feeds(prob, u, v)
    decreases v, k
  {
    BreakRunHandles(prob, cycleTime, v);
    if k > 0 {
      ChainsFeed(prob, cycleTime, v, k - 1);
      var dep := prob.dependences[v][k - 1];
      var chains := BreakRun(prob, cycleTime, v).chains;
      if !dep.auxiliary {
        var c := dep.src;
        RecordedChains(prob, cycleTime, c, v);
        ChainsFeed(prob, cycleTime, c, |prob.dependences[c]|);
        forall u | u in IncomingChains(prob, chains, v, k).0 ensures u == v || Feeds(prob, u, v) {
          if u !in IncomingChains(prob, chains, v, k - 1).0 {
            assert c < v && (c == u || (prob.Latency(c) == 0 && Feeds(prob, u, c)));
          }
        }
      }
    }
  }

  /** An operation's own chain has no delay. */
  lemma {:induction false} OwnChain(prob: Problem, cycleTime: real, v: nat, k: nat)
    requires prob.WellFormed() && prob.CheckChaining() && v < prob.Size() && k <= |prob.dependences[v]|
    requires InTopologicalOrder(prob)
    ensures var (known, ok) := IncomingChains(prob, BreakRun(prob, cycleTime, v).chains, v, k);
            v in known && known[v] == 0.0
  {
    BreakRunHandles(prob, cycleTime, v);
    if k > 0 {
      OwnChain(prob, cycleTime, v, k - 1);
      var dep := prob.dependences[v][k - 1];
      if !dep.auxiliary {
        var c := dep.src;
        RecordedChains(prob, cycleTime, c, v);
        ChainsFeed(prob, cycleTime, c, |prob.dependences[c]|);
        if v in BreakRun(prob, cycleTime, v).chains[c] {
          FeedsForward(prob, v, c);
        }
      }
    }
  }

  /** The dependence makes its multi-cycle source `u` the origin of a chain, whatever that chain was. */
  predicate Overwrites(prob: Problem, dep: Dependence, u: nat)
    requires prob.Check()
  {
    !dep.auxiliary && dep.src == u && u < prob.Size() && prob.Latency(u) > 0
  }

  /** The chains at `v` after its first `k` dependences. */
  function KnownChains(prob: Problem, cycleTime: real, v: nat, k: nat): map<nat, real>
    requires prob.WellFormed() && prob.CheckChaining() && v < prob.Size() && k <= |prob.dependences[v]|
  {
    IncomingChains(prob, BreakRun(prob, cycleTime, v).chains, v, k).0
  }

  /** The dependence overwrites a longer chain from its source with the delay of the source alone. */
  predicate Lowers(prob: Problem, cycleTime: real, v: nat, k: nat)
    requires prob.WellFormed() && prob.CheckChaining() && v < prob.Size() && k < |prob.dependences[v]|
  {
    var u := prob.dependences[v][k].src;
    && Overwrites(prob, prob.dependences[v][k], u)
    && u in KnownChains(prob, cycleTime, v, k) && KnownChains(prob, cycleTime, v, k)[u] > prob.Outgoing(u)
  }

  ghost predicate NeverLowers(prob: Problem, cycleTime: real)
    requires prob.WellFormed() && prob.CheckChaining()
  {
    forall v: nat, k: nat :: v < prob.Size() && k < |prob.dependences[v]| ==> !Lowers(prob, cycleTime, v, k)
  }

  /** What has been accumulated for an origin can only be lost when the origin overwrites it. */
  lemma KnownGrows(prob: Problem, cycleTime: real, v: nat, k: nat, u: nat)
    requires prob.WellFormed() && prob.CheckChaining() && InTopologicalOrder(prob)
    requires v < prob.Size() && k < |prob.dependences[v]| && u in KnownChains(prob, cycleTime, v, k)
    requires !Lowers(prob, cycleTime, v, k)
    ensures u in KnownChains(prob, cycleTime, v, k + 1)
    ensures KnownChains(prob, cycleTime, v, k + 1)[u] >= KnownChains(prob, cycleTime, v, k)[u]
  {
    BreakRunHandles(prob, cycleTime, v);
    ChainsKnown(prob, BreakRun(prob, cycleTime, v).chains, v, k);
  }

  lemma {:induction false} ChainStays(prob: Problem, cycleTime: real, v: nat, k: nat, m: nat, u: nat)
    requires prob.WellFormed() && prob.CheckChaining() && InTopologicalOrder(prob)
    requires v < prob.Size() && k <= m <= |prob.dependences[v]| && u in KnownChains(prob, cycleTime, v, k)
    requires forall j: nat :: k <= j < m ==> !Lowers(prob, cycleTime, v, j)
    ensures u in KnownChains(prob, cycleTime, v, m)
    ensures KnownChains(prob, cycleTime, v, m)[u] >= KnownChains(prob, cycleTime, v, k)[u]
  {
    if k < m {
      ChainStays(prob, cycleTime, v, k, m - 1, u);
      KnownGrows(prob, cycleTime, v, m - 1, u);
    }
  }

  /** The breaks, as the scheduler's additional constraints demand: one more time step than the latency. */
  ghost predicate RespectsBreaks(prob: Problem, startTime: map<nat, nat>, breaks: set<(nat, nat)>)
    requires prob.Check() && prob.Started(startTime)
  {
    forall u: nat, v: nat :: (u, v) in breaks && u < prob.Size() && v < prob.Size() ==>
      startTime[u] + prob.Latency(u) + 1 <= startTime[v]
  }

  /** The chain at `v` that accounts for its start time in cycle. */
  ghost predicate Accounts(prob: Problem, cycleTime: real, st: State, v: nat, u: nat)
    requires prob.WellFormed() && prob.CheckChaining() && prob.Started(st.startTime)
    requires v < prob.Size() && v in st.inCycle
  {
    && u in ChainsAt(prob, cycleTime, v) && ChainsAt(prob, cycleTime, v)[u] >= st.inCycle[v]
    && (u != v ==> u < prob.Size() && st.startTime[u] + prob.Latency(u) == st.startTime[v])
  }

  ghost predicate ChainingAssumptions(prob: Problem, cycleTime: real, st: State)
    requires prob.WellFormed() && prob.CheckChaining()
  {
    && prob.Verify(st.startTime) && InTopologicalOrder(prob) && NeverLowers(prob, cycleTime)
    && InCycleCorrect(prob, st) && (forall op :: 0 <= op < prob.Size() ==> op in st.inCycle)
    && (forall op :: 0 <= op < prob.Size() ==> prob.Incoming(op) <= cycleTime)
    && RespectsBreaks(prob, st.startTime, BreakRun(prob, cycleTime, prob.Size()).breaks)
  }

  /** An accounting chain has not been broken, so it fits. */
  lemma AccountedFits(prob: Problem, cycleTime: real, st: State, v: nat, u: nat)
    requires prob.WellFormed() && prob.CheckChaining() && ChainingAssumptions(prob, cycleTime, st)
    requires v < prob.Size() && Accounts(prob, cycleTime, st, v, u)
    ensures u in Kept(prob, cycleTime, v, ChainsAt(prob, cycleTime, v))
    ensures st.inCycle[v] + prob.Incoming(v) <= cycleTime
  {
    OwnChain(prob, cycleTime, v, |prob.dependences[v]|);
    if u !in Kept(prob, cycleTime, v, ChainsAt(prob, cycleTime, v)) {
      BreakRunRecords(prob, cycleTime, v, prob.Size());
      assert (u, v) in NewBreaks(prob, cycleTime, v, ChainsAt(prob, cycleTime, v));
      assert (u, v) in BreakRun(prob, cycleTime, prob.Size()).breaks;
      assert false;
    }
  }

  /** A chain at a combinational predecessor that ends in the cycle, extended by the predecessor. */
  lemma ExtendedAccounts(prob: Problem, cycleTime: real, st: State, v: nat, k: nat, u: nat)
    requires prob.WellFormed() && prob.CheckChaining() && ChainingAssumptions(prob, cycleTime, st)
    requires v < prob.Size() && k < |prob.dependences[v]| && IsRealized(prob, st, v, k)
    requires prob.Latency(prob.dependences[v][k].src) == 0
    requires Accounts(prob, cycleTime, st, prob.dependences[v][k].src, u)
    ensures Accounts(prob, cycleTime, st, v, u)
  {
    var p, n := prob.dependences[v][k].src, |prob.dependences[v]|;
    PredecessorEndsInCycle(prob, st.startTime, v, k);
    AccountedFits(prob, cycleTime, st, p, u);
    ExtendedChain(prob, cycleTime, v, k, u);
    ChainStays(prob, cycleTime, v, k + 1, n, u);
    OriginIsEarlier(prob, cycleTime, p, u);
  }

  lemma OriginIsEarlier(prob: Problem, cycleTime: real, p: nat, u: nat)
    requires prob.WellFormed() && prob.CheckChaining() && InTopologicalOrder(prob) && p < prob.Size()
    requires u in ChainsAt(prob, cycleTime, p)
    ensures u <= p
  {
    ChainsFeed(prob, cycleTime, p, |prob.dependences[p]|);
    if u != p {
      FeedsForward(prob, u, p);
    }
  }

  lemma ExtendedChain(prob: Problem, cycleTime: real, v: nat, k: nat, u: nat)
    requires prob.WellFormed() && prob.CheckChaining() && InTopologicalOrder(prob)
    requires v < prob.Size() && k < |prob.dependences[v]| && !prob.dependences[v][k].auxiliary
    requires var p := prob.dependences[v][k].src;
             prob.Latency(p) == 0 && u in Kept(prob, cycleTime, p, ChainsAt(prob, cycleTime, p))
    ensures var p := prob.dependences[v][k].src;
            && u in KnownChains(prob, cycleTime, v, k + 1)
            && KnownChains(prob, cycleTime, v, k + 1)[u] >= ChainsAt(prob, cycleTime, p)[u] + prob.Outgoing(p)
  {
    BreakRunRecords(prob, cycleTime, prob.dependences[v][k].src, v);
    BreakRunHandles(prob, cycleTime, v);
    ChainsKnown(prob, BreakRun(prob, cycleTime, v).chains, v, k);
  }

  /** A multi-cycle predecessor is the origin of a chain. */
  lemma OverwrittenChain(prob: Problem, cycleTime: real, v: nat, k: nat)
    requires prob.WellFormed() && prob.CheckChaining() && InTopologicalOrder(prob)
    requires v < prob.Size() && k < |prob.dependences[v]|
    requires Overwrites(prob, prob.dependences[v][k], prob.dependences[v][k].src)
    ensures var u := prob.dependences[v][k].src;
            u in KnownChains(prob, cycleTime, v, k + 1) && KnownChains(prob, cycleTime, v, k + 1)[u] == prob.Outgoing(u)
  {
    BreakRunHandles(prob, cycleTime, v);
    ChainsKnown(prob, BreakRun(prob, cycleTime, v).chains, v, k);
  }

  /** Every start time in cycle is accounted for by a chain. */
  lemma {:induction false} ChainAccounts(prob: Problem, cycleTime: real, st: State, v: nat) returns (u: nat)
    requires prob.WellFormed() && prob.CheckChaining() && ChainingAssumptions(prob, cycleTime, st)
    requires v < prob.Size()
    ensures Accounts(prob, cycleTime, st, v, u)
    decreases v
  {
    var n := |prob.dependences[v]|;
    if st.inCycle[v] == 0.0 {
      u := v;
      OwnChain(prob, cycleTime, v, n);
    } else {
      assert Realized(prob, st, v);
      var k: nat :| k < n && IsRealized(prob, st, v, k);
      var p := prob.dependences[v][k].src;
      if prob.Latency(p) == 0 {
        u := ChainAccounts(prob, cycleTime, st, p);
        ExtendedAccounts(prob, cycleTime, st, v, k, u);
      } else {
        u := p;
        PredecessorEndsInCycle(prob, st.startTime, v, k);
        OverwrittenChain(prob, cycleTime, v, k);
        ChainStays(prob, cycleTime, v, k + 1, n, p);
      }
    }
  }

  lemma TopologicalOrderIsAcyclic(prob: Problem)
    requires prob.WellFormed() && InTopologicalOrder(prob)
    ensures !HasCycle(prob, StartInCycle)
  {
    forall walk | IsCycle(prob, StartInCycle, walk) ensures false {
      WalkAscends(prob, walk, |walk| - 1);
    }
  }

  lemma {:induction false} WalkAscends(prob: Problem, walk: seq<nat>, i: nat)
    requires prob.WellFormed() && InTopologicalOrder(prob) && IsCycle(prob, StartInCycle, walk) && 0 < i < |walk|
    ensures walk[0] < walk[i]
  {
    assert DependsOn(prob, StartInCycle, walk[i], walk[i - 1]);
    if i > 1 {
      WalkAscends(prob, walk, i - 1);
    }
  }

  /** The purpose of chain breaking: every schedule that meets the chain-breaking dependences as well gets start times
      in cycle such that each operation's incoming delay fits into the cycle. */
  lemma CycleTimeIsMet(prob: Problem, cycleTime: real, startTime: map<nat, nat>)
    requires prob.WellFormed() && prob.CheckChaining() && prob.Verify(startTime)
    requires InTopologicalOrder(prob) && NeverLowers(prob, cycleTime)
    requires forall op :: 0 <= op < prob.Size() ==> prob.Incoming(op) <= cycleTime
    requires var (broken, ok) :=
               Drive(prob, BreakChains(cycleTime), State(map[], map[], map[], {}), AllOperations(prob));
             RespectsBreaks(prob, startTime, broken.breaks)
    ensures var (st, ok) := Drive(prob, StartInCycle, State(startTime, map[], map[], {}), AllOperations(prob));
            && ok && prob.VerifyChaining(startTime, st.inCycle)
            && forall op :: 0 <= op < prob.Size() ==> st.inCycle[op] + prob.Incoming(op) <= cycleTime
  {
    DriveIsBreakRun(prob, cycleTime);
    InCycleTimesAreCorrect(prob, startTime);
    TopologicalOrderIsAcyclic(prob);
    var (st, ok) := Drive(prob, StartInCycle, State(startTime, map[], map[], {}), AllOperations(prob));
    forall op | 0 <= op < prob.Size() ensures st.inCycle[op] + prob.Incoming(op) <= cycleTime {
      var u := ChainAccounts(prob, cycleTime, st, op);
      AccountedFits(prob, cycleTime, st, op, u);
    }
  }
}
