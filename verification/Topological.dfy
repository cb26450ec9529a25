/** The driver that handles operations in topological order, and the three handlers that it is used with. */
module Topological {
  // These are ASAP start times, chain-breaking dependences, and start times in cycle; the values here specify the
  // class of the driver in TopologicalDriver. A handler reports failure for an operation whose predecessors have not
  // been handled yet, and the driver tries that operation again in the next round.

  import opened Options
  import opened Problems

  datatype Handler = Asap | BreakChains(cycleTime: real) | StartInCycle

  /** What the handlers write: `chains[v][u]` is the delay incoming at v of the combinational chain from u, and
      `breaks` holds the chain-breaking dependences. */
  datatype State = State(startTime: map<nat, nat>, inCycle: map<nat, real>, chains: map<nat, map<nat, real>>,
                         breaks: set<(nat, nat)>)

  function Max(a: nat, b: nat): nat { if a < b then b else a }

  function MaxReal(a: real, b: real): real { if a < b then b else a }

  // ---------------------------------------------------------------------------------------------
  // ASAP
  // ---------------------------------------------------------------------------------------------

  /** When the results of the first `k` predecessors are available, if these have been scheduled. */
  function LatestEnd(prob: Problem, startTime: map<nat, nat>, op: nat, k: nat): Option<nat>
    requires prob.WellFormed() && prob.Check() && op < prob.Size() && k <= |prob.dependences[op]|
  {
    if k == 0 then Some(0) else
      var pred := prob.dependences[op][k - 1].src;
      var before := LatestEnd(prob, startTime, op, k - 1);
      if before.None? || pred !in startTime then None
      else Some(Max(before.value, startTime[pred] + prob.Latency(pred)))
  }

  function AsapStep(prob: Problem, st: State, op: nat): (State, bool)
    requires prob.WellFormed() && prob.Check() && op < prob.Size()
  {
    match LatestEnd(prob, st.startTime, op, |prob.dependences[op]|)
    case None => (st, false)
    case Some(time) => (st.(startTime := st.startTime[op := time]), true)
  }

  // ---------------------------------------------------------------------------------------------
  // Start times in cycle
  // ---------------------------------------------------------------------------------------------

  /** When a predecessor that ends in the cycle in which `op` starts provides its value. */
  function ArrivalInCycle(prob: Problem, st: State, pred: nat): real
    requires prob.WellFormed() && prob.CheckChaining() && pred < prob.Size() && pred in st.inCycle
  {
    (if prob.Latency(pred) == 0 then st.inCycle[pred] else 0.0) + prob.Outgoing(pred)
  }

  /** When the values of the first `k` predecessors have arrived in the cycle in which `op` starts. */
  function LatestArrival(prob: Problem, st: State, op: nat, k: nat): Option<real>
    requires prob.WellFormed() && prob.CheckChaining() && prob.Started(st.startTime)
    requires op < prob.Size() && k <= |prob.dependences[op]|
  {
    if k == 0 then Some(0.0) else
      var dep := prob.dependences[op][k - 1];
      var before := LatestArrival(prob, st, op, k - 1);
      if before.None? || dep.auxiliary then before
      else if dep.src !in st.inCycle then None
      else if st.startTime[dep.src] + prob.Latency(dep.src) < st.startTime[op] then before
      else Some(MaxReal(ArrivalInCycle(prob, st, dep.src), before.value))
  }

  function InCycleStep(prob: Problem, st: State, op: nat): (State, bool)
    requires prob.WellFormed() && prob.CheckChaining() && prob.Started(st.startTime) && op < prob.Size()
  {
    match LatestArrival(prob, st, op, |prob.dependences[op]|)
    case None => (st, false)
    case Some(time) => (st.(inCycle := st.inCycle[op := time]), true)
  }

  // ---------------------------------------------------------------------------------------------
  // Chain breaking
  // ---------------------------------------------------------------------------------------------

  /** The chains incoming at a combinational predecessor, extended by its delay, on top of the known chains. */
  function Extend(known: map<nat, real>, incoming: map<nat, real>, delay: real): map<nat, real> {
    map u | u in known.Keys + incoming.Keys ::
      if u in incoming then MaxReal(incoming[u] + delay, if u in known then known[u] else 0.0) else known[u]
  }

  /** The chains at `op` after its first `k` predecessors, and whether these have all been handled. The operation is
      marked as the origin of its own chain in any case, and a multi-cycle predecessor overwrites. */
  function IncomingChains(prob: Problem, chains: map<nat, map<nat, real>>, op: nat, k: nat): (map<nat, real>, bool)
    requires prob.WellFormed() && prob.CheckChaining() && op < prob.Size() && k <= |prob.dependences[op]|
  {
    if k == 0 then ((if op in chains then chains[op] else map[])[op := 0.0], true) else
      var dep := prob.dependences[op][k - 1];
      var (known, ok) := IncomingChains(prob, chains, op, k - 1);
      if !ok || dep.auxiliary then (known, ok)
      else if dep.src != op && dep.src !in chains then (known, false)
      else if prob.Latency(dep.src) > 0 then (known[dep.src := prob.Outgoing(dep.src)], true)
      else (Extend(known, if dep.src == op then known else chains[dep.src], prob.Outgoing(dep.src)), true)
  }

  /** The chains that `op` may be appended to within the cycle time. */
  function Kept(prob: Problem, cycleTime: real, op: nat, incoming: map<nat, real>): map<nat, real>
    requires prob.WellFormed() && prob.CheckChaining() && op < prob.Size()
  {
    map u | u in incoming && incoming[u] + prob.Incoming(op) <= cycleTime :: incoming[u]
  }

  function NewBreaks(prob: Problem, cycleTime: real, op: nat, incoming: map<nat, real>): set<(nat, nat)>
    requires prob.WellFormed() && prob.CheckChaining() && op < prob.Size()
  {
    set u | u in incoming && incoming[u] + prob.Incoming(op) > cycleTime :: (u, op)
  }

  function BreakStep(prob: Problem, cycleTime: real, st: State, op: nat): (State, bool)
    requires prob.WellFormed() && prob.CheckChaining() && op < prob.Size()
  {
    var (incoming, ok) := IncomingChains(prob, st.chains, op, |prob.dependences[op]|);
    if !ok then (st.(chains := st.chains[op := incoming]), false)
    else (st.(chains := st.chains[op := Kept(prob, cycleTime, op, incoming)],
              breaks := st.breaks + NewBreaks(prob, cycleTime, op, incoming)), true)
  }

  // ---------------------------------------------------------------------------------------------
  // The driver
  // ---------------------------------------------------------------------------------------------

  ghost predicate Suits(prob: Problem, h: Handler, st: State) {
    && prob.WellFormed() && prob.Check()
    && (!h.Asap? ==> prob.CheckChaining())
    && (h.StartInCycle? ==> prob.Started(st.startTime))
  }

  function Step(prob: Problem, h: Handler, st: State, op: nat): (r: (State, bool))
    requires Suits(prob, h, st) && op < prob.Size()
    ensures Suits(prob, h, r.0)
  {
    match h
    case Asap => AsapStep(prob, st, op)
    case BreakChains(cycleTime) => BreakStep(prob, cycleTime, st, op)
    case StartInCycle => InCycleStep(prob, st, op)
  }

  ghost predicate Registered(prob: Problem, ops: seq<nat>) {
    forall i :: 0 <= i < |ops| ==> ops[i] < prob.Size()
  }

  /** One attempt: the operations are handled in order, and the failing ones are collected. */
  function Attempt(prob: Problem, h: Handler, st: State, ops: seq<nat>): (r: (State, seq<nat>))
    requires Suits(prob, h, st) && Registered(prob, ops)
    ensures Suits(prob, h, r.0) && Registered(prob, r.1) && |r.1| <= |ops|
    decreases |ops|
  {
    if ops == [] then (st, []) else
      var (st1, ok) := Step(prob, h, st, ops[0]);
      var (st2, failed) := Attempt(prob, h, st1, ops[1..]);
      (st2, if ok then failed else [ops[0]] + failed)
  }

  /** Attempts until all operations are handled, or an attempt handles none. */
  function Drive(prob: Problem, h: Handler, st: State, ops: seq<nat>): (r: (State, bool))
    requires Suits(prob, h, st) && Registered(prob, ops)
    ensures Suits(prob, h, r.0)
    decreases |ops|
  {
    if ops == [] then (st, true) else
      var (st1, failed) := Attempt(prob, h, st, ops);
      if |failed| == |ops| then (st1, false) else Drive(prob, h, st1, failed)
  }

  function AllOperations(prob: Problem): (ops: seq<nat>)
    ensures |ops| == prob.Size() && forall i :: 0 <= i < |ops| ==> ops[i] == i
  {
    seq(prob.Size(), i => i)
  }

  // ---------------------------------------------------------------------------------------------
  // Readiness
  // ---------------------------------------------------------------------------------------------

  function Handled(h: Handler, st: State): set<nat> {
    match h
    case Asap => st.startTime.Keys
    case BreakChains(_) => st.chains.Keys
    case StartInCycle => st.inCycle.Keys
  }

  /** Whether the handler has to wait for the source of the dependence. */
  predicate Waits(h: Handler, dep: Dependence) {
    h.Asap? || !dep.auxiliary
  }

  ghost predicate IsReady(prob: Problem, h: Handler, st: State, op: nat)
    requires prob.WellFormed() && op < prob.Size()
  {
    forall k :: 0 <= k < |prob.dependences[op]| && Waits(h, prob.dependences[op][k]) ==>
      prob.dependences[op][k].src in Handled(h, st)
  }

  lemma {:induction false} LatestEndKnown(prob: Problem, startTime: map<nat, nat>, op: nat, k: nat)
    requires prob.WellFormed() && prob.Check() && op < prob.Size() && k <= |prob.dependences[op]|
    ensures LatestEnd(prob, startTime, op, k).Some? <==>
              forall j :: 0 <= j < k ==> prob.dependences[op][j].src in startTime
  {
    if k > 0 {
      LatestEndKnown(prob, startTime, op, k - 1);
    }
  }

  lemma {:induction false} LatestArrivalKnown(prob: Problem, st: State, op: nat, k: nat)
    requires prob.WellFormed() && prob.CheckChaining() && prob.Started(st.startTime)
    requires op < prob.Size() && k <= |prob.dependences[op]|
    ensures LatestArrival(prob, st, op, k).Some? <==>
              forall j :: 0 <= j < k && !prob.dependences[op][j].auxiliary ==>
                prob.dependences[op][j].src in st.inCycle
  {
    if k > 0 {
      LatestArrivalKnown(prob, st, op, k - 1);
    }
  }

  /** The two handlers that compute start times succeed exactly on the operations that are ready. */
  lemma StepIffReady(prob: Problem, h: Handler, st: State, op: nat)
    requires Suits(prob, h, st) && op < prob.Size() && !h.BreakChains?
    ensures Step(prob, h, st, op).1 <==> IsReady(prob, h, st, op)
    ensures Step(prob, h, st, op).1 ==> Handled(h, Step(prob, h, st, op).0) == Handled(h, st) + {op}
    ensures !Step(prob, h, st, op).1 ==> Step(prob, h, st, op).0 == st
  {
    if h.Asap? {
      LatestEndKnown(prob, st.startTime, op, |prob.dependences[op]|);
    } else {
      LatestArrivalKnown(prob, st, op, |prob.dependences[op]|);
    }
  }

  // ---------------------------------------------------------------------------------------------
  // Success means that there is no cycle
  // ---------------------------------------------------------------------------------------------

  /** A closed walk along the dependences that the handler waits for. */
  ghost predicate IsCycle(prob: Problem, h: Handler, walk: seq<nat>)
    requires prob.WellFormed()
  {
    && |walk| >= 2 && walk[0] == walk[|walk| - 1]
    && (forall i :: 0 <= i < |walk| ==> walk[i] < prob.Size())
    && forall i :: 0 < i < |walk| ==> DependsOn(prob, h, walk[i], walk[i - 1])
  }

  ghost predicate DependsOn(prob: Problem, h: Handler, op: nat, pred: nat)
    requires prob.WellFormed()
  {
    op < prob.Size() &&
    exists k ::
      0 <= k < |prob.dependences[op]| && Waits(h, prob.dependences[op][k]) && prob.dependences[op][k].src == pred
  }

  ghost predicate WaitsFor(prob: Problem, h: Handler, op: nat, preds: seq<nat>)
    requires prob.WellFormed()
  {
    exists pred :: pred in preds && DependsOn(prob, h, op, pred)
  }

  ghost predicate HasCycle(prob: Problem, h: Handler)
    requires prob.WellFormed()
  {
    exists walk :: IsCycle(prob, h, walk)
  }

  lemma {:induction false} AttemptHandles(prob: Problem, h: Handler, st: State, ops: seq<nat>)
    requires Suits(prob, h, st) && Registered(prob, ops) && !h.BreakChains?
    ensures var (st', failed) := Attempt(prob, h, st, ops);
      && Handled(h, st) <= Handled(h, st')
      && (forall op :: op in ops ==> op in Handled(h, st') || op in failed)
      && (forall op :: op in failed ==> op in ops)
      && (|failed| == |ops| ==> st' == st && forall op :: op in ops ==> !IsReady(prob, h, st, op))
    decreases |ops|
  {
    if ops != [] {
      var (st1, ok) := Step(prob, h, st, ops[0]);
      StepIffReady(prob, h, st, ops[0]);
      AttemptHandles(prob, h, st1, ops[1..]);
      assert ops == [ops[0]] + ops[1..];
    }
  }

  /** None of the operations has been handled, and none occurs twice. */
  ghost predicate Fresh(h: Handler, st: State, ops: seq<nat>) {
    && (forall i :: 0 <= i < |ops| ==> ops[i] !in Handled(h, st))
    && forall i, j :: 0 <= i < j < |ops| ==> ops[i] != ops[j]
  }

  /** An operation that is not attempted stays unhandled. */
  lemma {:induction false} AttemptFails(prob: Problem, h: Handler, st: State, ops: seq<nat>, op: nat)
    requires Suits(prob, h, st) && Registered(prob, ops) && !h.BreakChains? && op !in ops
    ensures op in Handled(h, Attempt(prob, h, st, ops).0) ==> op in Handled(h, st)
    ensures op !in Attempt(prob, h, st, ops).1
    decreases |ops|
  {
    if ops != [] {
      StepIffReady(prob, h, st, ops[0]);
      AttemptFails(prob, h, Step(prob, h, st, ops[0]).0, ops[1..], op);
    }
  }

  /** No operation of a cycle gets handled: the first one would have had to wait for another one. */
  lemma {:induction false} CycleStaysUnhandled(prob: Problem, h: Handler, st: State, ops: seq<nat>, walk: seq<nat>)
    requires Suits(prob, h, st) && Registered(prob, ops) && !h.BreakChains? && IsCycle(prob, h, walk)
    requires forall i :: 0 <= i < |walk| ==> walk[i] !in Handled(h, st)
    ensures forall i :: 0 <= i < |walk| ==> walk[i] !in Handled(h, Attempt(prob, h, st, ops).0)
    decreases |ops|
  {
    if ops != [] {
      var (st1, ok) := Step(prob, h, st, ops[0]);
      StepIffReady(prob, h, st, ops[0]);
      if ops[0] in walk {
        var i :| 0 <= i < |walk| && walk[i] == ops[0];
        var j := if i == 0 then |walk| - 1 else i;
        assert DependsOn(prob, h, walk[j], walk[j - 1]);
      }
      CycleStaysUnhandled(prob, h, st1, ops[1..], walk);
    }
  }

  lemma {:induction false} CycleIsNotDriven(prob: Problem, h: Handler, st: State, ops: seq<nat>, walk: seq<nat>)
    requires Suits(prob, h, st) && Registered(prob, ops) && !h.BreakChains? && IsCycle(prob, h, walk)
    requires forall i :: 0 <= i < |walk| ==> walk[i] !in Handled(h, st) && walk[i] in ops
    ensures !Drive(prob, h, st, ops).1
    decreases |ops|
  {
    assert walk[0] in ops;
    var (st1, failed) := Attempt(prob, h, st, ops);
    AttemptHandles(prob, h, st, ops);
    CycleStaysUnhandled(prob, h, st, ops, walk);
    if |failed| != |ops| {
      CycleIsNotDriven(prob, h, st1, failed, walk);
    }
  }

  /** If the driver gives up, the operations that are left all wait for one another. */
  lemma {:induction false} StuckWhenFailing(prob: Problem, h: Handler, st: State, ops: seq<nat>)
    returns (stuck: seq<nat>)
    requires Suits(prob, h, st) && Registered(prob, ops) && !h.BreakChains?
    requires forall op :: 0 <= op < prob.Size() ==> op in Handled(h, st) || op in ops
    ensures Drive(prob, h, st, ops).1 ==>
              forall op :: 0 <= op < prob.Size() ==> op in Handled(h, Drive(prob, h, st, ops).0)
    ensures !Drive(prob, h, st, ops).1 ==>
              && stuck != [] && Registered(prob, stuck)
              && forall op {:trigger WaitsFor(prob, h, op, stuck)} :: op in stuck ==> WaitsFor(prob, h, op, stuck)
    decreases |ops|
  {
    stuck := ops;
    if ops != [] {
      var (st1, failed) := Attempt(prob, h, st, ops);
      AttemptHandles(prob, h, st, ops);
      if |failed| == |ops| {
        forall op | op in stuck ensures WaitsFor(prob, h, op, stuck) {
          assert !IsReady(prob, h, st, op);
          var k :| 0 <= k < |prob.dependences[op]| && Waits(h, prob.dependences[op][k])
            && prob.dependences[op][k].src !in Handled(h, st);
          assert DependsOn(prob, h, op, prob.dependences[op][k].src);
        }
      } else {
        stuck := StuckWhenFailing(prob, h, st1, failed);
      }
    }
  }

  /** Walking back from predecessor to predecessor within a set that never runs out. */
  lemma {:induction false} BackwardWalk(prob: Problem, h: Handler, stuck: seq<nat>, length: nat)
    returns (walk: seq<nat>)
    requires prob.WellFormed() && stuck != [] && Registered(prob, stuck)
    requires forall op {:trigger WaitsFor(prob, h, op, stuck)} :: op in stuck ==> WaitsFor(prob, h, op, stuck)
    ensures |walk| == length + 1
    ensures forall i :: 0 <= i < |walk| ==> walk[i] in stuck
    ensures forall i :: 0 < i < |walk| ==> DependsOn(prob, h, walk[i], walk[i - 1])
  {
    if length == 0 {
      walk := [stuck[0]];
    } else {
      var rest := BackwardWalk(prob, h, stuck, length - 1);
      assert WaitsFor(prob, h, rest[0], stuck);
      var pred :| pred in stuck && DependsOn(prob, h, rest[0], pred);
      walk := [pred] + rest;
      forall i | 0 < i < |walk| ensures DependsOn(prob, h, walk[i], walk[i - 1]) {
        if i > 1 {
          assert DependsOn(prob, h, rest[i - 1], rest[i - 2]);
        }
      }
    }
  }

  lemma {:induction false} DistinctIsShort(s: seq<nat>, n: nat)
    requires forall i :: 0 <= i < |s| ==> s[i] < n
    requires forall i, j :: 0 <= i < j < |s| ==> s[i] != s[j]
    ensures |s| <= n
  {
    if s != [] {
      var first := s[0];
      if n - 1 in s {
        var i :| 0 <= i < |s| && s[i] == n - 1;
        DistinctIsShort(s[..i] + s[i + 1..], n - 1);
      } else if n > 0 {
        DistinctIsShort(s, n - 1);
      }
    }
  }

  lemma LongWalkHasCycle(prob: Problem, h: Handler, walk: seq<nat>)
    requires prob.WellFormed() && Registered(prob, walk) && |walk| > prob.Size()
    requires forall i :: 0 < i < |walk| ==> DependsOn(prob, h, walk[i], walk[i - 1])
    ensures HasCycle(prob, h)
  {
    if forall i, j :: 0 <= i < j < |walk| ==> walk[i] != walk[j] {
      DistinctIsShort(walk, prob.Size());
      assert false;
    }
    var i, j :| 0 <= i < j < |walk| && walk[i] == walk[j];
    assert IsCycle(prob, h, walk[i..j + 1]);
  }

  /** The driver succeeds exactly if the dependences are acyclic, and has then handled every operation. */
  lemma DriveIffAcyclic(prob: Problem, h: Handler, st: State)
    requires Suits(prob, h, st) && !h.BreakChains? && Handled(h, st) == {}
    ensures var (st', ok) := Drive(prob, h, st, AllOperations(prob));
      && (ok <==> !HasCycle(prob, h))
      && (ok ==> forall op :: 0 <= op < prob.Size() ==> op in Handled(h, st'))
  {
    var ops := AllOperations(prob);
    forall op | 0 <= op < prob.Size() ensures op in ops {
      assert ops[op] == op;
    }
    var stuck := StuckWhenFailing(prob, h, st, ops);
    if !Drive(prob, h, st, ops).1 {
      var walk := BackwardWalk(prob, h, stuck, prob.Size());
      LongWalkHasCycle(prob, h, walk);
    }
    forall walk | IsCycle(prob, h, walk) ensures !Drive(prob, h, st, ops).1 {
      CycleIsNotDriven(prob, h, st, ops, walk);
    }
  }

  // ---------------------------------------------------------------------------------------------
  // The chain-breaking handler never makes the driver fail
  // ---------------------------------------------------------------------------------------------

  lemma {:induction false} ChainsKnownIff(prob: Problem, chains: map<nat, map<nat, real>>, op: nat, k: nat)
    requires prob.WellFormed() && prob.CheckChaining() && op < prob.Size() && k <= |prob.dependences[op]|
    ensures IncomingChains(prob, chains, op, k).1 <==>
              forall j :: 0 <= j < k && !prob.dependences[op][j].auxiliary ==>
                prob.dependences[op][j].src == op || prob.dependences[op][j].src in chains
  {
    if k > 0 {
      ChainsKnownIff(prob, chains, op, k - 1);
    }
  }

  /** The handler marks its operation even if it fails, and succeeds if all other operations are marked. */
  lemma BreakStepMarks(prob: Problem, h: Handler, st: State, op: nat)
    requires Suits(prob, h, st) && h.BreakChains? && op < prob.Size()
    ensures Handled(h, Step(prob, h, st, op).0) == Handled(h, st) + {op}
    ensures (forall v: nat :: v < prob.Size() && v != op ==> v in Handled(h, st)) ==> Step(prob, h, st, op).1
  {
    ChainsKnownIff(prob, st.chains, op, |prob.dependences[op]|);
  }

  ghost predicate MarkedOrLeft(prob: Problem, h: Handler, st: State, ops: seq<nat>) {
    forall v: nat :: v < prob.Size() ==> v in Handled(h, st) || v in ops
  }

  /** An attempt marks all its operations. If the others have been marked before, the last operation does not fail, and
      if all have been marked before, none fails. */
  lemma {:induction false} AttemptMarks(prob: Problem, h: Handler, st: State, ops: seq<nat>)
    requires Suits(prob, h, st) && Registered(prob, ops) && h.BreakChains? && MarkedOrLeft(prob, h, st, ops)
    ensures MarkedOrLeft(prob, h, Attempt(prob, h, st, ops).0, [])
    ensures ops != [] ==> |Attempt(prob, h, st, ops).1| < |ops|
    ensures MarkedOrLeft(prob, h, st, []) ==> Attempt(prob, h, st, ops).1 == []
    decreases |ops|
  {
    if ops != [] {
      var (st1, ok) := Step(prob, h, st, ops[0]);
      BreakStepMarks(prob, h, st, ops[0]);
      assert ops == [ops[0]] + ops[1..];
      AttemptMarks(prob, h, st1, ops[1..]);
    }
  }

  lemma MarkedAreHandled(prob: Problem, h: Handler, st: State, ops: seq<nat>)
    requires Suits(prob, h, st) && Registered(prob, ops) && h.BreakChains? && MarkedOrLeft(prob, h, st, [])
    ensures Drive(prob, h, st, ops).1
  {
    if ops != [] {
      AttemptMarks(prob, h, st, ops);
    }
  }

  /** The pass that computes chain-breaking dependences never reports a cycle: the first attempt marks every operation,
      and handles the last one; the second attempt handles the rest. */
  lemma BreakingNeverFails(prob: Problem, cycleTime: real)
    requires prob.WellFormed() && prob.CheckChaining()
    ensures Drive(prob, BreakChains(cycleTime), State(map[], map[], map[], {}), AllOperations(prob)).1
  {
    var h, st, ops := BreakChains(cycleTime), State(map[], map[], map[], {}), AllOperations(prob);
    forall v: nat | v < prob.Size() ensures v in ops {
      assert ops[v] == v;
    }
    if ops != [] {
      AttemptMarks(prob, h, st, ops);
      var (st1, failed) := Attempt(prob, h, st, ops);
      MarkedAreHandled(prob, h, st1, failed);
    }
  }

  /** So its answer is right if and only if no values are passed around in a cycle. */
  lemma BreakingIsRightIffAcyclic(prob: Problem, cycleTime: real)
    requires prob.WellFormed() && prob.CheckChaining()
    ensures var ok := Drive(prob, BreakChains(cycleTime), State(map[], map[], map[], {}), AllOperations(prob)).1;
            (ok <==> !HasCycle(prob, StartInCycle)) <==> !HasCycle(prob, StartInCycle)
  {
    BreakingNeverFails(prob, cycleTime);
  }
}
