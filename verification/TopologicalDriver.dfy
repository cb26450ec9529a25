/** The driver and its handlers as they run, updating the start times and the chains of the problem in place. */
module TopologicalDriver {
  import opened Options
  import opened Problems
  import opened Topological
  import opened AsapTheory

  class Driver {
    const prob: Problem
    const handler: Handler
    var startTime: map<nat, nat>
    var inCycle: map<nat, real>
    var chains: map<nat, map<nat, real>>
    var breaks: set<(nat, nat)>

    function Current(): State
      reads this
    {
      State(startTime, inCycle, chains, breaks)
    }

    constructor (prob: Problem, handler: Handler, startTime: map<nat, nat>)
      ensures this.prob == prob && this.handler == handler
      ensures Current() == State(startTime, map[], map[], {})
    {
      this.prob, this.handler, this.startTime := prob, handler, startTime;
      inCycle, chains, breaks := map[], map[], {};
    }

    /** Starts `op` when the results of all its predecessors are available. */
    method HandleAsap(op: nat) returns (ok: bool)
      requires prob.WellFormed() && prob.Check() && op < prob.Size()
      modifies this`startTime
      ensures (Current(), ok) == AsapStep(prob, old(Current()), op)
    {
      if prob.dependences[op] == [] {
        startTime := startTime[op := 0];
        return true;
      }
      var time := 0;
      for k := 0 to |prob.dependences[op]|
        invariant LatestEnd(prob, startTime, op, k) == Some(time)
      {
        var pred := prob.dependences[op][k].src;
        if pred !in startTime {
          LatestEndKnown(prob, startTime, op, |prob.dependences[op]|);
          return false;
        }
        time := Max(time, startTime[pred] + prob.Latency(pred));
      }
      startTime := startTime[op := time];
      return true;
    }

    /** Starts `op` within its cycle when the values of all its predecessors have arrived there. */
    method HandleInCycle(op: nat) returns (ok: bool)
      requires prob.WellFormed() && prob.CheckChaining() && prob.Started(startTime) && op < prob.Size()
      modifies this`inCycle
      ensures (Current(), ok) == InCycleStep(prob, old(Current()), op)
    {
      var time := 0.0;
      for k := 0 to |prob.dependences[op]|
        invariant LatestArrival(prob, Current(), op, k) == Some(time)
      {
        var dep := prob.dependences[op][k];
        if dep.auxiliary {
          continue;
        }
        if dep.src !in inCycle {
          LatestArrivalKnown(prob, Current(), op, |prob.dependences[op]|);
          return false;
        }
        var predEnd := startTime[dep.src] + prob.Latency(dep.src);
        if predEnd < startTime[op] {
          continue;
        }
        var arrival := (if startTime[dep.src] == predEnd then inCycle[dep.src] else 0.0) + prob.Outgoing(dep.src);
        time := MaxReal(arrival, time);
      }
      inCycle := inCycle[op := time];
      return true;
    }

    /** Collects the chains incoming at `op`, and breaks those that do not fit into the cycle. */
    method HandleBreakChains(cycleTime: real, op: nat) returns (ok: bool)
      requires prob.WellFormed() && prob.CheckChaining() && op < prob.Size()
      modifies this`chains, this`breaks
      ensures (Current(), ok) == BreakStep(prob, cycleTime, old(Current()), op)
    {
      ghost var before := chains;
      var n := |prob.dependences[op]|;
      chains := chains[op := (if op in chains then chains[op] else map[])[op := 0.0]];
      for k := 0 to n
        invariant op in chains && chains == before[op := chains[op]] && breaks == old(breaks)
        invariant IncomingChains(prob, before, op, k) == (chains[op], true)
      {
        var dep := prob.dependences[op][k];
        if dep.auxiliary {
          continue;
        }
        if dep.src !in chains {
          assert IncomingChains(prob, before, op, k + 1) == (chains[op], false);
          StuckChains(prob, before, op, k + 1, n);
          return false;
        }
        if prob.Latency(dep.src) > 0 {
          var known: map<nat, real> := chains[op];
          known := known[dep.src := prob.Outgoing(dep.src)];
          chains := chains[op := known];
          continue;
        }
        ghost var known := chains[op];
        ExtendChains(dep.src, prob.Outgoing(dep.src), op);
        assert chains[op] == Extend(known, if dep.src == op then known else before[dep.src], prob.Outgoing(dep.src));
      }
      ghost var incoming := chains[op];
      SeparateChains(cycleTime, op);
      assert chains == before[op := Kept(prob, cycleTime, op, incoming)];
      return true;
    }

    /** Extends all chains of a combinational predecessor by it. */
    method ExtendChains(pred: nat, delay: real, op: nat)
      requires op in chains && pred in chains
      modifies this`chains
      ensures chains == old(chains)[op := Extend(old(chains)[op], old(chains)[pred], delay)]
    {
      ghost var known := chains[op];
      var incoming := chains[pred];
      var left := incoming.Keys;
      while left != {}
        invariant left <= incoming.Keys && op in chains && chains == old(chains)[op := chains[op]]
        invariant chains[op].Keys == known.Keys + (incoming.Keys - left)
        invariant forall u :: u in known && !(u in incoming && u !in left) ==> chains[op][u] == known[u]
        invariant forall u :: u in incoming && u !in left ==>
                    chains[op][u] == MaxReal(incoming[u] + delay, if u in known then known[u] else 0.0)
        decreases left
      {
        var origin :| origin in left;
        left := left - {origin};
        var old' := if origin in chains[op] then chains[op][origin] else 0.0;
        var extended: map<nat, real> := chains[op];
        extended := extended[origin := MaxReal(incoming[origin] + delay, old')];
        chains := chains[op := extended];
      }
      assert chains[op] == Extend(known, incoming, delay);
    }

    /** Separates the chains that `op` cannot be appended to. */
    method SeparateChains(cycleTime: real, op: nat)
      requires prob.WellFormed() && prob.CheckChaining() && op < prob.Size() && op in chains
      modifies this`chains, this`breaks
      ensures chains == old(chains)[op := Kept(prob, cycleTime, op, old(chains)[op])]
      ensures breaks == old(breaks) + NewBreaks(prob, cycleTime, op, old(chains)[op])
    {
      ghost var incoming := chains[op];
      var left := chains[op].Keys;
      while left != {}
        invariant left <= incoming.Keys && op in chains && chains == old(chains)[op := chains[op]]
        invariant chains[op].Keys ==
                  set u | u in incoming && (u in left || incoming[u] + prob.Incoming(op) <= cycleTime)
        invariant forall u :: u in chains[op] ==> chains[op][u] == incoming[u]
        invariant breaks == old(breaks) +
                    set u | u in incoming && u !in left && incoming[u] + prob.Incoming(op) > cycleTime :: (u, op)
        decreases left
      {
        var origin :| origin in left;
        left := left - {origin};
        if chains[op][origin] + prob.Incoming(op) > cycleTime {
          breaks := breaks + {(origin, op)};
          chains := chains[op := chains[op] - {origin}];
        }
      }
      assert chains[op] == Kept(prob, cycleTime, op, incoming);
    }

    method Handle(op: nat) returns (ok: bool)
      requires Suits(prob, handler, Current()) && op < prob.Size()
      modifies this
      ensures (Current(), ok) == Step(prob, handler, old(Current()), op)
    {
      match handler {
        case Asap => ok := HandleAsap(op);
        case BreakChains(cycleTime) => ok := HandleBreakChains(cycleTime, op);
        case StartInCycle => ok := HandleInCycle(op);
      }
    }

    /** Repeated attempts; an attempt that handles no operation means that the dependences are cyclic. */
    method HandleOperationsInTopologicalOrder() returns (ok: bool)
      requires Suits(prob, handler, Current())
      modifies this
      ensures (Current(), ok) == Drive(prob, handler, old(Current()), AllOperations(prob))
    {
      var unhandledOps := AllOperations(prob);
      while unhandledOps != []
        invariant Suits(prob, handler, Current()) && Registered(prob, unhandledOps)
        invariant Drive(prob, handler, Current(), unhandledOps)
               == Drive(prob, handler, old(Current()), AllOperations(prob))
        decreases |unhandledOps|
      {
        var numUnhandledBefore := |unhandledOps|;
        unhandledOps := AttemptAll(unhandledOps);
        if numUnhandledBefore == |unhandledOps| {
          return false;
        }
      }
      return true;
    }

    /** One attempt, popping a worklist that holds the operations in reverse. */
    method AttemptAll(ops: seq<nat>) returns (unhandledOps: seq<nat>)
      requires Suits(prob, handler, Current()) && Registered(prob, ops)
      modifies this
      ensures Suits(prob, handler, Current())
      ensures (Current(), unhandledOps) == Attempt(prob, handler, old(Current()), ops)
    {
      var worklist := Reversed(ops);
      unhandledOps := [];
      ReversedTwice(ops);
      assert unhandledOps + Attempt(prob, handler, Current(), ops).1 == Attempt(prob, handler, Current(), ops).1;
      while worklist != []
        invariant Suits(prob, handler, Current()) && Registered(prob, Reversed(worklist))
        invariant var (st, failed) := Attempt(prob, handler, Current(), Reversed(worklist));
                  (st, unhandledOps + failed) == Attempt(prob, handler, old(Current()), ops)
        decreases |worklist|
      {
        var op := worklist[|worklist| - 1];
        assert Reversed(worklist)[0] == op;
        assert Reversed(worklist)[1..] == Reversed(worklist[..|worklist| - 1]);
        worklist := worklist[..|worklist| - 1];
        var res := Handle(op);
        if !res {
          unhandledOps := unhandledOps + [op];
        }
        ghost var failed := Attempt(prob, handler, Current(), Reversed(worklist)).1;
        assert !res ==> unhandledOps + failed == unhandledOps[..|unhandledOps| - 1] + ([op] + failed);
      }
      assert unhandledOps + [] == unhandledOps;
    }
  }

  function Reversed(s: seq<nat>): (r: seq<nat>)
    ensures |r| == |s|
    ensures forall i :: 0 <= i < |s| ==> r[i] == s[|s| - 1 - i]
  {
    seq(|s|, i requires 0 <= i < |s| => s[|s| - 1 - i])
  }

  lemma ReversedTwice(s: seq<nat>)
    ensures Reversed(Reversed(s)) == s
  {
  }

  lemma {:induction false} StuckChains(prob: Problem, chains: map<nat, map<nat, real>>, op: nat, j: nat, k: nat)
    requires prob.WellFormed() && prob.CheckChaining() && op < prob.Size() && j <= k <= |prob.dependences[op]|
    requires !IncomingChains(prob, chains, op, j).1
    ensures IncomingChains(prob, chains, op, k) == IncomingChains(prob, chains, op, j)
  {
    if j < k {
      StuckChains(prob, chains, op, j, k - 1);
    }
  }

  /** `scheduleASAP`: the pointwise least schedule, or failure exactly on a dependence cycle. */
  method ScheduleAsap(prob: Problem) returns (startTime: map<nat, nat>, ok: bool)
    requires prob.WellFormed() && prob.Check()
    ensures ok <==> !HasCycle(prob, Asap)
    ensures ok ==> prob.Verify(startTime)
    ensures ok ==> forall other, op :: prob.Verify(other) && 0 <= op < prob.Size() ==> startTime[op] <= other[op]
  {
    var driver := new Driver(prob, Asap, map[]);
    ok := driver.HandleOperationsInTopologicalOrder();
    startTime := driver.startTime;
    AsapIsLeastSchedule(prob);
  }
}
