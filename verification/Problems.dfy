/** Scheduling problems, and the checks that define when a solution is correct. */
module Problems {
  import opened Options

  /** A dependence between operations; auxiliary dependences carry no value. */
  datatype Dependence = Dependence(src: nat, dst: nat, auxiliary: bool, distance: Option<nat>)

  datatype OperatorType = OperatorType(
    latency: Option<nat>, limit: Option<nat>, incomingDelay: Option<real>, outgoingDelay: Option<real>)

  /** Operation i is linked to operator type `linked[i]`, and `dependences[i]` lists its incoming dependences. */
  datatype Problem = Problem(linked: seq<Option<nat>>, operatorTypes: seq<OperatorType>,
                             dependences: seq<seq<Dependence>>)
  {
    function Size(): nat { |linked| }

    /** The iteration over dependences only yields those between registered operations. */
    ghost predicate WellFormed() {
      && |dependences| == Size()
      && forall op, k :: 0 <= op < Size() && 0 <= k < |dependences[op]| ==>
           dependences[op][k].dst == op && dependences[op][k].src < Size()
    }

    // -------------------------------------------------------------------------------------------
    // Input checks
    // -------------------------------------------------------------------------------------------

    predicate Check() {
      && (forall op :: 0 <= op < Size() ==> linked[op].Some? && linked[op].value < |operatorTypes|)
      && (forall opr :: 0 <= opr < |operatorTypes| ==> operatorTypes[opr].latency.Some?)
    }

    predicate CheckShared() {
      && Check()
      && forall opr :: 0 <= opr < |operatorTypes| ==>
           !(operatorTypes[opr].limit.ValueOr(0) > 0 && operatorTypes[opr].latency.value == 0)
    }

    predicate CheckDelays(opr: nat)
      requires opr < |operatorTypes| && operatorTypes[opr].latency.Some?
    {
      var ot := operatorTypes[opr];
      && ot.incomingDelay.Some? && ot.outgoingDelay.Some?
      && ot.incomingDelay.value >= 0.0 && ot.outgoingDelay.value >= 0.0
      && !(ot.latency.value == 0 && ot.incomingDelay.value != ot.outgoingDelay.value)
    }

    predicate CheckChaining() {
      Check() && forall opr :: 0 <= opr < |operatorTypes| ==> CheckDelays(opr)
    }

    function TypeOf(op: nat): (ot: OperatorType)
      requires Check() && op < Size()
      ensures ot.latency.Some?
    {
      operatorTypes[linked[op].value]
    }

    function Latency(op: nat): nat
      requires Check() && op < Size()
    {
      TypeOf(op).latency.value
    }

    // -------------------------------------------------------------------------------------------
    // Verification of solutions
    // -------------------------------------------------------------------------------------------

    predicate Started(startTime: map<nat, nat>) {
      forall op :: 0 <= op < Size() ==> op in startTime
    }

    predicate Precedes(dep: Dependence, startTime: map<nat, nat>)
      requires WellFormed() && Check() && dep.src < Size() && dep.src in startTime && dep.dst in startTime
    {
      startTime[dep.src] + Latency(dep.src) <= startTime[dep.dst]
    }

    ghost predicate Verify(startTime: map<nat, nat>)
      requires WellFormed() && Check()
    {
      && Started(startTime)
      && forall op, k :: 0 <= op < Size() && 0 <= k < |dependences[op]| ==> Precedes(dependences[op][k], startTime)
    }

    predicate PrecedesCyclic(dep: Dependence, startTime: map<nat, nat>, ii: nat)
      requires WellFormed() && Check() && dep.src < Size() && dep.src in startTime && dep.dst in startTime
    {
      startTime[dep.src] + Latency(dep.src) <= startTime[dep.dst] + dep.distance.ValueOr(0) * ii
    }

    ghost predicate VerifyCyclic(startTime: map<nat, nat>, ii: nat)
      requires WellFormed() && Check()
    {
      && ii != 0
      && Started(startTime)
      && forall op, k :: 0 <= op < Size() && 0 <= k < |dependences[op]| ==>
           PrecedesCyclic(dependences[op][k], startTime, ii)
    }

    /** How many of the first `n` operations use the operator type and are in class `cls` of the key function. */
    function Users(opr: nat, key: map<nat, nat>, cls: nat, n: nat): nat
      requires n <= Size() && forall op :: 0 <= op < n ==> op in key
    {
      if n == 0 then 0
      else Users(opr, key, cls, n - 1) + (if linked[n - 1] == Some(opr) && key[n - 1] == cls then 1 else 0)
    }

    /** No class is used by more operations than the operator type has instances. */
    ghost predicate WithinLimit(opr: nat, key: map<nat, nat>)
      requires opr < |operatorTypes| && Started(key)
    {
      operatorTypes[opr].limit.Some? ==>
        forall cls: nat :: Users(opr, key, cls, Size()) <= operatorTypes[opr].limit.value
    }

    ghost predicate VerifyShared(startTime: map<nat, nat>)
      requires WellFormed() && Check()
    {
      && Verify(startTime)
      && forall opr :: 0 <= opr < |operatorTypes| ==> WithinLimit(opr, startTime)
    }

    /** The congruence classes of the start times. */
    function Congruence(startTime: map<nat, nat>, ii: nat): (key: map<nat, nat>)
      requires ii > 0
    {
      map op | op in startTime :: startTime[op] % ii
    }

    ghost predicate VerifyModulo(startTime: map<nat, nat>, ii: nat)
      requires WellFormed() && Check()
    {
      && VerifyCyclic(startTime, ii)
      && forall opr :: 0 <= opr < |operatorTypes| ==> WithinLimit(opr, Congruence(startTime, ii))
    }

    /** The counting loop that both resource constrained problems verify utilization with. */
    method VerifyUtilization(opr: nat, key: map<nat, nat>) returns (ok: bool)
      requires Check() && opr < |operatorTypes| && Started(key)
      ensures ok <==> WithinLimit(opr, key)
    {
      var limit := operatorTypes[opr].limit;
      if limit.None? {
        return true;
      }
      var count: map<nat, nat> := map[];
      for op := 0 to Size()
        invariant forall cls: nat :: Users(opr, key, cls, op) == if cls in count then count[cls] else 0
      {
        if Some(opr) == linked[op] {
          var cls := key[op];
          count := count[cls := (if cls in count then count[cls] else 0) + 1];
        }
      }
      ok := forall cls :: cls in count ==> count[cls] <= limit.value;
      if ok {
        forall cls: nat ensures Users(opr, key, cls, Size()) <= limit.value {}
      } else {
        var cls :| cls in count && count[cls] > limit.value;
        assert Users(opr, key, cls, Size()) > limit.value;
      }
    }

    // -------------------------------------------------------------------------------------------
    // Chaining
    // -------------------------------------------------------------------------------------------

    function Incoming(op: nat): (delay: real)
      requires CheckChaining() && op < Size()
      ensures delay >= 0.0
    {
      assert CheckDelays(linked[op].value);
      TypeOf(op).incomingDelay.value
    }

    function Outgoing(op: nat): (delay: real)
      requires CheckChaining() && op < Size()
      ensures delay >= 0.0 && (Latency(op) == 0 ==> delay == Incoming(op))
    {
      assert CheckDelays(linked[op].value);
      TypeOf(op).outgoingDelay.value
    }

    predicate PrecedesInCycle(dep: Dependence, startTime: map<nat, nat>, inCycle: map<nat, real>)
      requires WellFormed() && CheckChaining() && dep.src < Size() && dep.src in startTime && dep.dst in startTime
      requires dep.src in inCycle && dep.dst in inCycle
    {
      || dep.auxiliary
      || startTime[dep.src] + Latency(dep.src) < startTime[dep.dst]
      || (if Latency(dep.src) == 0 then inCycle[dep.src] else 0.0) + Outgoing(dep.src) <= inCycle[dep.dst]
    }

    ghost predicate VerifyChaining(startTime: map<nat, nat>, inCycle: map<nat, real>)
      requires WellFormed() && CheckChaining()
    {
      && Verify(startTime)
      && (forall op :: 0 <= op < Size() ==> op in inCycle && inCycle[op] >= 0.0)
      && forall op, k :: 0 <= op < Size() && 0 <= k < |dependences[op]| ==>
           PrecedesInCycle(dependences[op][k], startTime, inCycle)
    }
  }
}
