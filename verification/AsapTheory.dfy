/** ASAP start times are the pointwise least schedule, and fail exactly on a dependence cycle. */
module AsapTheory {
  import opened Options
  import opened Problems
  import opened Topological

  /** The operations started so far start after their predecessors. */
  ghost predicate StartsInOrder(prob: Problem, startTime: map<nat, nat>)
    requires prob.WellFormed() && prob.Check()
  {
    forall op :: op in startTime ==>
      op < prob.Size() &&
      forall k :: 0 <= k < |prob.dependences[op]| ==>
        prob.dependences[op][k].src in startTime && prob.Precedes(prob.dependences[op][k], startTime)
  }

  /** No schedule starts any operation earlier. */
  ghost predicate NoLaterThan(prob: Problem, startTime: map<nat, nat>, other: map<nat, nat>) {
    forall op :: op in startTime && op < prob.Size() && op in other ==> startTime[op] <= other[op]
  }

  lemma {:induction false} LatestEndIsBound(prob: Problem, startTime: map<nat, nat>, op: nat, k: nat)
    requires prob.WellFormed() && prob.Check() && op < prob.Size() && k <= |prob.dependences[op]|
    requires LatestEnd(prob, startTime, op, k).Some?
    ensures forall j :: 0 <= j < k ==>
              var pred := prob.dependences[op][j].src;
              pred in startTime && startTime[pred] + prob.Latency(pred) <= LatestEnd(prob, startTime, op, k).value
  {
    if k > 0 {
      LatestEndIsBound(prob, startTime, op, k - 1);
    }
  }

  lemma {:induction false} LatestEndIsLeast(prob: Problem, startTime: map<nat, nat>, other: map<nat, nat>, op: nat,
                                            k: nat)
    requires prob.WellFormed() && prob.Check() && op < prob.Size() && k <= |prob.dependences[op]|
    requires LatestEnd(prob, startTime, op, k).Some?
    requires prob.Verify(other) && NoLaterThan(prob, startTime, other)
    ensures LatestEnd(prob, startTime, op, k).value <= other[op]
  {
    if k > 0 {
      LatestEndIsLeast(prob, startTime, other, op, k - 1);
      var dep := prob.dependences[op][k - 1];
      assert prob.Precedes(dep, other) && dep.dst == op;
    }
  }

  lemma AsapStepKeepsOrder(prob: Problem, st: State, op: nat)
    requires prob.WellFormed() && prob.Check() && op < prob.Size()
    requires StartsInOrder(prob, st.startTime) && op !in st.startTime
    ensures StartsInOrder(prob, AsapStep(prob, st, op).0.startTime)
  {
    var n := |prob.dependences[op]|;
    if LatestEnd(prob, st.startTime, op, n).Some? {
      LatestEndIsBound(prob, st.startTime, op, n);
      var startTime' := AsapStep(prob, st, op).0.startTime;
      forall v | v in startTime'
        ensures v < prob.Size()
        ensures forall k :: 0 <= k < |prob.dependences[v]| ==>
                  prob.dependences[v][k].src in startTime' && prob.Precedes(prob.dependences[v][k], startTime')
      {
        forall k | 0 <= k < |prob.dependences[v]|
          ensures prob.dependences[v][k].src in startTime' && prob.Precedes(prob.dependences[v][k], startTime')
        {
          assert prob.dependences[v][k].src in st.startTime;
          assert v != op ==> prob.Precedes(prob.dependences[v][k], st.startTime);
        }
      }
    }
  }

  /** What an attempt keeps, for operations that have not been handled before. */
  lemma {:induction false} AttemptKeepsOrder(prob: Problem, st: State, ops: seq<nat>)
    requires Suits(prob, Asap, st) && Registered(prob, ops) && StartsInOrder(prob, st.startTime)
    requires Fresh(Asap, st, ops)
    ensures StartsInOrder(prob, Attempt(prob, Asap, st, ops).0.startTime)
    ensures Fresh(Asap, Attempt(prob, Asap, st, ops).0, Attempt(prob, Asap, st, ops).1)
    decreases |ops|
  {
    if ops != [] {
      AsapStepKeepsOrder(prob, st, ops[0]);
      StepIffReady(prob, Asap, st, ops[0]);
      var (st1, ok) := Step(prob, Asap, st, ops[0]);
      AttemptKeepsOrder(prob, st1, ops[1..]);
      AttemptFails(prob, Asap, st1, ops[1..], ops[0]);
    }
  }

  lemma {:induction false} AttemptKeepsLeast(prob: Problem, st: State, ops: seq<nat>, other: map<nat, nat>)
    requires Suits(prob, Asap, st) && Registered(prob, ops)
    requires prob.Verify(other) && NoLaterThan(prob, st.startTime, other)
    ensures NoLaterThan(prob, Attempt(prob, Asap, st, ops).0.startTime, other)
    decreases |ops|
  {
    if ops != [] {
      var n := |prob.dependences[ops[0]]|;
      if LatestEnd(prob, st.startTime, ops[0], n).Some? {
        LatestEndIsLeast(prob, st.startTime, other, ops[0], n);
      }
      AttemptKeepsLeast(prob, Step(prob, Asap, st, ops[0]).0, ops[1..], other);
    }
  }

  lemma {:induction false} DriveKeepsOrder(prob: Problem, st: State, ops: seq<nat>)
    requires Suits(prob, Asap, st) && Registered(prob, ops) && StartsInOrder(prob, st.startTime)
    requires Fresh(Asap, st, ops)
    ensures StartsInOrder(prob, Drive(prob, Asap, st, ops).0.startTime)
    decreases |ops|
  {
    if ops != [] {
      AttemptKeepsOrder(prob, st, ops);
      var (st1, failed) := Attempt(prob, Asap, st, ops);
      if |failed| != |ops| {
        DriveKeepsOrder(prob, st1, failed);
      }
    }
  }

  lemma {:induction false} DriveKeepsLeast(prob: Problem, st: State, ops: seq<nat>, other: map<nat, nat>)
    requires Suits(prob, Asap, st) && Registered(prob, ops)
    requires prob.Verify(other) && NoLaterThan(prob, st.startTime, other)
    ensures NoLaterThan(prob, Drive(prob, Asap, st, ops).0.startTime, other)
    decreases |ops|
  {
    if ops != [] {
      AttemptKeepsLeast(prob, st, ops, other);
      var (st1, failed) := Attempt(prob, Asap, st, ops);
      if |failed| != |ops| {
        DriveKeepsLeast(prob, st1, failed, other);
      }
    }
  }

  /** ASAP succeeds exactly on acyclic problems; its start times are correct, and no schedule is earlier anywhere. */
  lemma AsapIsLeastSchedule(prob: Problem)
    requires prob.WellFormed() && prob.Check()
    ensures var (st, ok) := Drive(prob, Asap, State(map[], map[], map[], {}), AllOperations(prob));
      && (ok <==> !HasCycle(prob, Asap))
      && (ok ==> prob.Verify(st.startTime))
      && (ok ==> forall other, op :: prob.Verify(other) && 0 <= op < prob.Size() ==> st.startTime[op] <= other[op])
  {
    var st0 := State(map[], map[], map[], {});
    var (st, ok) := Drive(prob, Asap, st0, AllOperations(prob));
    DriveIffAcyclic(prob, Asap, st0);
    DriveKeepsOrder(prob, st0, AllOperations(prob));
    if ok {
      forall op | 0 <= op < prob.Size() ensures op in st.startTime {
        assert op in Handled(Asap, st);
      }
    }
    forall other | prob.Verify(other) ensures NoLaterThan(prob, st.startTime, other) {
      DriveKeepsLeast(prob, st0, AllOperations(prob), other);
    }
  }

  /** Where the simplex scheduler succeeds on an acyclic problem, it starts the last operation when ASAP does. */
  lemma AsapAgreesOnLastOp(prob: Problem, lastOp: nat, best: map<nat, nat>)
    requires prob.WellFormed() && prob.Check() && lastOp < prob.Size() && !HasCycle(prob, Asap)
    requires prob.Verify(best) && forall other :: prob.Verify(other) ==> best[lastOp] <= other[lastOp]
    ensures var (st, ok) := Drive(prob, Asap, State(map[], map[], map[], {}), AllOperations(prob));
            ok && lastOp in st.startTime && best[lastOp] == st.startTime[lastOp]
  {
    AsapIsLeastSchedule(prob);
  }
}
