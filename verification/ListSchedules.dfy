/** List scheduling: limited operations are fixed one after the other, each where there is a free instance first. */
module ListSchedules {
  import opened Options
  import opened Problems

  function LimitOf(prob: Problem, op: nat): nat
    requires prob.Check() && op < prob.Size()
  {
    prob.TypeOf(op).limit.ValueOr(0)
  }

  /** How many of the first `n` operations are fixed to time step `time` on operator type `opr`. */
  function FixedUsers(prob: Problem, frozen: map<nat, nat>, opr: nat, time: nat, n: nat): nat
    requires n <= prob.Size()
  {
    if n == 0 then 0
    else FixedUsers(prob, frozen, opr, time, n - 1)
         + (if n - 1 in frozen && prob.linked[n - 1] == Some(opr) && frozen[n - 1] == time then 1 else 0)
  }

  /** Start times, and for equal ones the order of registration. */
  predicate Before(times: map<nat, nat>, v: nat, w: nat)
    requires v in times && w in times
  {
    times[v] < times[w] || (times[v] == times[w] && v < w)
  }

  ghost predicate IsOrdered(times: map<nat, nat>, ops: seq<nat>) {
    && (forall i :: 0 <= i < |ops| ==> ops[i] in times)
    && forall i, j :: 0 <= i < j < |ops| ==> Before(times, ops[i], ops[j])
  }

  /** No limit but zero is exceeded. */
  ghost predicate PositiveLimitsKept(prob: Problem, startTime: map<nat, nat>)
    requires prob.Check() && prob.Started(startTime)
  {
    forall opr :: 0 <= opr < |prob.operatorTypes| && prob.operatorTypes[opr].limit != Some(0) ==>
      prob.WithinLimit(opr, startTime)
  }

  // ---------------------------------------------------------------------------------------------
  // Fixing operations
  // ---------------------------------------------------------------------------------------------

  ghost predicate Agrees(startTime: map<nat, nat>, frozen: map<nat, nat>) {
    forall v :: v in frozen ==> v in startTime && startTime[v] == frozen[v]
  }

  ghost predicate SameStarts(prob: Problem, a: map<nat, nat>, b: map<nat, nat>) {
    prob.Started(a) && prob.Started(b) && forall op :: 0 <= op < prob.Size() ==> a[op] == b[op]
  }

  /** Of all schedules with the fixed start times, one in which the last operation starts as early as possible. */
  ghost predicate IsPartial(prob: Problem, lastOp: nat, frozen: map<nat, nat>, partial: map<nat, nat>)
    requires prob.WellFormed() && prob.Check() && lastOp < prob.Size()
  {
    && prob.Verify(partial) && Agrees(partial, frozen)
    && forall other :: prob.Verify(other) && Agrees(other, frozen) ==> partial[lastOp] <= other[lastOp]
  }

  /** The first time step from `start` on at which fewer operations of the type are fixed than its limit allows: at each
      time step before, as many are fixed as it allows. */
  ghost predicate IsFirstFree(prob: Problem, frozen: map<nat, nat>, op: nat, start: nat, time: nat)
    requires prob.Check() && op < prob.Size()
  {
    var opr, limit := prob.linked[op].value, LimitOf(prob, op);
    && start <= time && FixedUsers(prob, frozen, opr, time, prob.Size()) < limit
    && forall t: nat :: start <= t < time ==> FixedUsers(prob, frozen, opr, t, prob.Size()) == limit
  }

  /** An operation is fixed when it starts in `partial` at `partial[op]`. */
  datatype Fixing = Fixing(op: nat, time: nat, partial: map<nat, nat>)

  /** Among the schedules that keep what has been fixed, `partial` is optimal; the operation is fixed at the first free
      time step; and if that is where it was, no operation moves. */
  ghost predicate IsFixing(prob: Problem, lastOp: nat, frozen: map<nat, nat>, fixing: Fixing, next: map<nat, nat>)
    requires prob.WellFormed() && prob.Check() && lastOp < prob.Size()
  {
    && fixing.op < prob.Size() && LimitOf(prob, fixing.op) > 0 && fixing.op !in frozen
    && IsPartial(prob, lastOp, frozen, fixing.partial)
    && IsFirstFree(prob, frozen, fixing.op, fixing.partial[fixing.op], fixing.time)
    && (fixing.time == fixing.partial[fixing.op] ==> SameStarts(prob, fixing.partial, next))
  }

  function Fixed(trace: seq<Fixing>): map<nat, nat> {
    if trace == [] then map[] else
      var last := trace[|trace| - 1];
      Fixed(trace[..|trace| - 1])[last.op := last.time]
  }

  /** The partial schedule before operation `i` is fixed; `current` is the one after all of them. */
  function PartialAt(trace: seq<Fixing>, current: map<nat, nat>, i: nat): map<nat, nat> {
    if i < |trace| then trace[i].partial else current
  }

  ghost predicate IsRun(prob: Problem, lastOp: nat, trace: seq<Fixing>, current: map<nat, nat>)
    requires prob.WellFormed() && prob.Check() && lastOp < prob.Size()
  {
    && IsPartial(prob, lastOp, Fixed(trace), current)
    && forall i: nat :: i < |trace| ==>
         IsFixing(prob, lastOp, Fixed(trace[..i]), trace[i], PartialAt(trace, current, i + 1))
  }

  function Ops(trace: seq<Fixing>): (ops: seq<nat>)
    ensures |ops| == |trace|
  {
    seq(|trace|, i requires 0 <= i < |trace| => trace[i].op)
  }

  /** Exactly the limited operations are fixed, in the order in which they start in the first partial schedule, which
      leaves the limits aside. */
  ghost predicate IsListSchedule(prob: Problem, lastOp: nat, trace: seq<Fixing>, startTime: map<nat, nat>)
    requires prob.WellFormed() && prob.Check() && lastOp < prob.Size()
  {
    && IsRun(prob, lastOp, trace, startTime)
    && IsOrdered(PartialAt(trace, startTime, 0), Ops(trace))
    && forall op: nat :: op in Ops(trace) <==> op < prob.Size() && LimitOf(prob, op) > 0
  }

  lemma FixedStep(trace: seq<Fixing>, fixing: Fixing)
    ensures Fixed(trace + [fixing]) == Fixed(trace)[fixing.op := fixing.time]
    ensures Ops(trace + [fixing]) == Ops(trace) + [fixing.op]
  {
    assert (trace + [fixing])[..|trace|] == trace;
  }

  lemma StillFixing(prob: Problem, lastOp: nat, trace: seq<Fixing>, fixing: Fixing, next: map<nat, nat>, i: nat)
    requires prob.WellFormed() && prob.Check() && lastOp < prob.Size() && i < |trace|
    requires IsFixing(prob, lastOp, Fixed(trace[..i]), trace[i], PartialAt(trace, fixing.partial, i + 1))
    ensures IsFixing(prob, lastOp, Fixed((trace + [fixing])[..i]), (trace + [fixing])[i],
                     PartialAt(trace + [fixing], next, i + 1))
  {
    assert (trace + [fixing])[..i] == trace[..i];
    assert PartialAt(trace + [fixing], next, i + 1) == PartialAt(trace, fixing.partial, i + 1);
  }

  lemma RunStep(prob: Problem, lastOp: nat, trace: seq<Fixing>, fixing: Fixing, next: map<nat, nat>)
    requires prob.WellFormed() && prob.Check() && lastOp < prob.Size()
    requires IsRun(prob, lastOp, trace, fixing.partial) && IsFixing(prob, lastOp, Fixed(trace), fixing, next)
    requires IsPartial(prob, lastOp, Fixed(trace)[fixing.op := fixing.time], next)
    ensures IsRun(prob, lastOp, trace + [fixing], next)
  {
    var trace' := trace + [fixing];
    FixedStep(trace, fixing);
    forall i: nat | i < |trace'|
      ensures IsFixing(prob, lastOp, Fixed(trace'[..i]), trace'[i], PartialAt(trace', next, i + 1))
    {
      if i < |trace| {
        StillFixing(prob, lastOp, trace, fixing, next, i);
      } else {
        assert trace'[..i] == trace && trace'[i] == fixing && PartialAt(trace', next, i + 1) == next;
      }
    }
  }

  lemma SameIsPartial(prob: Problem, lastOp: nat, frozen: map<nat, nat>, a: map<nat, nat>, b: map<nat, nat>)
    requires prob.WellFormed() && prob.Check() && lastOp < prob.Size() && IsPartial(prob, lastOp, frozen, a)
    requires SameStarts(prob, a, b) && prob.Verify(b) && forall v :: v in frozen ==> v < prob.Size()
    ensures IsPartial(prob, lastOp, frozen, b)
  {
  }

  lemma {:induction false} FixedInRange(prob: Problem, lastOp: nat, trace: seq<Fixing>, n: nat)
    requires prob.WellFormed() && prob.Check() && lastOp < prob.Size() && n <= |trace|
    requires forall i: nat :: i < n ==> trace[i].op < prob.Size()
    ensures forall v :: v in Fixed(trace[..n]) ==> v < prob.Size()
  {
    if n > 0 {
      FixedInRange(prob, lastOp, trace, n - 1);
      assert trace[..n][..n - 1] == trace[..n - 1];
    }
  }

  /** The run does not depend on how the last start times are represented. */
  lemma SameIsRun(prob: Problem, lastOp: nat, trace: seq<Fixing>, a: map<nat, nat>, b: map<nat, nat>)
    requires prob.WellFormed() && prob.Check() && lastOp < prob.Size() && IsRun(prob, lastOp, trace, a)
    requires SameStarts(prob, b, a) && prob.Verify(b)
    ensures IsRun(prob, lastOp, trace, b)
  {
    forall i: nat | i < |trace|
      ensures IsFixing(prob, lastOp, Fixed(trace[..i]), trace[i], PartialAt(trace, b, i + 1))
    {
      assert IsFixing(prob, lastOp, Fixed(trace[..i]), trace[i], PartialAt(trace, a, i + 1));
    }
    FixedInRange(prob, lastOp, trace, |trace|);
    assert trace[..|trace|] == trace;
    SameIsPartial(prob, lastOp, Fixed(trace), a, b);
  }

  /** The trace of fixing these operations, which leads from `base` to the current start times. */
  ghost predicate IsTrace(prob: Problem, lastOp: nat, trace: seq<Fixing>, current: map<nat, nat>, ops: seq<nat>,
                          base: map<nat, nat>, frozen: map<nat, nat>)
    requires prob.WellFormed() && prob.Check() && lastOp < prob.Size()
  {
    && IsRun(prob, lastOp, trace, current) && Fixed(trace) == frozen && Ops(trace) == ops
    && SameStarts(prob, base, PartialAt(trace, current, 0))
  }

  lemma NoTrace(prob: Problem, lastOp: nat, current: map<nat, nat>, base: map<nat, nat>)
    requires prob.WellFormed() && prob.Check() && lastOp < prob.Size()
    requires IsPartial(prob, lastOp, map[], current) && SameStarts(prob, base, current)
    ensures IsTrace(prob, lastOp, [], current, [], base, map[])
  {
  }

  lemma OpsStep(trace: seq<Fixing>, ops: seq<nat>, i: nat, fixing: Fixing, next: map<nat, nat>)
    requires i < |ops| && fixing.op == ops[i] && Ops(trace) == ops[..i]
    ensures Ops(trace + [fixing]) == ops[..i + 1]
    ensures PartialAt(trace + [fixing], next, 0) == PartialAt(trace, fixing.partial, 0)
  {
    FixedStep(trace, fixing);
  }

  lemma TraceStep(prob: Problem, lastOp: nat, trace: seq<Fixing>, ops: seq<nat>, i: nat, base: map<nat, nat>,
                  frozen: map<nat, nat>, fixing: Fixing, next: map<nat, nat>)
    requires prob.WellFormed() && prob.Check() && lastOp < prob.Size() && i < |ops| && fixing.op == ops[i]
    requires IsTrace(prob, lastOp, trace, fixing.partial, ops[..i], base, frozen)
    requires IsFixing(prob, lastOp, frozen, fixing, next)
    requires IsPartial(prob, lastOp, frozen[fixing.op := fixing.time], next)
    ensures IsTrace(prob, lastOp, trace + [fixing], next, ops[..i + 1], base, frozen[fixing.op := fixing.time])
  {
    RunStep(prob, lastOp, trace, fixing, next);
    FixedStep(trace, fixing);
    OpsStep(trace, ops, i, fixing, next);
  }

  lemma TraceIsListSchedule(prob: Problem, lastOp: nat, trace: seq<Fixing>, current: map<nat, nat>, ops: seq<nat>,
                            base: map<nat, nat>, frozen: map<nat, nat>, startTime: map<nat, nat>)
    requires prob.WellFormed() && prob.Check() && lastOp < prob.Size()
    requires IsTrace(prob, lastOp, trace, current, ops, base, frozen)
    requires SameStarts(prob, startTime, current) && prob.Verify(startTime) && IsOrdered(base, ops)
    requires forall op: nat :: op in ops <==> op < prob.Size() && LimitOf(prob, op) > 0
    ensures IsListSchedule(prob, lastOp, trace, startTime)
  {
    SameIsRun(prob, lastOp, trace, current, startTime);
    var first := PartialAt(trace, startTime, 0);
    forall i | 0 <= i < |ops| ensures ops[i] in first && first[ops[i]] == base[ops[i]] {
      assert ops[i] in ops;
    }
  }

  // ---------------------------------------------------------------------------------------------
  // When nothing is delayed
  // ---------------------------------------------------------------------------------------------

  lemma {:induction false} FixedAreUsers(prob: Problem, frozen: map<nat, nat>, startTime: map<nat, nat>, opr: nat,
                                         t: nat, n: nat)
    requires n <= prob.Size() && prob.Started(startTime) && Agrees(startTime, frozen)
    ensures FixedUsers(prob, frozen, opr, t, n) <= prob.Users(opr, startTime, t, n)
  {
    if n > 0 {
      FixedAreUsers(prob, frozen, startTime, opr, t, n - 1);
    }
  }

  /** An operation that is not fixed yet has its place in a schedule that keeps the limits. */
  lemma {:induction false} PlaceIsFree(prob: Problem, frozen: map<nat, nat>, startTime: map<nat, nat>, opr: nat,
                                       op: nat, n: nat)
    requires op < n <= prob.Size() && prob.Started(startTime) && Agrees(startTime, frozen)
    requires op !in frozen && prob.linked[op] == Some(opr)
    ensures FixedUsers(prob, frozen, opr, startTime[op], n) < prob.Users(opr, startTime, startTime[op], n)
  {
    if op < n - 1 {
      PlaceIsFree(prob, frozen, startTime, opr, op, n - 1);
    } else {
      FixedAreUsers(prob, frozen, startTime, opr, startTime[op], n - 1);
    }
  }

  lemma FixedWhereItStarts(prob: Problem, lastOp: nat, frozen: map<nat, nat>, fixing: Fixing, next: map<nat, nat>)
    requires prob.WellFormed() && prob.Check() && lastOp < prob.Size()
    requires IsFixing(prob, lastOp, frozen, fixing, next) && PositiveLimitsKept(prob, fixing.partial)
    ensures fixing.time == fixing.partial[fixing.op]
  {
    var op := fixing.op;
    var opr := prob.linked[op].value;
    PlaceIsFree(prob, frozen, fixing.partial, opr, op, prob.Size());
    assert prob.WithinLimit(opr, fixing.partial);
  }

  lemma SameLimits(prob: Problem, a: map<nat, nat>, b: map<nat, nat>)
    requires prob.Check() && SameStarts(prob, a, b) && PositiveLimitsKept(prob, a)
    ensures PositiveLimitsKept(prob, b)
  {
    forall opr, t: nat | 0 <= opr < |prob.operatorTypes| ensures prob.Users(opr, a, t, prob.Size())
                                                               == prob.Users(opr, b, t, prob.Size()) {
      SameUsers(prob, a, b, opr, t, prob.Size());
    }
    forall opr | 0 <= opr < |prob.operatorTypes| && prob.operatorTypes[opr].limit != Some(0)
      ensures prob.WithinLimit(opr, b)
    {
      assert prob.WithinLimit(opr, a);
    }
  }

  lemma {:induction false} SameUsers(prob: Problem, a: map<nat, nat>, b: map<nat, nat>, opr: nat, t: nat, n: nat)
    requires n <= prob.Size() && SameStarts(prob, a, b)
    ensures prob.Users(opr, a, t, n) == prob.Users(opr, b, t, n)
  {
    if n > 0 {
      SameUsers(prob, a, b, opr, t, n - 1);
    }
  }

  lemma {:induction false} NoneIsDelayed(prob: Problem, lastOp: nat, trace: seq<Fixing>, startTime: map<nat, nat>,
                                         i: nat)
    requires prob.WellFormed() && prob.Check() && lastOp < prob.Size() && IsRun(prob, lastOp, trace, startTime)
    requires i <= |trace| && prob.Started(PartialAt(trace, startTime, 0))
    requires PositiveLimitsKept(prob, PartialAt(trace, startTime, 0))
    ensures SameStarts(prob, PartialAt(trace, startTime, 0), PartialAt(trace, startTime, i))
  {
    if i > 0 {
      var base := PartialAt(trace, startTime, 0);
      NoneIsDelayed(prob, lastOp, trace, startTime, i - 1);
      assert PartialAt(trace, startTime, i - 1) == trace[i - 1].partial;
      SameLimits(prob, base, trace[i - 1].partial);
      assert IsFixing(prob, lastOp, Fixed(trace[..i - 1]), trace[i - 1], PartialAt(trace, startTime, (i - 1) + 1));
      FixedWhereItStarts(prob, lastOp, Fixed(trace[..i - 1]), trace[i - 1], PartialAt(trace, startTime, i));
    }
  }

  lemma FirstPartial(prob: Problem, lastOp: nat, trace: seq<Fixing>, startTime: map<nat, nat>)
    requires prob.WellFormed() && prob.Check() && lastOp < prob.Size() && IsRun(prob, lastOp, trace, startTime)
    ensures IsPartial(prob, lastOp, map[], PartialAt(trace, startTime, 0))
  {
    if trace != [] {
      assert IsFixing(prob, lastOp, Fixed(trace[..0]), trace[0], PartialAt(trace, startTime, 1));
    }
  }

  /** If the schedule without limits keeps them, no operation is delayed, and the last operation starts as early as in
      any schedule. */
  lemma NothingIsDelayed(prob: Problem, lastOp: nat, trace: seq<Fixing>, startTime: map<nat, nat>)
    requires prob.WellFormed() && prob.Check() && lastOp < prob.Size()
    requires IsListSchedule(prob, lastOp, trace, startTime) && prob.Started(PartialAt(trace, startTime, 0))
    requires PositiveLimitsKept(prob, PartialAt(trace, startTime, 0))
    ensures SameStarts(prob, PartialAt(trace, startTime, 0), startTime)
    ensures forall other :: prob.Verify(other) ==> startTime[lastOp] <= other[lastOp]
  {
    NoneIsDelayed(prob, lastOp, trace, startTime, |trace|);
    FirstPartial(prob, lastOp, trace, startTime);
    forall other | prob.Verify(other) ensures startTime[lastOp] <= other[lastOp] {
      assert Agrees(other, map[]);
    }
  }

  /** The operations that use a type. */
  function AllUsers(prob: Problem, opr: nat, n: nat): nat
    requires n <= prob.Size()
  {
    if n == 0 then 0 else AllUsers(prob, opr, n - 1) + (if prob.linked[n - 1] == Some(opr) then 1 else 0)
  }

  /** There are as many instances of each limited type as operations that use it. */
  predicate EnoughOperators(prob: Problem) {
    forall opr :: 0 <= opr < |prob.operatorTypes| && prob.operatorTypes[opr].limit.ValueOr(0) > 0 ==>
      AllUsers(prob, opr, prob.Size()) <= prob.operatorTypes[opr].limit.value
  }

  lemma {:induction false} UsersAtMostAll(prob: Problem, opr: nat, startTime: map<nat, nat>, t: nat, n: nat)
    requires n <= prob.Size() && prob.Started(startTime)
    ensures prob.Users(opr, startTime, t, n) <= AllUsers(prob, opr, n)
  {
    if n > 0 {
      UsersAtMostAll(prob, opr, startTime, t, n - 1);
    }
  }

  lemma EnoughForAll(prob: Problem, startTime: map<nat, nat>)
    requires prob.Check() && prob.Started(startTime) && EnoughOperators(prob)
    ensures PositiveLimitsKept(prob, startTime)
  {
    forall opr | 0 <= opr < |prob.operatorTypes| && prob.operatorTypes[opr].limit != Some(0)
      ensures prob.WithinLimit(opr, startTime)
    {
      forall t: nat | prob.operatorTypes[opr].limit.Some?
        ensures prob.Users(opr, startTime, t, prob.Size()) <= prob.operatorTypes[opr].limit.value
      {
        UsersAtMostAll(prob, opr, startTime, t, prob.Size());
      }
    }
  }

  /** With enough instances of every type, limits cost nothing. */
  lemma EnoughIsOptimal(prob: Problem, lastOp: nat, trace: seq<Fixing>, startTime: map<nat, nat>)
    requires prob.WellFormed() && prob.Check() && lastOp < prob.Size() && EnoughOperators(prob)
    requires IsListSchedule(prob, lastOp, trace, startTime)
    ensures prob.Verify(startTime) && forall other :: prob.Verify(other) ==> startTime[lastOp] <= other[lastOp]
  {
    FirstPartial(prob, lastOp, trace, startTime);
    EnoughForAll(prob, PartialAt(trace, startTime, 0));
    NothingIsDelayed(prob, lastOp, trace, startTime);
  }
}
