/** The shared-operators scheduler. */
module SharedOperators {
  // Limited operations are fixed one after the other, each at the first time step from its current start time at
  // which its operator type has a free instance.

  import opened Options
  import opened Vectors
  import opened Tableaus
  import opened LinearProgram
  import opened Schedules
  import opened SimplexTheory
  import opened InitialTableau
  import opened Freezing
  import opened SimplexBase
  import opened SimplexSchedulers
  import opened Problems
  import opened ListSchedules
  import opened Unbounded

  // ---------------------------------------------------------------------------------------------
  // Delaying an operation with its descendants
  // ---------------------------------------------------------------------------------------------

  ghost predicate HasArc(sys: System, v: nat, w: nat) {
    exists d :: 0 <= d < |sys.cons| && sys.cons[d].src == v && sys.cons[d].dst == w
  }

  ghost predicate IsPath(sys: System, path: seq<nat>) {
    path != [] && forall i :: 0 < i < |path| ==> HasArc(sys, path[i - 1], path[i])
  }

  ghost predicate Descends(sys: System, op: nat, v: nat) {
    exists path :: IsPath(sys, path) && path[0] == op && path[|path| - 1] == v
  }

  lemma DescendsStep(sys: System, op: nat, v: nat, w: nat)
    requires Descends(sys, op, v) && HasArc(sys, v, w)
    ensures Descends(sys, op, w)
  {
    var path :| IsPath(sys, path) && path[0] == op && path[|path| - 1] == v;
    var longer := path + [w];
    forall i | 0 < i < |longer| ensures HasArc(sys, longer[i - 1], longer[i]) {
      if i < |path| {
        assert HasArc(sys, path[i - 1], path[i]);
      }
    }
    assert IsPath(sys, longer);
  }

  /** Latencies are not negative, and those of `op` are positive. */
  ghost predicate DelaysSuccessors(sys: System, op: nat) {
    forall d :: 0 <= d < |sys.cons| ==> sys.cons[d].latency >= (if sys.cons[d].src == op then 1 else 0)
  }

  /** In every schedule, proper descendants start later. */
  lemma {:induction false} PathStartsLater(sys: System, times: seq<int>, path: seq<nat>, i: nat)
    requires sys.Valid() && IsSchedule(sys, times, 0) && IsPath(sys, path) && i < |path|
    requires DelaysSuccessors(sys, path[0]) && path[0] < sys.n
    ensures path[i] < sys.n && times[path[i]] >= times[path[0]] + (if i > 0 then 1 else 0)
  {
    if i > 0 {
      PathStartsLater(sys, times, path, i - 1);
      assert HasArc(sys, path[i - 1], path[i]);
      var d :| 0 <= d < |sys.cons| && sys.cons[d].src == path[i - 1] && sys.cons[d].dst == path[i];
      assert Meets(sys.cons[d], times, 0);
    }
  }

  ghost function Delayed(sys: System, times: seq<int>, op: nat, amount: int): (delayed: seq<int>)
    requires |times| == sys.n
    ensures |delayed| == sys.n
  {
    seq(sys.n, v requires 0 <= v < sys.n => if Descends(sys, op, v) then times[v] + amount else times[v])
  }

  /** An operation can be delayed by any amount, if it comes after all frozen operations in some schedule. */
  lemma DelayedIsSchedule(sys: System, times: seq<int>, base: seq<int>, frozen: map<nat, nat>, op: nat, amount: nat)
    requires sys.Valid() && op < sys.n && DelaysSuccessors(sys, op)
    requires IsSchedule(sys, times, 0) && Respects(times, frozen) && op !in frozen
    requires IsSchedule(sys, base, 0) && forall v :: v in frozen ==> base[v] <= base[op]
    ensures var delayed := Delayed(sys, times, op, amount);
            IsSchedule(sys, delayed, 0) && Respects(delayed, frozen) && delayed[op] == times[op] + amount
  {
    var delayed := Delayed(sys, times, op, amount);
    forall d | 0 <= d < |sys.cons| ensures Meets(sys.cons[d], delayed, 0) {
      assert Meets(sys.cons[d], times, 0);
      assert HasArc(sys, sys.cons[d].src, sys.cons[d].dst);
      if Descends(sys, op, sys.cons[d].src) {
        DescendsStep(sys, op, sys.cons[d].src, sys.cons[d].dst);
      }
    }
    forall v | v in frozen ensures v < |delayed| && delayed[v] == frozen[v] {
      if Descends(sys, op, v) {
        var path :| IsPath(sys, path) && path[0] == op && path[|path| - 1] == v;
        PathStartsLater(sys, base, path, |path| - 1);
      }
    }
    assert IsPath(sys, [op]) && [op][0] == op;
    assert Descends(sys, op, op);
  }

  // ---------------------------------------------------------------------------------------------
  // Limited operations, in order of their start times
  // ---------------------------------------------------------------------------------------------

  lemma InsertedInOrder(times: map<nat, nat>, ops: seq<nat>, op: nat, i: nat, inserted: seq<nat>)
    requires IsOrdered(times, ops) && i <= |ops| && op in times && (forall v <- ops :: v < op)
    requires i > 0 ==> times[ops[i - 1]] <= times[op]
    requires forall j :: i <= j < |ops| ==> times[op] < times[ops[j]]
    requires inserted == ops[..i] + [op] + ops[i..]
    ensures IsOrdered(times, inserted) && forall v: nat :: v in inserted <==> v in ops || v == op
  {
    forall j | 0 <= j < |ops| ensures if j < i then Before(times, ops[j], op) else Before(times, op, ops[j]) {
      assert ops[j] in ops;
      if j < i - 1 {
        assert Before(times, ops[j], ops[i - 1]);
      }
    }
    forall v: nat ensures v in inserted <==> v in ops || v == op {
      if v in ops {
        var j :| 0 <= j < |ops| && ops[j] == v;
        assert inserted[if j < i then j else j + 1] == v;
      }
      if v == op {
        assert inserted[i] == v;
      }
    }
  }

  /** Inserting the operations in the order of registration, each behind those that start at the same time. */
  method SortedByStartTime(prob: Problem, times: map<nat, nat>) returns (ops: seq<nat>)
    requires prob.Check() && prob.Started(times)
    ensures IsOrdered(times, ops)
    ensures forall op: nat :: op in ops <==> op < prob.Size() && LimitOf(prob, op) > 0
  {
    ops := [];
    for op := 0 to prob.Size()
      invariant IsOrdered(times, ops)
      invariant forall v: nat :: v in ops <==> v < op && LimitOf(prob, v) > 0
    {
      if LimitOf(prob, op) > 0 {
        var i := |ops|;
        while i > 0 && times[op] < times[ops[i - 1]]
          invariant 0 <= i <= |ops|
          invariant forall j :: i <= j < |ops| ==> times[op] < times[ops[j]]
        {
          i := i - 1;
        }
        assert forall v <- ops :: v < op;
        ghost var before := ops;
        ops := ops[..i] + [op] + ops[i..];
        InsertedInOrder(times, before, op, i, ops);
      }
    }
  }

  // ---------------------------------------------------------------------------------------------
  // The reservation table
  // ---------------------------------------------------------------------------------------------

  type Reservations = map<nat, map<nat, nat>>

  function Lookup(table: Reservations, opr: nat, time: nat): nat {
    if opr in table && time in table[opr] then table[opr][time] else 0
  }

  lemma {:induction false} FixingCounts(prob: Problem, frozen: map<nat, nat>, op: nat, time: nat, opr: nat, t: nat,
                                        n: nat)
    requires n <= prob.Size() && op < prob.Size() && op !in frozen
    ensures FixedUsers(prob, frozen[op := time], opr, t, n)
         == FixedUsers(prob, frozen, opr, t, n)
            + (if op < n && prob.linked[op] == Some(opr) && t == time then 1 else 0)
  {
    if n > 0 {
      FixingCounts(prob, frozen, op, time, opr, t, n - 1);
    }
  }

  lemma {:induction false} NothingFixed(prob: Problem, opr: nat, t: nat, n: nat)
    requires n <= prob.Size()
    ensures FixedUsers(prob, map[], opr, t, n) == 0
  {
    if n > 0 {
      NothingFixed(prob, opr, t, n - 1);
    }
  }

  /** Once all users of an operator type are fixed, the fixed users are the users. */
  lemma {:induction false} AllFixed(prob: Problem, frozen: map<nat, nat>, startTime: map<nat, nat>, opr: nat, t: nat,
                                    n: nat)
    requires n <= prob.Size() && prob.Started(startTime)
    requires forall op :: 0 <= op < prob.Size() && prob.linked[op] == Some(opr) ==>
               op in frozen && startTime[op] == frozen[op]
    ensures prob.Users(opr, startTime, t, n) == FixedUsers(prob, frozen, opr, t, n)
  {
    if n > 0 {
      AllFixed(prob, frozen, startTime, opr, t, n - 1);
    }
  }

  ghost predicate Reserves(prob: Problem, frozen: map<nat, nat>, table: Reservations) {
    forall opr: nat, time: nat :: Lookup(table, opr, time) == FixedUsers(prob, frozen, opr, time, prob.Size())
  }

  ghost predicate FitsLimits(prob: Problem, frozen: map<nat, nat>)
    requires prob.Check()
  {
    forall opr, time: nat :: 0 <= opr < |prob.operatorTypes| && prob.operatorTypes[opr].limit.ValueOr(0) > 0 ==>
      FixedUsers(prob, frozen, opr, time, prob.Size()) <= prob.operatorTypes[opr].limit.value
  }

  /** The first time step from `time` on with a free instance. */
  method FirstFree(table: Reservations, opr: nat, limit: nat, time: nat) returns (candTime: nat)
    requires limit > 0
    ensures candTime >= time && Lookup(table, opr, candTime) != limit
    ensures forall t: nat :: time <= t < candTime ==> Lookup(table, opr, t) == limit
  {
    candTime := time;
    ghost var row := if opr in table then table[opr].Keys else {};
    while Lookup(table, opr, candTime) == limit
      invariant candTime >= time
      invariant forall t: nat :: time <= t < candTime ==> Lookup(table, opr, t) == limit
      decreases set t | t in row && t >= candTime
    {
      ghost var later := set t | t in row && t >= candTime;
      assert candTime in later;
      candTime := candTime + 1;
      assert candTime - 1 !in set t | t in row && t >= candTime;
    }
  }

  /** Reserving a free instance for an operation that is fixed. */
  lemma ReservationIsKept(prob: Problem, frozen: map<nat, nat>, table: Reservations, op: nat, time: nat,
                          table': Reservations)
    requires prob.Check() && op < prob.Size() && op !in frozen && LimitOf(prob, op) > 0
    requires Reserves(prob, frozen, table) && FitsLimits(prob, frozen)
    requires Lookup(table, prob.linked[op].value, time) != LimitOf(prob, op)
    requires forall opr: nat, t: nat :: Lookup(table', opr, t) ==
               Lookup(table, opr, t) + (if opr == prob.linked[op].value && t == time then 1 else 0)
    ensures Reserves(prob, frozen[op := time], table') && FitsLimits(prob, frozen[op := time])
  {
    var n := prob.Size();
    forall opr: nat, t: nat
      ensures FixedUsers(prob, frozen[op := time], opr, t, n) ==
              FixedUsers(prob, frozen, opr, t, n) + (if opr == prob.linked[op].value && t == time then 1 else 0)
    {
      FixingCounts(prob, frozen, op, time, opr, t, n);
    }
    var opr := prob.linked[op].value;
    assert Lookup(table, opr, time) == FixedUsers(prob, frozen, opr, time, n);
    assert FixedUsers(prob, frozen, opr, time, n) <= prob.operatorTypes[opr].limit.value;
  }

  // ---------------------------------------------------------------------------------------------
  // The scheduler
  // ---------------------------------------------------------------------------------------------

  /** What holds whenever an operation has been fixed: the tableau is optimal, and no slot is oversubscribed. */
  ghost predicate Progress(prob: Problem, lastOp: nat, sched: SimplexSchedulerBase, table: Reservations)
    requires prob.WellFormed() && prob.Check()
    reads sched
  {
    && IsOptimal(prob, lastOp, sched)
    && Reserves(prob, sched.frozenVariables, table) && FitsLimits(prob, sched.frozenVariables)
  }

  /** Start times as a map. */
  ghost function Partial(times: seq<int>): map<nat, nat> {
    map op: nat | op < |times| :: if times[op] < 0 then 0 else times[op]
  }

  /** The start times that the solver holds. */
  ghost function Current(sched: SimplexSchedulerBase): (times: seq<int>)
    requires sched.Tab().Shape()
    reads sched
    ensures |times| == sched.sys.n
  {
    StartTimes(sched.Tab(), sched.frozenVariables, sched.U(), sched.sys.n)
  }

  lemma PartialIs(prob: Problem, times: seq<int>, startTime: map<nat, nat>)
    requires prob.Started(startTime) && times == Times(prob, startTime)
    ensures SameStarts(prob, startTime, Partial(times))
  {
    forall op | 0 <= op < prob.Size() ensures startTime[op] == Partial(times)[op] {
      assert times[op] == startTime[op];
    }
  }

  lemma TimesOfPartial(prob: Problem, times: seq<int>)
    requires |times| == prob.Size() && forall op :: 0 <= op < |times| ==> times[op] >= 0
    ensures prob.Started(Partial(times)) && Times(prob, Partial(times)) == times
  {
  }

  lemma WeightsAreNonNegative(n: nat, objectives: seq<set<nat>>)
    ensures NonNegativeWeights(AllWeights(n, objectives))
  {
  }

  lemma OptimalAmong(lastOp: nat, t: Tableau, sys: System, frozen: map<nat, nat>, times: seq<int>, others: seq<int>)
    requires lastOp < sys.n && Represents(t, sys) && Measures(t, sys, AllWeights(sys.n, [{lastOp}]))
    requires DualFeasible(t, frozen.Keys) && ShiftsFreeze(sys, frozen, Params(1, 0, 0))
    requires forall v :: v in frozen ==> v in t.nonBasic
    requires times == StartTimes(t, frozen, Params(1, 0, 0), sys.n)
    requires IsSchedule(sys, others, 0) && Respects(others, frozen)
    ensures times[lastOp] <= others[lastOp]
  {
    StartTimesAreOptimal(t, sys, AllWeights(sys.n, [{lastOp}]), frozen, 0, 0, others);
    LastOpCost(sys.n, lastOp, others);
    LastOpCost(sys.n, lastOp, times);
    LexLessOne(others[lastOp], times[lastOp]);
  }

  lemma LexLessOne(a: int, b: int)
    ensures LexLess([a], [b]) <==> a < b
  {
  }

  /** An optimal tableau holds a partial schedule of the list scheduler. */
  lemma OptimalIsPartial(prob: Problem, lastOp: nat, t: Tableau, sys: System, frozen: map<nat, nat>, times: seq<int>)
    requires prob.WellFormed() && prob.Check() && lastOp < prob.Size()
    requires Represents(t, sys) && Measures(t, sys, AllWeights(prob.Size(), [{lastOp}]))
    requires ShiftsFreeze(sys, frozen, Params(1, 0, 0)) && DualFeasible(t, frozen.Keys)
    requires sys.n == prob.Size() && sys.cons == Constraints(prob, false)
    requires forall v :: v in frozen ==> v in t.nonBasic
    requires times == StartTimes(t, frozen, Params(1, 0, 0), sys.n)
    requires IsSchedule(sys, times, 0) && Respects(times, frozen)
    ensures IsPartial(prob, lastOp, frozen, Partial(times))
  {
    TimesOfPartial(prob, times);
    VerifyIffSchedule(prob, sys, Partial(times), 0);
    forall other | prob.Verify(other) && Agrees(other, frozen) ensures Partial(times)[lastOp] <= other[lastOp] {
      OthersAreSchedules(prob, sys, frozen, other);
      OptimalAmong(lastOp, t, sys, frozen, times, Times(prob, other));
    }
  }

  lemma OthersAreSchedules(prob: Problem, sys: System, frozen: map<nat, nat>, other: map<nat, nat>)
    requires prob.WellFormed() && prob.Check() && sys.Valid()
    requires sys.n == prob.Size() && sys.cons == Constraints(prob, false)
    requires prob.Verify(other) && Agrees(other, frozen) && forall v :: v in frozen ==> v < sys.n
    ensures IsSchedule(sys, Times(prob, other), 0) && Respects(Times(prob, other), frozen)
  {
    VerifyIffSchedule(prob, sys, other, 0);
  }

  lemma CurrentIsSchedule(t: Tableau, sys: System, frozen: map<nat, nat>, times: seq<int>)
    requires Represents(t, sys) && PrimalFeasible(t, Params(1, 0, 0)) && IsSettled(sys, frozen)
    requires forall v :: v in frozen ==> v < sys.n && v in t.nonBasic
    requires times == StartTimes(t, frozen, Params(1, 0, 0), sys.n)
    ensures ShiftsFreeze(sys, frozen, Params(1, 0, 0)) && IsSchedule(sys, times, 0) && Respects(times, frozen)
  {
    SettledFreezes(sys, frozen, 0);
    StartTimesAreSchedule(t, sys, frozen, 0, 0);
  }

  lemma CurrentIsPartial(prob: Problem, lastOp: nat, sched: SimplexSchedulerBase)
    requires prob.WellFormed() && prob.Check() && lastOp < prob.Size() && IsOptimal(prob, lastOp, sched)
    ensures IsPartial(prob, lastOp, sched.frozenVariables, Partial(Current(sched)))
    ensures IsSchedule(sched.sys, Current(sched), 0) && Respects(Current(sched), sched.frozenVariables)
  {
    CurrentIsSchedule(sched.Tab(), sched.sys, sched.frozenVariables, Current(sched));
    OptimalIsPartial(prob, lastOp, sched.Tab(), sched.sys, sched.frozenVariables, Current(sched));
  }

  lemma LimitedDelaysSuccessors(prob: Problem, sys: System, op: nat)
    requires prob.WellFormed() && prob.CheckShared() && op < prob.Size() && LimitOf(prob, op) > 0
    requires sys.n == prob.Size() && sys.cons == Constraints(prob, false)
    ensures DelaysSuccessors(sys, op)
  {
    forall d: nat | d < |sys.cons| ensures sys.cons[d].latency >= (if sys.cons[d].src == op then 1 else 0) {
      var v, k := ConstraintsAreDependences(prob, prob.Size(), false, d);
      assert prob.linked[op].value < |prob.operatorTypes|;
    }
  }

  /** The source's assertion that fixing an operation cannot make the problem infeasible. */
  lemma FixingStaysFeasible(prob: Problem, sys: System, frozen: map<nat, nat>, base: seq<int>, times: seq<int>,
                            op: nat, time: int)
    requires prob.WellFormed() && prob.CheckShared() && op < prob.Size() && LimitOf(prob, op) > 0
    requires sys.Valid() && sys.n == prob.Size() && sys.cons == Constraints(prob, false) && op !in frozen
    requires IsSchedule(sys, base, 0) && forall v :: v in frozen ==> v < sys.n && base[v] <= base[op]
    requires IsSchedule(sys, times, 0) && Respects(times, frozen) && time >= times[op]
    ensures exists other :: IsSchedule(sys, other, 0) && Respects(other, frozen) && other[op] == time
  {
    LimitedDelaysSuccessors(prob, sys, op);
    DelayedIsSchedule(sys, times, base, frozen, op, time - times[op]);
  }

  lemma FirstFreeInTable(prob: Problem, frozen: map<nat, nat>, table: Reservations, op: nat, start: nat, time: nat)
    requires prob.Check() && op < prob.Size() && LimitOf(prob, op) > 0
    requires Reserves(prob, frozen, table) && FitsLimits(prob, frozen) && time >= start
    requires Lookup(table, prob.linked[op].value, time) != LimitOf(prob, op)
    requires forall t: nat :: start <= t < time ==> Lookup(table, prob.linked[op].value, t) == LimitOf(prob, op)
    ensures IsFirstFree(prob, frozen, op, start, time)
  {
    var opr := prob.linked[op].value;
    assert Lookup(table, opr, time) == FixedUsers(prob, frozen, opr, time, prob.Size());
    forall t: nat | start <= t < time ensures FixedUsers(prob, frozen, opr, t, prob.Size()) == LimitOf(prob, op) {
      assert Lookup(table, opr, t) == LimitOf(prob, op);
    }
  }

  /** The first time step from the current start time on with a free instance; some schedule has the operation there. */
  method ChooseTime(prob: Problem, lastOp: nat, sched: SimplexSchedulerBase, op: nat, table: Reservations,
                    ghost base: seq<int>)
    returns (candTime: nat)
    requires prob.WellFormed() && prob.CheckShared() && lastOp < prob.Size()
    requires op < prob.Size() && LimitOf(prob, op) > 0
    requires Progress(prob, lastOp, sched, table) && op !in sched.frozenVariables
    requires IsSchedule(sched.sys, base, 0) && forall v :: v in sched.frozenVariables ==> base[v] <= base[op]
    ensures Lookup(table, prob.linked[op].value, candTime) != LimitOf(prob, op)
    ensures IsFirstFree(prob, sched.frozenVariables, op, Partial(Current(sched))[op], candTime)
    ensures exists other ::
              IsSchedule(sched.sys, other, 0) && Respects(other, sched.frozenVariables) && other[op] == candTime
  {
    CurrentIsPartial(prob, lastOp, sched);
    ghost var times := Current(sched);
    var startTime := sched.GetStartTime(op);
    assert startTime == times[op];
    candTime := FirstFree(table, prob.linked[op].value, LimitOf(prob, op), startTime);
    FirstFreeInTable(prob, sched.frozenVariables, table, op, startTime, candTime);
    FixingStaysFeasible(prob, sched.sys, sched.frozenVariables, base, times, op, candTime);
  }

  /** Fixes one operation at the first free time step. If that is where it starts, nothing moves. */
  method FixOperation(prob: Problem, lastOp: nat, sched: SimplexSchedulerBase, op: nat, table: Reservations,
                      ghost base: seq<int>, fuel: nat)
    returns (table': Reservations, outcome: Outcome, ghost fixing: Fixing)
    requires prob.WellFormed() && prob.CheckShared() && lastOp < prob.Size()
    requires op < prob.Size() && LimitOf(prob, op) > 0
    requires Progress(prob, lastOp, sched, table) && op !in sched.frozenVariables
    requires IsSchedule(sched.sys, base, 0) && forall v :: v in sched.frozenVariables ==> base[v] <= base[op]
    modifies sched
    ensures outcome.Solved? || outcome.OutOfFuel?
    ensures outcome.OutOfFuel? ==> RunsFor(prob.Size(), Constraints(prob, false), fuel)
    ensures outcome.Solved? ==> Progress(prob, lastOp, sched, table') && IsSchedule(sched.sys, base, 0)
    ensures fixing.op == op && fixing.partial == old(Partial(Current(sched)))
    ensures outcome.Solved? ==> sched.frozenVariables == old(sched.frozenVariables)[op := fixing.time]
    ensures outcome.Solved? ==>
              IsFixing(prob, lastOp, old(sched.frozenVariables), fixing, Partial(Current(sched)))
    ensures outcome.Solved? ==> IsPartial(prob, lastOp, sched.frozenVariables, Partial(Current(sched)))
  {
    CurrentIsPartial(prob, lastOp, sched);
    WeightsAreNonNegative(prob.Size(), [{lastOp}]);
    var candTime := ChooseTime(prob, lastOp, sched, op, table, base);
    ghost var frozen, partial := sched.frozenVariables, Partial(Current(sched));
    fixing := Fixing(op, candTime, partial);
    outcome := sched.ScheduleAt(op, candTime, fuel);
    table' := table;
    if outcome.Solved? {
      table' := Reserve(prob, table, prob.linked[op].value, candTime);
      ReservationIsKept(prob, frozen, table, op, candTime, table');
      CurrentIsPartial(prob, lastOp, sched);
    }
  }

  method Reserve(prob: Problem, table: Reservations, opr: nat, time: nat) returns (table': Reservations)
    ensures forall o: nat, t: nat :: Lookup(table', o, t) ==
              Lookup(table, o, t) + (if o == opr && t == time then 1 else 0)
  {
    var row: map<nat, nat> := if opr in table then table[opr] else map[];
    row := row[time := Lookup(table, opr, time) + 1];
    table' := table[opr := row];
  }

  /** No operation uses an operator type whose limit is present, but zero. */
  ghost predicate NoZeroLimit(prob: Problem)
    requires prob.Check()
  {
    forall op :: 0 <= op < prob.Size() ==> prob.TypeOf(op).limit != Some(0)
  }

  lemma {:induction false} NoUsersNoCount(prob: Problem, key: map<nat, nat>, opr: nat, cls: nat, n: nat)
    requires n <= prob.Size() && prob.Started(key)
    requires forall op :: 0 <= op < n ==> prob.linked[op] != Some(opr)
    ensures prob.Users(opr, key, cls, n) == 0
  {
    if n > 0 {
      NoUsersNoCount(prob, key, opr, cls, n - 1);
    }
  }

  lemma {:induction false} UserCounts(prob: Problem, key: map<nat, nat>, opr: nat, op: nat, n: nat)
    requires op < n <= prob.Size() && prob.Started(key) && prob.linked[op] == Some(opr)
    ensures prob.Users(opr, key, key[op], n) > 0
  {
    if op < n - 1 {
      UserCounts(prob, key, opr, op, n - 1);
    }
  }

  lemma FixedKeepsLimits(prob: Problem, frozen: map<nat, nat>, startTime: map<nat, nat>)
    requires prob.WellFormed() && prob.Check() && prob.Verify(startTime) && FitsLimits(prob, frozen)
    requires forall op :: op in frozen ==> op < prob.Size() && startTime[op] == frozen[op]
    requires forall op :: 0 <= op < prob.Size() && LimitOf(prob, op) > 0 ==> op in frozen
    ensures PositiveLimitsKept(prob, startTime)
  {
    var n := prob.Size();
    forall opr | 0 <= opr < |prob.operatorTypes| && prob.operatorTypes[opr].limit != Some(0)
      ensures prob.WithinLimit(opr, startTime)
    {
      var limit := prob.operatorTypes[opr].limit;
      forall t: nat | limit.Some? ensures prob.Users(opr, startTime, t, n) <= limit.value {
        AllFixed(prob, frozen, startTime, opr, t, n);
      }
    }
  }

  /** A zero limit is exceeded by every schedule that uses it. */
  lemma ZeroLimitIffUnused(prob: Problem, startTime: map<nat, nat>, opr: nat)
    requires prob.WellFormed() && prob.Check() && prob.Started(startTime)
    requires opr < |prob.operatorTypes| && prob.operatorTypes[opr].limit == Some(0)
    ensures prob.WithinLimit(opr, startTime) <==> forall op :: 0 <= op < prob.Size() ==> prob.linked[op] != Some(opr)
  {
    var n := prob.Size();
    if op :| 0 <= op < n && prob.linked[op] == Some(opr) {
      UserCounts(prob, startTime, opr, op, n);
    } else {
      forall t: nat ensures prob.Users(opr, startTime, t, n) == 0 {
        NoUsersNoCount(prob, startTime, opr, t, n);
      }
    }
  }

  /** A schedule with all limited operations fixed within the limits is verified, up to zero limits. */
  lemma FixedIsVerified(prob: Problem, frozen: map<nat, nat>, startTime: map<nat, nat>)
    requires prob.WellFormed() && prob.Check() && prob.Verify(startTime) && FitsLimits(prob, frozen)
    requires forall op :: op in frozen ==> op < prob.Size() && startTime[op] == frozen[op]
    requires forall op :: 0 <= op < prob.Size() && LimitOf(prob, op) > 0 ==> op in frozen
    ensures PositiveLimitsKept(prob, startTime)
    ensures prob.VerifyShared(startTime) <==> NoZeroLimit(prob)
  {
    FixedKeepsLimits(prob, frozen, startTime);
    if !NoZeroLimit(prob) {
      var op :| 0 <= op < prob.Size() && prob.TypeOf(op).limit == Some(0);
      ZeroLimitIffUnused(prob, startTime, prob.linked[op].value);
    } else {
      forall opr: nat | opr < |prob.operatorTypes| && prob.operatorTypes[opr].limit == Some(0)
        ensures prob.WithinLimit(opr, startTime)
      {
        forall op | 0 <= op < prob.Size() ensures prob.linked[op] != Some(opr) {
          assert prob.TypeOf(op).limit != Some(0);
        }
        ZeroLimitIffUnused(prob, startTime, opr);
      }
    }
  }

  /** One operation of a type with limit zero. */
  const ZERO_LIMIT := Problem([Some(0)], [OperatorType(Some(1), Some(0), None, None)], [[]])

  /** It is scheduled, but no start time is verified. */
  lemma ZeroLimitIsRejected()
    ensures ZERO_LIMIT.WellFormed() && ZERO_LIMIT.CheckShared() && ZERO_LIMIT.Verify(map[0 := 0])
    ensures forall startTime: map<nat, nat> :: !ZERO_LIMIT.VerifyShared(startTime)
  {
    forall startTime: map<nat, nat> ensures !ZERO_LIMIT.VerifyShared(startTime) {
      if ZERO_LIMIT.Verify(startTime) {
        assert ZERO_LIMIT.linked[0] == Some(0);
        ZeroLimitIffUnused(ZERO_LIMIT, startTime, 0);
      }
    }
  }

  /** `SharedOperatorsSimplexScheduler::schedule`. Fixing an operation never fails, and the result keeps all limits that
      are not zero. It is a correct solution of the shared operators problem, except that verification rejects every use
      of an operator type with limit zero, which the scheduler treats as unlimited. Each operation is fixed at the first
      free time step from its start time in the partial schedule on, which is optimal for what has been fixed before. */
  method ScheduleShared(prob: Problem, lastOp: nat, fuel: nat) returns (result: ScheduleResult)
    requires prob.WellFormed() && prob.CheckShared()
    ensures result.LastOpMissing? <==> lastOp >= prob.Size()
    ensures result.Scheduled? ==> prob.Verify(result.startTime) && PositiveLimitsKept(prob, result.startTime)
    ensures result.Scheduled? ==> (prob.VerifyShared(result.startTime) <==> NoZeroLimit(prob))
    ensures result.Scheduled? ==> exists trace :: IsListSchedule(prob, lastOp, trace, result.startTime)
    ensures result.Scheduled? && EnoughOperators(prob) ==>
              forall other :: prob.Verify(other) ==> result.startTime[lastOp] <= other[lastOp]
    ensures result.ProblemInfeasible? ==> forall other :: !prob.Verify(other)
    ensures result.Unfinished? ==> RunsFor(prob.Size(), Constraints(prob, false), fuel)
    ensures !result.AssertionFailed?
  {
    if lastOp >= prob.Size() {
      return LastOpMissing;
    }
    var sched, outcome := SolveProblem(prob, lastOp, fuel);
    if outcome.Infeasible? {
      return ProblemInfeasible;
    }
    if outcome.OutOfFuel? {
      return Unfinished;
    }
    var base := ReadStartTimes(prob, sched);
    var limitedOps := SortedByStartTime(prob, base);
    ghost var trace;
    outcome, trace := FixAll(prob, lastOp, sched, limitedOps, base, fuel);
    if outcome.OutOfFuel? {
      return Unfinished;
    }
    var startTime := ReadFixed(prob, lastOp, sched, limitedOps, base, trace);
    if EnoughOperators(prob) {
      EnoughIsOptimal(prob, lastOp, trace, startTime);
    }
    return Scheduled(startTime, 0);
  }

  method ReadFixed(prob: Problem, lastOp: nat, sched: SimplexSchedulerBase, limitedOps: seq<nat>,
                   ghost base: map<nat, nat>, ghost trace: seq<Fixing>)
    returns (startTime: map<nat, nat>)
    requires prob.WellFormed() && prob.Check() && lastOp < prob.Size()
    requires IsOptimal(prob, lastOp, sched) && FitsLimits(prob, sched.frozenVariables)
    requires SameOps(sched.frozenVariables, limitedOps)
    requires forall op: nat :: op in limitedOps <==> op < prob.Size() && LimitOf(prob, op) > 0
    requires IsOrdered(base, limitedOps)
    requires IsTrace(prob, lastOp, trace, Partial(Current(sched)), limitedOps, base, sched.frozenVariables)
    ensures prob.Verify(startTime) && PositiveLimitsKept(prob, startTime)
    ensures prob.VerifyShared(startTime) <==> NoZeroLimit(prob)
    ensures IsListSchedule(prob, lastOp, trace, startTime)
  {
    startTime := ReadStartTimes(prob, sched);
    FixedSatisfies(prob, sched.sys, sched.frozenVariables, limitedOps, startTime);
    PartialIs(prob, Times(prob, startTime), startTime);
    TraceIsListSchedule(prob, lastOp, trace, Partial(Current(sched)), limitedOps, base, sched.frozenVariables,
                        startTime);
  }

  lemma FixedSatisfies(prob: Problem, sys: System, frozen: map<nat, nat>, ops: seq<nat>, startTime: map<nat, nat>)
    requires prob.WellFormed() && prob.Check() && prob.Started(startTime)
    requires sys.Valid() && sys.n == prob.Size() && sys.cons == Constraints(prob, false)
    requires IsSchedule(sys, Times(prob, startTime), 0) && Respects(Times(prob, startTime), frozen)
    requires FitsLimits(prob, frozen) && SameOps(frozen, ops)
    requires forall op: nat :: op in ops <==> op < prob.Size() && LimitOf(prob, op) > 0
    ensures prob.Verify(startTime) && PositiveLimitsKept(prob, startTime)
    ensures prob.VerifyShared(startTime) <==> NoZeroLimit(prob)
  {
    VerifyIffSchedule(prob, sys, startTime, 0);
    FixedIsVerified(prob, frozen, startTime);
  }

  ghost predicate SameOps(frozen: map<nat, nat>, ops: seq<nat>) {
    forall op :: op in frozen <==> op in ops
  }

  /** Operations fixed before come earlier in the order. */
  lemma FixedAreEarlier(base: map<nat, nat>, times: seq<int>, ops: seq<nat>, i: nat, frozen: map<nat, nat>)
    requires i < |ops| && IsOrdered(base, ops) && SameOps(frozen, ops[..i])
    requires forall op: nat :: op in ops ==> op in base && op < |times| && times[op] == base[op]
    ensures ops[i] !in frozen && forall v :: v in frozen ==> v < |times| && times[v] <= times[ops[i]]
  {
    forall v | v in frozen ensures v != ops[i] && v < |times| && times[v] <= times[ops[i]] {
      var j :| 0 <= j < i && ops[..i][j] == v;
      assert Before(base, ops[j], ops[i]);
    }
  }

  lemma OneMoreFixed(ops: seq<nat>, i: nat, frozen: map<nat, nat>, frozen': map<nat, nat>)
    requires i < |ops| && SameOps(frozen, ops[..i]) && frozen'.Keys == frozen.Keys + {ops[i]}
    ensures SameOps(frozen', ops[..i + 1])
  {
    assert ops[..i + 1] == ops[..i] + [ops[i]];
    assert forall op :: op in frozen' <==> op in frozen'.Keys;
  }

  lemma NothingReserved(prob: Problem)
    requires prob.Check()
    ensures Reserves(prob, map[], map[]) && FitsLimits(prob, map[])
  {
    forall opr: nat, t: nat ensures FixedUsers(prob, map[], opr, t, prob.Size()) == 0 {
      NothingFixed(prob, opr, t, prob.Size());
    }
  }

  /** The first `i` operations have been fixed. */
  ghost predicate HasFixed(prob: Problem, lastOp: nat, sched: SimplexSchedulerBase, table: Reservations, ops: seq<nat>,
                           i: nat, base: map<nat, nat>, trace: seq<Fixing>)
    requires prob.WellFormed() && prob.Check() && lastOp < prob.Size() && i <= |ops| && prob.Started(base)
    reads sched
  {
    && Progress(prob, lastOp, sched, table) && IsSchedule(sched.sys, Times(prob, base), 0)
    && SameOps(sched.frozenVariables, ops[..i])
    && IsTrace(prob, lastOp, trace, Partial(Current(sched)), ops[..i], base, sched.frozenVariables)
  }

  method FixNext(prob: Problem, lastOp: nat, sched: SimplexSchedulerBase, table: Reservations, limitedOps: seq<nat>,
                 i: nat, base: map<nat, nat>, ghost trace: seq<Fixing>, fuel: nat)
    returns (table': Reservations, outcome: Outcome, ghost trace': seq<Fixing>)
    requires prob.WellFormed() && prob.CheckShared() && prob.Started(base) && lastOp < prob.Size() && i < |limitedOps|
    requires HasFixed(prob, lastOp, sched, table, limitedOps, i, base, trace) && IsOrdered(base, limitedOps)
    requires forall op: nat :: op in limitedOps <==> op < prob.Size() && LimitOf(prob, op) > 0
    modifies sched
    ensures outcome.Solved? || outcome.OutOfFuel?
    ensures outcome.OutOfFuel? ==> RunsFor(prob.Size(), Constraints(prob, false), fuel)
    ensures outcome.Solved? ==> HasFixed(prob, lastOp, sched, table', limitedOps, i + 1, base, trace')
  {
    var op := limitedOps[i];
    assert op in limitedOps;
    ghost var times, frozen := Times(prob, base), sched.frozenVariables;
    FixedAreEarlier(base, times, limitedOps, i, frozen);
    ghost var fixing;
    table', outcome, fixing := FixOperation(prob, lastOp, sched, op, table, times, fuel);
    trace' := trace + [fixing];
    if outcome.Solved? {
      OneMoreFixed(limitedOps, i, frozen, sched.frozenVariables);
      TraceStep(prob, lastOp, trace, limitedOps, i, base, frozen, fixing, Partial(Current(sched)));
    }
  }

  method FixAll(prob: Problem, lastOp: nat, sched: SimplexSchedulerBase, limitedOps: seq<nat>, base: map<nat, nat>,
                fuel: nat)
    returns (outcome: Outcome, ghost trace: seq<Fixing>)
    requires prob.WellFormed() && prob.CheckShared() && prob.Started(base) && lastOp < prob.Size()
    requires IsOptimal(prob, lastOp, sched) && sched.frozenVariables == map[]
    requires Current(sched) == Times(prob, base) && IsSchedule(sched.sys, Times(prob, base), 0)
    requires IsOrdered(base, limitedOps)
    requires forall op: nat :: op in limitedOps <==> op < prob.Size() && LimitOf(prob, op) > 0
    modifies sched
    ensures outcome.Solved? || outcome.OutOfFuel?
    ensures outcome.OutOfFuel? ==> RunsFor(prob.Size(), Constraints(prob, false), fuel)
    ensures outcome.Solved? ==>
              && IsOptimal(prob, lastOp, sched) && FitsLimits(prob, sched.frozenVariables)
              && SameOps(sched.frozenVariables, limitedOps)
              && IsTrace(prob, lastOp, trace, Partial(Current(sched)), limitedOps, base, sched.frozenVariables)
  {
    var table: Reservations := map[];
    NothingReserved(prob);
    CurrentIsPartial(prob, lastOp, sched);
    PartialIs(prob, Times(prob, base), base);
    trace := [];
    NoTrace(prob, lastOp, Partial(Current(sched)), base);
    for i := 0 to |limitedOps|
      invariant HasFixed(prob, lastOp, sched, table, limitedOps, i, base, trace)
    {
      table, outcome, trace := FixNext(prob, lastOp, sched, table, limitedOps, i, base, trace, fuel);
      if outcome.OutOfFuel? {
        return;
      }
    }
    assert limitedOps[..|limitedOps|] == limitedOps;
    outcome := Solved;
  }
}
