/** Modulo scheduling: what the verification of a modulo schedule means for overlapped iterations. */
module Modulo {
  import opened Options
  import opened Problems
  import opened Arithmetic

  // ---------------------------------------------------------------------------------------------
  // Overlapped iterations
  // ---------------------------------------------------------------------------------------------

  /** Iteration `k` of an operation starts `k` initiation intervals after the first one. */
  function StartOf(startTime: map<nat, nat>, ii: nat, op: nat, k: nat): nat
    requires op in startTime
  {
    startTime[op] + k * ii
  }

  /** The value that iteration `k` produces is available when the dependent iteration starts, for all iterations. */
  ghost predicate DependenceHolds(prob: Problem, dep: Dependence, startTime: map<nat, nat>, ii: nat)
    requires prob.Check() && dep.src < prob.Size() && dep.src in startTime && dep.dst in startTime
  {
    forall k: nat :: StartOf(startTime, ii, dep.src, k) + prob.Latency(dep.src)
                  <= StartOf(startTime, ii, dep.dst, k + dep.distance.ValueOr(0))
  }

  lemma DependenceHoldsIff(prob: Problem, dep: Dependence, startTime: map<nat, nat>, ii: nat)
    requires prob.WellFormed() && prob.Check() && dep.src < prob.Size() && dep.src in startTime && dep.dst in startTime
    ensures DependenceHolds(prob, dep, startTime, ii) <==> prob.PrecedesCyclic(dep, startTime, ii)
  {
    var d := dep.distance.ValueOr(0);
    forall k: nat ensures StartOf(startTime, ii, dep.dst, k + d) == startTime[dep.dst] + k * ii + d * ii {
      DifferenceTimes(k, d, ii);
    }
    if DependenceHolds(prob, dep, startTime, ii) {
      assert StartOf(startTime, ii, dep.src, 0) + prob.Latency(dep.src) <= StartOf(startTime, ii, dep.dst, 0 + d);
      assert StartOf(startTime, ii, dep.src, 0) == startTime[dep.src];
    }
  }

  /** How many of the first `m` iterations of an operation start at the absolute time step `time`. */
  function StartsAt(startTime: map<nat, nat>, ii: nat, op: nat, time: nat, m: nat): nat
    requires op in startTime
  {
    if m == 0 then 0
    else StartsAt(startTime, ii, op, time, m - 1) + (if StartOf(startTime, ii, op, m - 1) == time then 1 else 0)
  }

  /** How many instances of the first `n` operations on an operator type start at `time`, in `m` iterations. */
  function Load(prob: Problem, startTime: map<nat, nat>, ii: nat, opr: nat, time: nat, m: nat, n: nat): nat
    requires n <= prob.Size() && prob.Started(startTime)
  {
    if n == 0 then 0
    else Load(prob, startTime, ii, opr, time, m, n - 1)
         + (if prob.linked[n - 1] == Some(opr) then StartsAt(startTime, ii, n - 1, time, m) else 0)
  }

  /** Some of the first `m` iterations of the operation starts at `time`. */
  ghost predicate Starts(startTime: map<nat, nat>, ii: nat, op: nat, time: nat, m: nat)
    requires op in startTime
  {
    exists k: nat :: k < m && StartOf(startTime, ii, op, k) == time
  }

  lemma {:induction false} StartsOnce(startTime: map<nat, nat>, ii: nat, op: nat, time: nat, m: nat)
    requires op in startTime && ii > 0
    ensures StartsAt(startTime, ii, op, time, m) == if Starts(startTime, ii, op, time, m) then 1 else 0
  {
    if m > 0 {
      StartsOnce(startTime, ii, op, time, m - 1);
      if Starts(startTime, ii, op, time, m - 1) {
        var k: nat :| k < m - 1 && StartOf(startTime, ii, op, k) == time;
        StartsApart(startTime, ii, op, k, m - 1);
        assert Starts(startTime, ii, op, time, m);
      }
      if StartOf(startTime, ii, op, m - 1) != time && Starts(startTime, ii, op, time, m) {
        var k: nat :| k < m && StartOf(startTime, ii, op, k) == time;
        assert k < m - 1;
      }
    }
  }

  lemma StartsApart(startTime: map<nat, nat>, ii: nat, op: nat, j: nat, k: nat)
    requires op in startTime && ii > 0 && j < k
    ensures StartOf(startTime, ii, op, j) < StartOf(startTime, ii, op, k)
  {
    ProductOrder(j, k, ii);
  }

  /** The instances that start together belong to one congruence class. */
  lemma {:induction false} LoadIsBounded(prob: Problem, startTime: map<nat, nat>, ii: nat, opr: nat, time: nat,
                                         m: nat, n: nat)
    requires n <= prob.Size() && prob.Started(startTime) && ii > 0
    ensures Load(prob, startTime, ii, opr, time, m, n) <= prob.Users(opr, prob.Congruence(startTime, ii), time % ii, n)
  {
    if n > 0 {
      LoadIsBounded(prob, startTime, ii, opr, time, m, n - 1);
      StartsOnce(startTime, ii, n - 1, time, m);
      if Starts(startTime, ii, n - 1, time, m) {
        var k: nat :| k < m && StartOf(startTime, ii, n - 1, k) == time;
        ModOfShift(startTime[n - 1], k, ii);
      }
    }
  }

  /** In enough iterations, an operation starts together with its congruence class. */
  lemma StartsWithClass(startTime: map<nat, nat>, ii: nat, op: nat, cls: nat, m: nat)
    requires op in startTime && ii > 0 && cls < ii && startTime[op] / ii <= m
    ensures Starts(startTime, ii, op, cls + m * ii, m + 1) <==> startTime[op] % ii == cls
  {
    if startTime[op] % ii == cls {
      var q := startTime[op] / ii;
      var k := m - q;
      DivModOf(startTime[op], ii);
      DifferenceTimes(m, q, ii);
      assert StartOf(startTime, ii, op, k) == cls + m * ii;
    }
    if Starts(startTime, ii, op, cls + m * ii, m + 1) {
      var k: nat :| k < m + 1 && StartOf(startTime, ii, op, k) == cls + m * ii;
      ModOfShift(startTime[op], k, ii);
      DivModIs(cls + m * ii, m, cls, ii);
    }
  }

  /** With enough iterations, a whole congruence class starts together. */
  lemma {:induction false} LoadIsReached(prob: Problem, startTime: map<nat, nat>, ii: nat, opr: nat, cls: nat, m: nat,
                                         n: nat)
    requires n <= prob.Size() && prob.Started(startTime) && ii > 0 && cls < ii
    requires forall op :: 0 <= op < n ==> startTime[op] / ii <= m
    ensures Load(prob, startTime, ii, opr, cls + m * ii, m + 1, n)
         == prob.Users(opr, prob.Congruence(startTime, ii), cls, n)
  {
    if n > 0 {
      LoadIsReached(prob, startTime, ii, opr, cls, m, n - 1);
      StartsOnce(startTime, ii, n - 1, cls + m * ii, m + 1);
      StartsWithClass(startTime, ii, n - 1, cls, m);
    }
  }

  lemma {:induction false} LatestPhase(prob: Problem, startTime: map<nat, nat>, ii: nat, n: nat) returns (m: nat)
    requires n <= prob.Size() && prob.Started(startTime) && ii > 0
    ensures forall op :: 0 <= op < n ==> startTime[op] / ii <= m
  {
    m := 0;
    if n > 0 {
      m := LatestPhase(prob, startTime, ii, n - 1);
      m := if startTime[n - 1] / ii <= m then m else startTime[n - 1] / ii;
    }
  }

  lemma {:induction false} NoUsersOutside(prob: Problem, startTime: map<nat, nat>, ii: nat, opr: nat, cls: nat, n: nat)
    requires n <= prob.Size() && prob.Started(startTime) && ii > 0 && cls >= ii
    ensures prob.Users(opr, prob.Congruence(startTime, ii), cls, n) == 0
  {
    if n > 0 {
      NoUsersOutside(prob, startTime, ii, opr, cls, n - 1);
    }
  }

  /** No time step of any overlapped execution exceeds the limit, if there is one. */
  ghost predicate NeverExceeds(prob: Problem, startTime: map<nat, nat>, ii: nat, opr: nat)
    requires prob.Started(startTime) && opr < |prob.operatorTypes|
  {
    prob.operatorTypes[opr].limit.Some? ==>
      forall time: nat, m: nat ::
        Load(prob, startTime, ii, opr, time, m, prob.Size()) <= prob.operatorTypes[opr].limit.value
  }

  /** The congruence classes respect a limit exactly if no time step of any overlapped execution exceeds it. */
  lemma WithinLimitIff(prob: Problem, startTime: map<nat, nat>, ii: nat, opr: nat)
    requires prob.Check() && prob.Started(startTime) && ii > 0 && opr < |prob.operatorTypes|
    ensures prob.WithinLimit(opr, prob.Congruence(startTime, ii)) <==> NeverExceeds(prob, startTime, ii, opr)
  {
    var n, limit := prob.Size(), prob.operatorTypes[opr].limit;
    if limit.Some? && prob.WithinLimit(opr, prob.Congruence(startTime, ii)) {
      forall time: nat, m: nat ensures Load(prob, startTime, ii, opr, time, m, n) <= limit.value {
        LoadIsBounded(prob, startTime, ii, opr, time, m, n);
      }
    }
    if limit.Some? && NeverExceeds(prob, startTime, ii, opr) {
      forall cls: nat ensures prob.Users(opr, prob.Congruence(startTime, ii), cls, n) <= limit.value {
        var time, m := ClassStarts(prob, startTime, ii, opr, cls);
        assert Load(prob, startTime, ii, opr, time, m, n) <= limit.value;
      }
    }
  }

  lemma ClassStarts(prob: Problem, startTime: map<nat, nat>, ii: nat, opr: nat, cls: nat) returns (time: nat, m: nat)
    requires prob.Started(startTime) && ii > 0
    ensures prob.Users(opr, prob.Congruence(startTime, ii), cls, prob.Size())
         <= Load(prob, startTime, ii, opr, time, m, prob.Size())
  {
    if cls < ii {
      var phase := LatestPhase(prob, startTime, ii, prob.Size());
      time, m := cls + phase * ii, phase + 1;
      LoadIsReached(prob, startTime, ii, opr, cls, phase, prob.Size());
    } else {
      NoUsersOutside(prob, startTime, ii, opr, cls, prob.Size());
      time, m := 0, 0;
    }
  }

  /** What it takes for the iterations to run overlapped. */
  ghost predicate RunsOverlapped(prob: Problem, startTime: map<nat, nat>, ii: nat)
    requires prob.WellFormed() && prob.Check()
  {
    && prob.Started(startTime)
    && (forall op, k :: 0 <= op < prob.Size() && 0 <= k < |prob.dependences[op]| ==>
          DependenceHolds(prob, prob.dependences[op][k], startTime, ii))
    && forall opr :: 0 <= opr < |prob.operatorTypes| ==> NeverExceeds(prob, startTime, ii, opr)
  }

  /** Verification accepts exactly the modulo schedules whose iterations can run overlapped. */
  lemma VerifiedIffOverlapped(prob: Problem, startTime: map<nat, nat>, ii: nat)
    requires prob.WellFormed() && prob.Check() && ii > 0
    ensures prob.VerifyModulo(startTime, ii) <==> RunsOverlapped(prob, startTime, ii)
  {
    if prob.Started(startTime) {
      forall op: nat, k: nat | op < prob.Size() && k < |prob.dependences[op]|
        ensures DependenceHolds(prob, prob.dependences[op][k], startTime, ii) <==>
                prob.PrecedesCyclic(prob.dependences[op][k], startTime, ii)
      {
        assert prob.dependences[op][k].dst == op;
        DependenceHoldsIff(prob, prob.dependences[op][k], startTime, ii);
      }
      forall opr: nat | opr < |prob.operatorTypes|
        ensures prob.WithinLimit(opr, prob.Congruence(startTime, ii)) <==> NeverExceeds(prob, startTime, ii, opr)
      {
        WithinLimitIff(prob, startTime, ii, opr);
      }
    }
  }
}
