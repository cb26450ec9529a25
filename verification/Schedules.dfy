/** Schedules as solutions: start times that meet all constraints are the feasible points of the system. */
module Schedules {
  // Freezing a start time means storing it relative to a shift, which the two kinds of translation of the tableau
  // (by a multiple of the parameters, and of S by a constant) bring about.

  import opened Vectors
  import opened Tableaus
  import opened LinearProgram

  predicate Meets(con: Constraint, times: seq<int>, ii: int)
    requires con.src < |times| && con.dst < |times|
  {
    times[con.dst] - times[con.src] >= con.latency - con.distance * ii
  }

  /** Start times (for initiation interval `ii`) that meet every constraint. */
  ghost predicate IsSchedule(sys: System, times: seq<int>, ii: int)
    requires sys.Valid()
  {
    && |times| == sys.n
    && (forall i :: 0 <= i < sys.n ==> times[i] >= 0)
    && (forall d :: 0 <= d < |sys.cons| ==> Meets(sys.cons[d], times, ii))
  }

  /** The frozen operations start when they were told to. */
  ghost predicate Respects(times: seq<int>, frozen: map<nat, nat>) {
    forall v :: v in frozen ==> v < |times| && times[v] == frozen[v]
  }

  /** At parameters `u`, frozen start times are shifted to their time step, and no others are shifted. */
  ghost predicate ShiftsFreeze(sys: System, frozen: map<nat, nat>, u: Params)
    requires sys.Valid()
  {
    && (forall v :: v in frozen ==> v < sys.n)
    && forall i :: 0 <= i < sys.n ==> sys.shift[i].Times(u) == if i in frozen then frozen[i] else 0
  }

  ghost function PointOf(sys: System, u: Params, times: seq<int>): (y: seq<int>)
    requires sys.Valid() && |times| == sys.n
    ensures |y| == sys.Variables()
  {
    seq(sys.Variables(), v requires 0 <= v < sys.Variables() =>
      if v < sys.n then times[v] - sys.shift[v].Times(u)
      else times[sys.cons[v - sys.n].dst] - times[sys.cons[v - sys.n].src]
           - sys.cons[v - sys.n].latency * u.one + sys.cons[v - sys.n].distance * u.t)
  }

  lemma PointOfHolds(sys: System, u: Params, times: seq<int>)
    requires sys.Valid() && |times| == sys.n
    ensures sys.Starts(u, PointOf(sys, u, times)) == times
    ensures sys.Holds(u, PointOf(sys, u, times))
  {
    var y := PointOf(sys, u, times);
    forall i: nat | i < sys.n ensures sys.Start(i, u, y) == times[i] {}
  }

  lemma ScheduleIsFeasible(sys: System, frozen: map<nat, nat>, s: int, times: seq<int>, ii: int)
    requires sys.Valid() && IsSchedule(sys, times, ii) && Respects(times, frozen)
    requires ShiftsFreeze(sys, frozen, Params(1, s, ii))
    ensures Feasible(PointOf(sys, Params(1, s, ii), times), frozen.Keys)
  {
    var u := Params(1, s, ii);
    var y := PointOf(sys, u, times);
    forall v | 0 <= v < |y| ensures y[v] >= 0 && (v in frozen.Keys ==> y[v] == 0) {
      if v >= sys.n {
        assert Meets(sys.cons[v - sys.n], times, ii);
      }
    }
  }

  lemma FeasibleIsSchedule(sys: System, frozen: map<nat, nat>, s: int, y: seq<int>, ii: int)
    requires sys.Valid() && |y| == sys.Variables()
    requires sys.Holds(Params(1, s, ii), y) && Feasible(y, frozen.Keys)
    requires ShiftsFreeze(sys, frozen, Params(1, s, ii))
    ensures IsSchedule(sys, sys.Starts(Params(1, s, ii), y), ii)
    ensures Respects(sys.Starts(Params(1, s, ii), y), frozen)
  {
    var u := Params(1, s, ii);
    var times := sys.Starts(u, y);
    forall d | 0 <= d < |sys.cons| ensures Meets(sys.cons[d], times, ii) {
      assert y[sys.n + d] == sys.Slack(d, u, y);
    }
    forall v | v in frozen ensures v < |times| && times[v] == frozen[v] {
      assert y[v] == 0;
    }
  }

  // ---------------------------------------------------------------------------------------------
  // Translating a non-basic start time
  // ---------------------------------------------------------------------------------------------

  function Sum(a: Params, b: Params): Params {
    Params(a.one + b.one, a.s + b.s, a.t + b.t)
  }

  lemma SumTimes(a: Params, b: Params, u: Params)
    ensures Sum(a, b).Times(u) == a.Times(u) + b.Times(u)
  {
    assert (a.one + b.one) * u.one == a.one * u.one + b.one * u.one;
    assert (a.s + b.s) * u.s == a.s * u.s + b.s * u.s;
    assert (a.t + b.t) * u.t == a.t * u.t + b.t * u.t;
  }

  function ShiftBy(sys: System, v: nat, f: Params): System
    requires v < |sys.shift|
  {
    sys.(shift := sys.shift[v := Sum(sys.shift[v], f)])
  }

  /** Translating a column moves the point by as much. */
  lemma TranslatedResidual(t: Tableau, col: nat, f: Params, u: Params, y: seq<int>, r: nat)
    requires t.Valid(|y|) && PARAMETERS <= col < t.Columns() && r < |t.rows|
    requires r >= t.nObjectives ==> t.basic[r - t.nObjectives] != t.nonBasic[col - PARAMETERS]
    ensures var v := t.nonBasic[col - PARAMETERS];
            t.Translate(col, f).Residual(r, u, y) == t.Residual(r, u, y[v := y[v] + f.Times(u)])
  {
    var v := t.nonBasic[col - PARAMETERS];
    var x, x' := t.Values(u, y), t.Values(u, y[v := y[v] + f.Times(u)]);
    var row, row' := t.rows[r], TranslatedRow(t.rows[r], col, f);
    assert t.Translate(col, f).rows[r] == row';
    assert x' == x[col := x[col] + f.Times(u)];
    var n := |x|;
    DotToUpdate(row, x, col, row[col], x[col] + f.Times(u), n);
    assert row[col := row[col]] == row;
    TranslatedDot(row, x, col, f, n);
    var a := row[col];
    assert a * (x[col] + f.Times(u)) == a * x[col] + a * f.Times(u);
    TimesScale(a, f, u);
  }

  lemma TimesScale(a: int, f: Params, u: Params)
    ensures a * f.one * u.one + a * f.s * u.s + a * f.t * u.t == a * f.Times(u)
  {
    assert a * f.one * u.one == a * (f.one * u.one);
    assert a * f.s * u.s == a * (f.s * u.s);
    assert a * f.t * u.t == a * (f.t * u.t);
  }

  lemma TranslatedDot(row: seq<int>, x: seq<int>, col: nat, f: Params, n: nat)
    requires |row| == |x| == n && PARAMETERS <= col < n
    ensures DotTo(TranslatedRow(row, col, f), x, n)
         == DotTo(row, x, n) - row[col] * f.one * x[0] - row[col] * f.s * x[1] - row[col] * f.t * x[2]
  {
    var r1 := row[0 := row[0] - row[col] * f.one];
    var r2 := r1[1 := row[1] - row[col] * f.s];
    var r3 := r2[2 := row[2] - row[col] * f.t];
    assert r3 == TranslatedRow(row, col, f);
    assert x[0 := x[0]] == x && x[1 := x[1]] == x && x[2 := x[2]] == x;
    DotToUpdate(row, x, 0, row[0] - row[col] * f.one, x[0], n);
    DotToUpdate(r1, x, 1, row[1] - row[col] * f.s, x[1], n);
    DotToUpdate(r2, x, 2, row[2] - row[col] * f.t, x[2], n);
    MinusTimes(row[0], row[col] * f.one, x[0]);
    MinusTimes(row[1], row[col] * f.s, x[1]);
    MinusTimes(row[2], row[col] * f.t, x[2]);
  }

  lemma MinusTimes(a: int, b: int, x: int)
    ensures (a - b) * x - a * x == -(b * x)
  {
  }

  lemma TranslateKeepsValid(t: Tableau, col: nat, f: Params, nVars: nat)
    requires t.Valid(nVars) && PARAMETERS <= col < t.Columns()
    ensures t.Translate(col, f).Valid(nVars)
  {
    assert t.Translate(col, f).Partition(nVars) == t.Partition(nVars);
  }

  lemma SameResiduals(t: Tableau, u: Params, y: seq<int>, t': Tableau, u': Params, y': seq<int>)
    requires t.Valid(|y|) && t'.Valid(|y'|) && |t.rows| == |t'.rows| && t.nObjectives == t'.nObjectives
    requires forall r: nat :: t.nObjectives <= r < |t.rows| ==> t.Residual(r, u, y) == t'.Residual(r, u', y')
    ensures t.Holds(u, y) <==> t'.Holds(u', y')
  {
  }

  lemma TranslateHolds(t: Tableau, col: nat, f: Params, u: Params, y: seq<int>)
    requires t.Valid(|y|) && PARAMETERS <= col < t.Columns() && t.Translate(col, f).Valid(|y|)
    ensures var v := t.nonBasic[col - PARAMETERS];
            t.Translate(col, f).Holds(u, y) <==> t.Holds(u, y[v := y[v] + f.Times(u)])
  {
    var v := t.nonBasic[col - PARAMETERS];
    var y' := y[v := y[v] + f.Times(u)];
    forall r: nat | t.nObjectives <= r < |t.rows|
      ensures t.Translate(col, f).Residual(r, u, y) == t.Residual(r, u, y')
    {
      assert t.basic[r - t.nObjectives] != v;
      TranslatedResidual(t, col, f, u, y, r);
    }
    SameResiduals(t.Translate(col, f), u, y, t, u, y');
  }

  lemma ShiftedStart(sys: System, v: nat, f: Params, u: Params, y: seq<int>, i: nat)
    requires sys.Valid() && v < sys.n && |y| == sys.Variables() && i < sys.n
    ensures ShiftBy(sys, v, f).Start(i, u, y) == sys.Start(i, u, y[v := y[v] + f.Times(u)])
  {
    SumTimes(sys.shift[v], f, u);
  }

  lemma ShiftHolds(sys: System, v: nat, f: Params, u: Params, y: seq<int>)
    requires sys.Valid() && v < sys.n && |y| == sys.Variables()
    ensures ShiftBy(sys, v, f).Valid()
    ensures ShiftBy(sys, v, f).Holds(u, y) <==> sys.Holds(u, y[v := y[v] + f.Times(u)])
    ensures ShiftBy(sys, v, f).Starts(u, y) == sys.Starts(u, y[v := y[v] + f.Times(u)])
  {
    var sys', y' := ShiftBy(sys, v, f), y[v := y[v] + f.Times(u)];
    forall i: nat | i < sys.n ensures sys'.Start(i, u, y) == sys.Start(i, u, y') {
      ShiftedStart(sys, v, f, u, y, i);
    }
    forall d | 0 <= d < |sys.cons| ensures sys'.Slack(d, u, y) == sys.Slack(d, u, y') && y[sys.n + d] == y'[sys.n + d] {
    }
  }

  lemma TranslateRepresents(t: Tableau, sys: System, col: nat, f: Params)
    requires Represents(t, sys)
    requires PARAMETERS <= col < t.Columns() && t.nonBasic[col - PARAMETERS] < sys.n
    ensures Represents(t.Translate(col, f), ShiftBy(sys, t.nonBasic[col - PARAMETERS], f))
  {
    var v := t.nonBasic[col - PARAMETERS];
    var t', sys' := t.Translate(col, f), ShiftBy(sys, v, f);
    TranslateKeepsValid(t, col, f, sys.Variables());
    forall u: Params, y: seq<int> | |y| == sys.Variables()
      ensures t'.Holds(u, y) <==> sys'.Holds(u, y)
    {
      TranslateHolds(t, col, f, u, y);
      ShiftHolds(sys, v, f, u, y);
      var y' := y[v := y[v] + f.Times(u)];
      assert t.Holds(u, y') <==> sys.Holds(u, y');
    }
  }

  lemma TranslateMeasures(t: Tableau, sys: System, weights: seq<seq<int>>, col: nat, f: Params)
    requires Represents(t, sys) && Measures(t, sys, weights)
    requires PARAMETERS <= col < t.Columns() && t.nonBasic[col - PARAMETERS] < sys.n
    ensures var sys' := ShiftBy(sys, t.nonBasic[col - PARAMETERS], f);
            Represents(t.Translate(col, f), sys') && Measures(t.Translate(col, f), sys', weights)
  {
    var v := t.nonBasic[col - PARAMETERS];
    var t', sys' := t.Translate(col, f), ShiftBy(sys, v, f);
    TranslateRepresents(t, sys, col, f);
    forall u: Params, y: seq<int>, o: nat | |y| == sys.Variables() && o < |weights| && sys'.Holds(u, y)
      ensures t'.Residual(o, u, y) == Dot(weights[o], sys'.Starts(u, y))
    {
      TranslatedResidual(t, col, f, u, y, o);
      ShiftHolds(sys, v, f, u, y);
    }
  }

  // ---------------------------------------------------------------------------------------------
  // Replacing S by a constant
  // ---------------------------------------------------------------------------------------------

  function FixParams(u: Params, step: int): Params {
    Params(u.one, step * u.one, u.t)
  }

  function FixShift(sys: System, step: int): System {
    sys.(shift := seq(|sys.shift|, i requires 0 <= i < |sys.shift| =>
      Params(sys.shift[i].one + sys.shift[i].s * step, 0, sys.shift[i].t)))
  }

  lemma FixTimes(a: Params, u: Params, step: int)
    ensures Params(a.one + a.s * step, 0, a.t).Times(u) == a.Times(FixParams(u, step))
  {
    assert (a.one + a.s * step) * u.one == a.one * u.one + a.s * step * u.one;
    assert a.s * step * u.one == a.s * (step * u.one);
  }

  lemma FixedResidual(t: Tableau, step: int, u: Params, y: seq<int>, r: nat)
    requires t.Valid(|y|) && r < |t.rows|
    ensures t.FixS(step).Valid(|y|)
    ensures t.FixS(step).Residual(r, u, y) == t.Residual(r, FixParams(u, step), y)
  {
    var t' := t.FixS(step);
    var row := t.rows[r];
    assert t'.rows[r] == FixedRow(row, step);
    ResidualSplits(t', r, u, y);
    ResidualSplits(t, r, FixParams(u, step), y);
    FixTimes(Params(row[0], row[1], row[2]), u, step);
    SamePart(t, t', r, y, |t.nonBasic|);
  }

  lemma {:induction false} SamePart(t: Tableau, t': Tableau, r: nat, y: seq<int>, k: nat)
    requires t.Valid(|y|) && t'.Valid(|y|) && r < |t.rows| == |t'.rows| && k <= |t.nonBasic|
    requires t.nonBasic == t'.nonBasic
    requires forall c :: PARAMETERS <= c < t.Columns() ==> t.rows[r][c] == t'.rows[r][c]
    ensures NonBasicPart(t, r, y, k) == NonBasicPart(t', r, y, k)
  {
    if k > 0 {
      SamePart(t, t', r, y, k - 1);
    }
  }

  lemma FixHolds(t: Tableau, step: int, u: Params, y: seq<int>)
    requires t.Valid(|y|)
    ensures t.FixS(step).Valid(|y|)
    ensures t.FixS(step).Holds(u, y) <==> t.Holds(FixParams(u, step), y)
  {
    forall r | t.nObjectives <= r < |t.rows|
      ensures t.FixS(step).Valid(|y|) && t.FixS(step).Residual(r, u, y) == t.Residual(r, FixParams(u, step), y)
    {
      FixedResidual(t, step, u, y, r);
    }
  }

  lemma FixShiftHolds(sys: System, step: int, u: Params, y: seq<int>)
    requires sys.Valid() && |y| == sys.Variables()
    ensures FixShift(sys, step).Valid()
    ensures FixShift(sys, step).Holds(u, y) <==> sys.Holds(FixParams(u, step), y)
    ensures FixShift(sys, step).Starts(u, y) == sys.Starts(FixParams(u, step), y)
  {
    var sys', u' := FixShift(sys, step), FixParams(u, step);
    forall i: nat | i < sys.n ensures sys'.Start(i, u, y) == sys.Start(i, u', y) {
      FixTimes(sys.shift[i], u, step);
    }
    forall d | 0 <= d < |sys.cons| ensures sys'.Slack(d, u, y) == sys.Slack(d, u', y) {}
  }

  lemma FixRepresents(t: Tableau, sys: System, weights: seq<seq<int>>, step: int)
    requires Represents(t, sys) && Measures(t, sys, weights)
    ensures Represents(t.FixS(step), FixShift(sys, step)) && Measures(t.FixS(step), FixShift(sys, step), weights)
  {
    var t', sys' := t.FixS(step), FixShift(sys, step);
    forall u: Params, y: seq<int> | |y| == sys.Variables()
      ensures t'.Valid(|y|) && (t'.Holds(u, y) <==> sys'.Holds(u, y))
    {
      FixHolds(t, step, u, y);
      FixShiftHolds(sys, step, u, y);
      assert t.Holds(FixParams(u, step), y) <==> sys.Holds(FixParams(u, step), y);
    }
    if t.rows == [] {
      assert t'.rows == [];
    }
    assert t'.Valid(sys.Variables());
    assert Represents(t', sys');
    forall u: Params, y: seq<int>, o: nat | |y| == sys.Variables() && o < |weights| && sys'.Holds(u, y)
      ensures t'.Residual(o, u, y) == Dot(weights[o], sys'.Starts(u, y))
    {
      FixedResidual(t, step, u, y, o);
      FixShiftHolds(sys, step, u, y);
    }
  }
}
