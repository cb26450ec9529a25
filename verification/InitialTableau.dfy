/** The initial tableau: all start times are non-basic, all slack variables are basic. */
module InitialTableau {
  import opened Vectors
  import opened Tableaus
  import opened LinearProgram
  import opened Schedules

  function NoShift(n: nat): (s: seq<Params>)
    ensures |s| == n
  {
    seq(n, i => ZERO_PARAMS)
  }

  /** The system of a freshly built tableau. */
  function InitialSystem(n: nat, cons: seq<Constraint>): System {
    System(n, cons, NoShift(n))
  }

  function ZeroRow(n: nat): (row: seq<int>)
    ensures |row| == PARAMETERS + n
  {
    seq(PARAMETERS + n, i => 0)
  }

  /** What `fillConstraintRow` makes of a zero row: the coefficients of a self-arc cancel. */
  function ConstraintRow(n: nat, con: Constraint): (row: seq<int>)
    requires con.src < n && con.dst < n
    ensures |row| == PARAMETERS + n
  {
    var row := ZeroRow(n)[0 := -con.latency];
    var arcs := if con.src != con.dst then row[PARAMETERS + con.src := 1][PARAMETERS + con.dst := -1] else row;
    arcs[2 := con.distance]
  }

  /** The weights of an objective: the start times of a set of operations are summed up. */
  function Weights(n: nat, objective: set<nat>): (w: seq<int>)
    ensures |w| == n
  {
    seq(n, i => if i in objective then 1 else 0)
  }

  function ObjectiveRow(n: nat, objective: set<nat>): (row: seq<int>)
    ensures |row| == PARAMETERS + n
  {
    [0, 0, 0] + Weights(n, objective)
  }

  function AllWeights(n: nat, objectives: seq<set<nat>>): (w: seq<seq<int>>)
    ensures |w| == |objectives|
    ensures forall o :: 0 <= o < |w| ==> |w[o]| == n
  {
    seq(|objectives|, o requires 0 <= o < |objectives| => Weights(n, objectives[o]))
  }

  /** The tableau that `buildTableau` ends with. */
  ghost predicate IsInitial(t: Tableau, n: nat, cons: seq<Constraint>, objectives: seq<set<nat>>)
    requires InitialSystem(n, cons).Valid()
  {
    && t.nObjectives == |objectives|
    && |t.rows| == |objectives| + |cons|
    && (forall o :: 0 <= o < |objectives| ==> t.rows[o] == ObjectiveRow(n, objectives[o]))
    && (forall d :: 0 <= d < |cons| ==> t.rows[|objectives| + d] == ConstraintRow(n, cons[d]))
    && |t.nonBasic| == n && (forall i :: 0 <= i < n ==> t.nonBasic[i] == i)
    && |t.basic| == |cons| && (forall d :: 0 <= d < |cons| ==> t.basic[d] == n + d)
  }

  lemma {:induction false} DotToShifted(w: seq<int>, p: seq<int>, x: seq<int>, k: nat)
    requires |p| == 3 && |w| == |x| && k <= |w|
    ensures DotTo([0, 0, 0] + w, p + x, 3 + k) == DotTo(w, x, k)
  {
    if k == 0 {
      DotThree([0, 0, 0] + w, p + x);
    } else {
      DotToShifted(w, p, x, k - 1);
    }
  }

  lemma ConstraintRowDot(n: nat, con: Constraint, v: seq<int>)
    requires con.src < n && con.dst < n && |v| == PARAMETERS + n
    ensures Dot(ConstraintRow(n, con), v)
         == -con.latency * v[0] + con.distance * v[2] + v[PARAMETERS + con.src] - v[PARAMETERS + con.dst]
  {
    var m := |v|;
    var r0 := ZeroRow(n);
    var r1 := r0[0 := -con.latency];
    var r2 := r1[PARAMETERS + con.src := 1];
    var r3 := r2[PARAMETERS + con.dst := -1];
    var r4 := if con.src != con.dst then r3 else r1;
    assert v[0 := v[0]] == v && v[2 := v[2]] == v;
    assert v[PARAMETERS + con.src := v[PARAMETERS + con.src]] == v;
    assert v[PARAMETERS + con.dst := v[PARAMETERS + con.dst]] == v;
    DotToZero(r0, v, m);
    DotToUpdate(r0, v, 0, -con.latency, v[0], m);
    DotToUpdate(r1, v, PARAMETERS + con.src, 1, v[PARAMETERS + con.src], m);
    DotToUpdate(r2, v, PARAMETERS + con.dst, -1, v[PARAMETERS + con.dst], m);
    DotToUpdate(r4, v, 2, con.distance, v[2], m);
    assert r4[2 := con.distance] == ConstraintRow(n, con);
  }

  lemma InitialIsValid(t: Tableau, n: nat, cons: seq<Constraint>, objectives: seq<set<nat>>)
    requires InitialSystem(n, cons).Valid() && IsInitial(t, n, cons, objectives)
    ensures t.Valid(n + |cons|)
  {
    forall r: nat | r < |t.rows| ensures |t.rows[r]| == t.Columns() {
      if r >= |objectives| {
        assert t.rows[|objectives| + (r - |objectives|)] == ConstraintRow(n, cons[r - |objectives|]);
      }
    }
    forall v: nat | v < n + |cons| ensures v in t.nonBasic || v in t.basic {
      if v < n {
        assert t.nonBasic[v] == v;
      } else {
        assert t.basic[v - n] == v;
      }
    }
  }

  lemma InitialRow(t: Tableau, n: nat, cons: seq<Constraint>, objectives: seq<set<nat>>, u: Params, y: seq<int>, d: nat)
    requires InitialSystem(n, cons).Valid() && IsInitial(t, n, cons, objectives)
    requires |y| == n + |cons| && t.Valid(|y|) && d < |cons|
    ensures t.Residual(|objectives| + d, u, y) == y[n + d] - InitialSystem(n, cons).Slack(d, u, y)
  {
    var v := t.Values(u, y);
    ConstraintRowDot(n, cons[d], v);
    assert t.rows[|objectives| + d] == ConstraintRow(n, cons[d]);
    var con := cons[d];
    assert v[PARAMETERS + con.src] == y[con.src] && v[PARAMETERS + con.dst] == y[con.dst];
    assert -con.latency * v[0] == con.latency * u.one;
    assert con.distance * v[2] == -(con.distance * u.t);
  }

  lemma InitialRepresents(t: Tableau, n: nat, cons: seq<Constraint>, objectives: seq<set<nat>>)
    requires InitialSystem(n, cons).Valid() && IsInitial(t, n, cons, objectives)
    ensures Represents(t, InitialSystem(n, cons))
  {
    var sys := InitialSystem(n, cons);
    InitialIsValid(t, n, cons, objectives);
    forall u: Params, y: seq<int> | |y| == sys.Variables() ensures t.Holds(u, y) <==> sys.Holds(u, y) {
      InitialHolds(t, n, cons, objectives, u, y);
    }
  }

  lemma InitialHolds(t: Tableau, n: nat, cons: seq<Constraint>, objectives: seq<set<nat>>, u: Params, y: seq<int>)
    requires InitialSystem(n, cons).Valid() && IsInitial(t, n, cons, objectives)
    requires |y| == n + |cons| && t.Valid(|y|)
    ensures t.Holds(u, y) <==> InitialSystem(n, cons).Holds(u, y)
  {
    forall r: nat | |objectives| <= r < |t.rows|
      ensures t.Residual(r, u, y) == y[n + r - |objectives|] - InitialSystem(n, cons).Slack(r - |objectives|, u, y)
    {
      InitialRow(t, n, cons, objectives, u, y, r - |objectives|);
    }
    if t.Holds(u, y) {
      forall d | 0 <= d < |cons| ensures y[n + d] == InitialSystem(n, cons).Slack(d, u, y) {
        assert t.Residual(|objectives| + d, u, y) == 0;
      }
    }
  }

  lemma InitialMeasures(t: Tableau, n: nat, cons: seq<Constraint>, objectives: seq<set<nat>>)
    requires InitialSystem(n, cons).Valid() && IsInitial(t, n, cons, objectives)
    ensures Represents(t, InitialSystem(n, cons))
    ensures Measures(t, InitialSystem(n, cons), AllWeights(n, objectives))
  {
    var sys := InitialSystem(n, cons);
    InitialRepresents(t, n, cons, objectives);
    forall u: Params, y: seq<int>, o: nat | |y| == sys.Variables() && o < |objectives|
      ensures t.Residual(o, u, y) == Dot(AllWeights(n, objectives)[o], sys.Starts(u, y))
    {
      var p := [-u.one, -u.s, -u.t];
      assert t.Values(u, y) == p + sys.Starts(u, y);
      DotToShifted(Weights(n, objectives[o]), p, sys.Starts(u, y), n);
    }
  }

  lemma {:induction false} NonNegativeIsLexNonNegative(z: seq<int>)
    requires forall o :: 0 <= o < |z| ==> z[o] >= 0
    ensures LexNonNegative(z)
  {
    if z != [] {
      NonNegativeIsLexNonNegative(z[1..]);
    }
  }

  lemma InitialDualFeasible(t: Tableau, n: nat, cons: seq<Constraint>, objectives: seq<set<nat>>)
    requires InitialSystem(n, cons).Valid() && IsInitial(t, n, cons, objectives) && t.Shape()
    ensures DualFeasible(t, {})
  {
    forall c | PARAMETERS <= c < t.Columns() ensures LexNonNegative(t.Objectives(c)) {
      forall o | 0 <= o < t.nObjectives ensures t.Objectives(c)[o] >= 0 {
        assert t.rows[o] == ObjectiveRow(n, objectives[o]);
      }
      NonNegativeIsLexNonNegative(t.Objectives(c));
    }
  }
}
