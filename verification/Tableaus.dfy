/** The simplex tableau as a value, and the linear system it stands for. */
module Tableaus {
  // A row stores the three parameter columns (1, S, T) followed by one column for each non-basic variable; the
  // columns of the basic variables form an identity matrix and are not stored. A constraint row reads  sum of A *
  // nonBasic + basic == B . (1, S, T)  and an objective row  z == sum of C * nonBasic - B . (1, S, T).  Both are one
  // dot product with the vector `Values(u, y)`, in which the parameters are negated.

  import opened Vectors

  const PARAMETERS: nat := 3

  /** A value of the parameter vector u = (1, S, T). Systems are read for every `one`, so that `one == 0`
      gives the homogeneous part. */
  datatype Params = Params(one: int, s: int, t: int) {
    function Times(u: Params): int {
      one * u.one + s * u.s + t * u.t
    }
  }

  const ZERO_PARAMS: Params := Params(0, 0, 0)

  // ---------------------------------------------------------------------------------------------
  // The system that a tableau represents
  // ---------------------------------------------------------------------------------------------

  /** start(dst) - start(src) >= latency - distance * T */
  datatype Constraint = Constraint(src: nat, dst: nat, latency: int, distance: int)

  /** `n` start time variables 0..n-1, and one slack variable n + d for each constraint d. The start time
      variable i is stored relative to the affine function `shift[i]` of the parameters. */
  datatype System = System(n: nat, cons: seq<Constraint>, shift: seq<Params>) {
    ghost predicate Valid() {
      && |shift| == n
      && forall d :: 0 <= d < |cons| ==> cons[d].src < n && cons[d].dst < n
    }

    function Variables(): nat { n + |cons| }

    function Start(i: nat, u: Params, y: seq<int>): int
      requires i < |shift| && i < |y|
    {
      y[i] + shift[i].Times(u)
    }

    function Starts(u: Params, y: seq<int>): (times: seq<int>)
      requires Valid() && |y| == Variables()
    {
      seq(n, i requires 0 <= i < n => Start(i, u, y))
    }

    function Slack(d: nat, u: Params, y: seq<int>): int
      requires Valid() && |y| == Variables() && d < |cons|
    {
      Start(cons[d].dst, u, y) - Start(cons[d].src, u, y) - cons[d].latency * u.one + cons[d].distance * u.t
    }

    /** Every slack variable is what its constraint leaves over. */
    ghost predicate Holds(u: Params, y: seq<int>)
      requires Valid() && |y| == Variables()
    {
      forall d :: 0 <= d < |cons| ==> y[n + d] == Slack(d, u, y)
    }
  }

  // ---------------------------------------------------------------------------------------------
  // The tableau
  // ---------------------------------------------------------------------------------------------

  datatype Tableau = Tableau(rows: seq<seq<int>>, nonBasic: seq<nat>, basic: seq<nat>, nObjectives: nat) {
    function Columns(): nat { PARAMETERS + |nonBasic| }

    predicate Shape() {
      && |rows| == nObjectives + |basic|
      && forall r :: 0 <= r < |rows| ==> |rows[r]| == Columns()
    }

    /** Each of the `nVars` variables sits in exactly one place. */
    ghost predicate Partition(nVars: nat) {
      && (forall k :: 0 <= k < |nonBasic| ==> nonBasic[k] < nVars)
      && (forall r :: 0 <= r < |basic| ==> basic[r] < nVars)
      && (forall j, k :: 0 <= j < k < |nonBasic| ==> nonBasic[j] != nonBasic[k])
      && (forall q, r :: 0 <= q < r < |basic| ==> basic[q] != basic[r])
      && (forall k, r :: 0 <= k < |nonBasic| && 0 <= r < |basic| ==> nonBasic[k] != basic[r])
      && (forall v :: 0 <= v < nVars ==> v in nonBasic || v in basic)
    }

    ghost predicate Valid(nVars: nat) {
      Shape() && Partition(nVars)
    }

    predicate IsConstraintRow(r: nat) {
      nObjectives <= r < |rows|
    }

    function Values(u: Params, y: seq<int>): (v: seq<int>)
      requires forall k :: 0 <= k < |nonBasic| ==> nonBasic[k] < |y|
      ensures |v| == Columns()
    {
      [-u.one, -u.s, -u.t] + seq(|nonBasic|, k requires 0 <= k < |nonBasic| => y[nonBasic[k]])
    }

    /** What row `r` evaluates to: the objective value, or what has to vanish for the constraint to hold. */
    function Residual(r: nat, u: Params, y: seq<int>): int
      requires Valid(|y|) && r < |rows|
    {
      Dot(rows[r], Values(u, y)) + (if r < nObjectives then 0 else y[basic[r - nObjectives]])
    }

    ghost predicate Holds(u: Params, y: seq<int>)
      requires Valid(|y|)
    {
      forall r :: nObjectives <= r < |rows| ==> Residual(r, u, y) == 0
    }

    /** B[r] . u */
    function Constant(r: nat, u: Params): int
      requires Shape() && r < |rows|
    {
      rows[r][0] * u.one + rows[r][1] * u.s + rows[r][2] * u.t
    }

    /** The column of the cost matrix. */
    function Objectives(col: nat): (v: seq<int>)
      requires Shape() && col < Columns()
      ensures |v| == nObjectives
    {
      seq(nObjectives, o requires 0 <= o < nObjectives => rows[o][col])
    }

    function ObjectiveValues(u: Params, y: seq<int>): (z: seq<int>)
      requires Valid(|y|)
      ensures |z| == nObjectives
    {
      seq(nObjectives, o requires 0 <= o < nObjectives => Residual(o, u, y))
    }

    predicate IsPivot(p: nat, c: nat)
      requires Shape()
    {
      && IsConstraintRow(p) && PARAMETERS <= c < Columns()
      && rows[p][c] * rows[p][c] == 1
    }

    /** The pivot row after the exchange; note that a pivot element is its own inverse. */
    function PivotRow(p: nat, c: nat): (row: seq<int>)
      requires Shape() && IsPivot(p, c)
      ensures |row| == Columns()
    {
      Scale(rows[p][c], rows[p])
    }

    /** One row after the exchange: the pivot column is cleared, and the column that the leaving variable had
        in the elided identity matrix takes its place. */
    function PivotedRow(p: nat, c: nat, r: nat): (row: seq<int>)
      requires Shape() && IsPivot(p, c) && r < |rows|
      ensures |row| == Columns()
    {
      if r == p then PivotRow(p, c)[c := rows[p][c]]
      else AddScaled(rows[r], -rows[r][c], PivotRow(p, c))[c := -rows[r][c] * rows[p][c]]
    }

    function Pivot(p: nat, c: nat): (t: Tableau)
      requires Shape() && IsPivot(p, c)
      ensures t.Shape() && |t.rows| == |rows| && |t.nonBasic| == |nonBasic| && |t.basic| == |basic|
    {
      Tableau(
        seq(|rows|, r requires 0 <= r < |rows| => PivotedRow(p, c, r)),
        nonBasic[c - PARAMETERS := basic[p - nObjectives]],
        basic[p - nObjectives := nonBasic[c - PARAMETERS]],
        nObjectives)
    }

    /** Substitutes  x = x' + f . u  for the variable of column `col`. */
    function Translate(col: nat, f: Params): (t: Tableau)
      requires Shape() && PARAMETERS <= col < Columns()
      ensures t.Shape()
    {
      this.(rows := seq(|rows|, r requires 0 <= r < |rows| => TranslatedRow(rows[r], col, f)))
    }

    /** Substitutes  S = step  by moving the S column into the constant column. */
    function FixS(step: int): (t: Tableau)
      requires Shape()
      ensures t.Shape()
    {
      this.(rows := seq(|rows|, r requires 0 <= r < |rows| => FixedRow(rows[r], step)))
    }
  }

  function TranslatedRow(row: seq<int>, col: nat, f: Params): (r: seq<int>)
    requires PARAMETERS <= |row| && col < |row|
    ensures |r| == |row|
  {
    row[0 := row[0] - row[col] * f.one][1 := row[1] - row[col] * f.s][2 := row[2] - row[col] * f.t]
  }

  function FixedRow(row: seq<int>, step: int): (r: seq<int>)
    requires PARAMETERS <= |row|
    ensures |r| == |row|
  {
    row[0 := row[0] + row[1] * step][1 := 0]
  }

  ghost function IndexOf(s: seq<nat>, v: nat): (i: nat)
    requires v in s
    ensures i < |s| && s[i] == v
  {
    var i :| 0 <= i < |s| && s[i] == v;
    i
  }

  /** The point that gives the non-basic variables the values `nb`, and the basic variables the values `b`. */
  ghost function Point(t: Tableau, nVars: nat, nb: seq<int>, b: seq<int>): (y: seq<int>)
    requires |nb| == |t.nonBasic| && |b| == |t.basic|
    ensures |y| == nVars
  {
    seq(nVars, v requires 0 <= v < nVars =>
      if v in t.nonBasic then nb[IndexOf(t.nonBasic, v)]
      else if v in t.basic then b[IndexOf(t.basic, v)] else 0)
  }

  lemma PointAt(t: Tableau, nVars: nat, nb: seq<int>, b: seq<int>)
    requires t.Partition(nVars) && |nb| == |t.nonBasic| && |b| == |t.basic|
    ensures forall k :: 0 <= k < |nb| ==> Point(t, nVars, nb, b)[t.nonBasic[k]] == nb[k]
    ensures forall r :: 0 <= r < |b| ==> Point(t, nVars, nb, b)[t.basic[r]] == b[r]
  {
    forall k | 0 <= k < |nb| ensures Point(t, nVars, nb, b)[t.nonBasic[k]] == nb[k] {
      var i := IndexOf(t.nonBasic, t.nonBasic[k]);
      assert i == k;
    }
    forall r | 0 <= r < |b| ensures Point(t, nVars, nb, b)[t.basic[r]] == b[r] {
      assert t.basic[r] !in t.nonBasic;
      var i := IndexOf(t.basic, t.basic[r]);
      assert i == r;
    }
  }

  /** The central invariant: for every value of the parameters, the tableau has the solutions of the system. */
  ghost predicate Represents(tab: Tableau, sys: System) {
    && sys.Valid() && tab.Valid(sys.Variables())
    && |tab.nonBasic| == sys.n
    && forall u: Params, y: seq<int> :: |y| == sys.Variables() ==> (tab.Holds(u, y) <==> sys.Holds(u, y))
  }

  /** On every solution, objective row `o` evaluates to the weighted sum of start times. */
  ghost predicate Measures(tab: Tableau, sys: System, weights: seq<seq<int>>)
    requires Represents(tab, sys)
  {
    && |weights| == tab.nObjectives
    && (forall o :: 0 <= o < |weights| ==> |weights[o]| == sys.n)
    && forall u: Params, y: seq<int>, o: nat :: |y| == sys.Variables() && o < |weights| && sys.Holds(u, y) ==>
         tab.Residual(o, u, y) == Dot(weights[o], sys.Starts(u, y))
  }

  // ---------------------------------------------------------------------------------------------
  // Pivoting
  // ---------------------------------------------------------------------------------------------

  lemma PivotKeepsPartition(t: Tableau, p: nat, c: nat, nVars: nat)
    requires t.Valid(nVars) && t.IsPivot(p, c)
    ensures t.Pivot(p, c).Valid(nVars)
  {
    var t' := t.Pivot(p, c);
    forall v | 0 <= v < nVars ensures v in t'.nonBasic || v in t'.basic {
      if v in t.nonBasic {
        var k :| 0 <= k < |t.nonBasic| && t.nonBasic[k] == v;
        if k == c - PARAMETERS {
          assert t'.basic[p - t.nObjectives] == v;
        } else {
          assert t'.nonBasic[k] == v;
        }
      } else {
        var r :| 0 <= r < |t.basic| && t.basic[r] == v;
        if r == p - t.nObjectives {
          assert t'.nonBasic[c - PARAMETERS] == v;
        } else {
          assert t'.basic[r] == v;
        }
      }
    }
  }

  /** Scaling the pivot row by its own pivot element, and exchanging its column. */
  lemma PivotRowDot(row: seq<int>, v: seq<int>, c: nat, x: int)
    requires |row| == |v| && c < |row| && row[c] * row[c] == 1
    ensures Dot(Scale(row[c], row)[c := row[c]], v[c := x]) + v[c] == row[c] * (Dot(row, v) + x)
  {
    var e := row[c];
    DotToScale(e, row, v, |row|);
    DotToUpdate(Scale(e, row), v, c, e, x, |row|);
    assert e * (Dot(row, v) + x) == e * Dot(row, v) + e * x;
    assert Scale(e, row)[c] * v[c] == v[c];
  }

  lemma Regroup(a: int, e: int, d: int, x: int)
    ensures -a * (e * d) + -a * e * x == -(a * e * (d + x))
  {
    assert a * e * (d + x) == a * e * d + a * e * x;
    assert a * e * d == a * (e * d);
  }

  /** Clearing the pivot column of another row, and exchanging its column. */
  lemma OtherRowDot(row: seq<int>, prow: seq<int>, v: seq<int>, c: nat, x: int)
    requires |row| == |prow| == |v| && c < |row| && prow[c] * prow[c] == 1
    ensures Dot(AddScaled(row, -row[c], Scale(prow[c], prow))[c := -row[c] * prow[c]], v[c := x])
            == Dot(row, v) - row[c] * prow[c] * (Dot(prow, v) + x)
  {
    var scaled := Scale(prow[c], prow);
    var sum := AddScaled(row, -row[c], scaled);
    DotToScale(prow[c], prow, v, |row|);
    DotToAddScaled(row, -row[c], scaled, v, |row|);
    assert sum[c] == row[c] + -row[c] * scaled[c] == 0;
    DotToUpdate(sum, v, c, -row[c] * prow[c], x, |row|);
    assert Dot(sum[c := -row[c] * prow[c]], v[c := x]) == Dot(sum, v) + -row[c] * prow[c] * x;
    Regroup(row[c], prow[c], Dot(prow, v), x);
  }

  /** How a pivot changes what each row evaluates to: the pivot row up to sign, the others by a multiple of it. */
  lemma PivotResidual(t: Tableau, p: nat, c: nat, u: Params, y: seq<int>, r: nat)
    requires t.Valid(|y|) && t.IsPivot(p, c) && r < |t.rows|
    ensures t.Pivot(p, c).Valid(|y|)
    ensures t.Pivot(p, c).Residual(r, u, y) ==
            if r == p then t.rows[p][c] * t.Residual(p, u, y)
            else t.Residual(r, u, y) - t.rows[r][c] * t.rows[p][c] * t.Residual(p, u, y)
  {
    PivotKeepsPartition(t, p, c, |y|);
    var t' := t.Pivot(p, c);
    var entering, leaving := t.nonBasic[c - PARAMETERS], t.basic[p - t.nObjectives];
    var v := t.Values(u, y);
    assert t'.Values(u, y) == v[c := y[leaving]];
    assert v[c] == y[entering];
    assert t'.rows[r] == t.PivotedRow(p, c, r);
    if r == p {
      PivotRowDot(t.rows[p], v, c, y[leaving]);
    } else {
      OtherRowDot(t.rows[r], t.rows[p], v, c, y[leaving]);
    }
  }

  lemma PivotHolds(t: Tableau, p: nat, c: nat, u: Params, y: seq<int>)
    requires t.Valid(|y|) && t.IsPivot(p, c)
    ensures t.Pivot(p, c).Valid(|y|)
    ensures t.Pivot(p, c).Holds(u, y) <==> t.Holds(u, y)
  {
    var t' := t.Pivot(p, c);
    forall r: nat | r < |t.rows|
      ensures t'.Valid(|y|)
      ensures t'.Residual(r, u, y) ==
              if r == p then t.rows[p][c] * t.Residual(p, u, y)
              else t.Residual(r, u, y) - t.rows[r][c] * t.rows[p][c] * t.Residual(p, u, y)
    {
      PivotResidual(t, p, c, u, y, r);
    }
    PivotKeepsPartition(t, p, c, |y|);
    if t'.Holds(u, y) {
      assert t'.Residual(p, u, y) == 0;
      assert t.Residual(p, u, y) == 0;
      assert forall r :: t.nObjectives <= r < |t.rows| ==> t'.Residual(r, u, y) == 0;
    }
    if t.Holds(u, y) {
      assert t.Residual(p, u, y) == 0;
    }
  }

  /** A pivot keeps the solutions for every value of the parameters. */
  lemma PivotRepresents(t: Tableau, sys: System, p: nat, c: nat)
    requires Represents(t, sys) && t.IsPivot(p, c)
    ensures Represents(t.Pivot(p, c), sys)
  {
    PivotKeepsPartition(t, p, c, sys.Variables());
    forall u: Params, y: seq<int> | |y| == sys.Variables()
      ensures t.Pivot(p, c).Holds(u, y) <==> sys.Holds(u, y)
    {
      PivotHolds(t, p, c, u, y);
      assert t.Holds(u, y) <==> sys.Holds(u, y);
    }
  }

  lemma PivotMeasures(t: Tableau, sys: System, weights: seq<seq<int>>, p: nat, c: nat)
    requires Represents(t, sys) && Measures(t, sys, weights) && t.IsPivot(p, c)
    ensures Represents(t.Pivot(p, c), sys) && Measures(t.Pivot(p, c), sys, weights)
  {
    PivotRepresents(t, sys, p, c);
    forall u: Params, y: seq<int>, o: nat | |y| == sys.Variables() && o < |weights| && sys.Holds(u, y)
      ensures t.Pivot(p, c).Residual(o, u, y) == Dot(weights[o], sys.Starts(u, y))
    {
      PivotResidual(t, p, c, u, y, o);
      assert t.Holds(u, y);
      assert t.Residual(p, u, y) == 0;
    }
  }
}
