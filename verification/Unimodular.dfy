/** The constraint matrix of every reachable tableau has only -1, 0 and 1 entries. */
module Unimodular {
  // Start times are potentials of vertices (with a ground vertex at time 0), and every variable of the homogeneous
  // system is a difference of two of them. Setting one non-basic variable to 1 and the others to 0 determines such
  // potentials; cutting them at a threshold gives 0/1 potentials that agree with a multiple of the same non-basic
  // assignment, and so, the tableau determining everything else, with a multiple of the same point.

  import opened Vectors
  import opened Tableaus

  ghost predicate UnimodularEntries(t: Tableau)
    requires t.Shape()
  {
    forall r, c :: t.nObjectives <= r < |t.rows| && PARAMETERS <= c < t.Columns() ==> -1 <= t.rows[r][c] <= 1
  }

  ghost function UnitVector(n: nat, k: nat): (v: seq<int>)
    ensures |v| == n && forall i :: 0 <= i < n ==> v[i] == if i == k then 1 else 0
  {
    seq(n, i => if i == k then 1 else 0)
  }

  ghost function NegatedColumn(t: Tableau, col: nat): (v: seq<int>)
    requires t.Shape() && col < t.Columns()
    ensures |v| == |t.basic| && forall r :: 0 <= r < |v| ==> v[r] == -t.rows[t.nObjectives + r][col]
  {
    seq(|t.basic|, r requires 0 <= r < |t.basic| => -t.rows[t.nObjectives + r][col])
  }

  /** The solution of the homogeneous rows in which the non-basic variable of column `col` is 1. */
  ghost function UnitPoint(t: Tableau, nVars: nat, col: nat): (y: seq<int>)
    requires t.Valid(nVars) && PARAMETERS <= col < t.Columns()
    ensures |y| == nVars
  {
    Point(t, nVars, UnitVector(|t.nonBasic|, col - PARAMETERS), NegatedColumn(t, col))
  }

  ghost predicate IsUnitPoint(t: Tableau, col: nat, y: seq<int>)
    requires t.Valid(|y|) && PARAMETERS <= col < t.Columns()
  {
    && (forall k :: 0 <= k < |t.nonBasic| ==> y[t.nonBasic[k]] == if k == col - PARAMETERS then 1 else 0)
    && (forall r :: 0 <= r < |t.basic| ==> y[t.basic[r]] == -t.rows[t.nObjectives + r][col])
  }

  /** The values of a homogeneous solution are fixed by one non-basic variable when the others vanish. */
  lemma ColumnDeterminesPoint(t: Tableau, y: seq<int>, col: nat, r: nat)
    requires t.Valid(|y|) && PARAMETERS <= col < t.Columns() && r < |t.basic|
    requires forall k :: 0 <= k < |t.nonBasic| && k != col - PARAMETERS ==> y[t.nonBasic[k]] == 0
    ensures t.Residual(t.nObjectives + r, ZERO_PARAMS, y) ==
            t.rows[t.nObjectives + r][col] * y[t.nonBasic[col - PARAMETERS]] + y[t.basic[r]]
  {
    var v := t.Values(ZERO_PARAMS, y);
    DotToUnit(t.rows[t.nObjectives + r], v, col, |v|);
  }

  lemma PointIsUnit(t: Tableau, col: nat, y: seq<int>, ones: seq<int>, column: seq<int>)
    requires t.Valid(|y|) && PARAMETERS <= col < t.Columns()
    requires ones == UnitVector(|t.nonBasic|, col - PARAMETERS) && column == NegatedColumn(t, col)
    requires forall k :: 0 <= k < |ones| ==> y[t.nonBasic[k]] == ones[k]
    requires forall r :: 0 <= r < |column| ==> y[t.basic[r]] == column[r]
    ensures IsUnitPoint(t, col, y)
  {
  }

  lemma UnitPointIsUnit(t: Tableau, nVars: nat, col: nat)
    requires t.Valid(nVars) && PARAMETERS <= col < t.Columns()
    ensures IsUnitPoint(t, col, UnitPoint(t, nVars, col))
  {
    var ones, column := UnitVector(|t.nonBasic|, col - PARAMETERS), NegatedColumn(t, col);
    PointAt(t, nVars, ones, column);
    PointIsUnit(t, col, UnitPoint(t, nVars, col), ones, column);
  }

  lemma UnitPointHolds(t: Tableau, col: nat, y: seq<int>)
    requires t.Valid(|y|) && PARAMETERS <= col < t.Columns() && IsUnitPoint(t, col, y)
    ensures t.Holds(ZERO_PARAMS, y)
  {
    forall r | t.nObjectives <= r < |t.rows| ensures t.Residual(r, ZERO_PARAMS, y) == 0 {
      ColumnDeterminesPoint(t, y, col, r - t.nObjectives);
    }
  }

  /** The 0/1 potentials that mark the vertices whose potential, up to `sign`, is at least 1. */
  ghost function Cut(sys: System, y: seq<int>, sign: int): (g: seq<int>)
    requires sys.Valid() && |y| == sys.Variables()
    ensures |g| == |y|
  {
    var mark := (i: nat) requires i < sys.n => if sign * y[i] >= 1 then 1 else 0;
    seq(|y|, v requires 0 <= v < |y| =>
      if v < sys.n then mark(v) else mark(sys.cons[v - sys.n].dst) - mark(sys.cons[v - sys.n].src))
  }

  lemma CutHolds(sys: System, y: seq<int>, sign: int)
    requires sys.Valid() && |y| == sys.Variables()
    ensures sys.Holds(ZERO_PARAMS, Cut(sys, y, sign))
    ensures forall v :: 0 <= v < |y| ==> -1 <= Cut(sys, y, sign)[v] <= 1
  {
    var g := Cut(sys, y, sign);
    forall d | 0 <= d < |sys.cons| ensures g[sys.n + d] == sys.Slack(d, ZERO_PARAMS, g) {
      assert sys.Start(sys.cons[d].dst, ZERO_PARAMS, g) == g[sys.cons[d].dst];
      assert sys.Start(sys.cons[d].src, ZERO_PARAMS, g) == g[sys.cons[d].src];
    }
  }

  /** A variable that vanishes at y vanishes at every cut of y. */
  lemma CutVanishes(sys: System, y: seq<int>, sign: int, v: nat)
    requires sys.Valid() && |y| == sys.Variables() && sys.Holds(ZERO_PARAMS, y)
    requires v < |y| && y[v] == 0
    ensures Cut(sys, y, sign)[v] == 0
  {
    if v >= sys.n {
      var d := v - sys.n;
      assert y[sys.n + d] == sys.Slack(d, ZERO_PARAMS, y);
      assert y[sys.cons[d].dst] == y[sys.cons[d].src];
    }
  }

  /** A cut of the unit point is a multiple of the unit point. */
  lemma CutIsMultiple(t: Tableau, sys: System, col: nat, y: seq<int>, sign: int, v: nat)
    requires Represents(t, sys) && PARAMETERS <= col < t.Columns()
    requires |y| == sys.Variables() && sys.Holds(ZERO_PARAMS, y) && IsUnitPoint(t, col, y) && v < |y|
    ensures Cut(sys, y, sign)[v] == Cut(sys, y, sign)[t.nonBasic[col - PARAMETERS]] * y[v]
  {
    var g := Cut(sys, y, sign);
    CutHolds(sys, y, sign);
    assert t.Holds(ZERO_PARAMS, g);
    forall k | 0 <= k < |t.nonBasic| && k != col - PARAMETERS ensures g[t.nonBasic[k]] == 0 {
      CutVanishes(sys, y, sign, t.nonBasic[k]);
    }
    if v in t.nonBasic {
      var k := IndexOf(t.nonBasic, v);
    } else {
      var r := IndexOf(t.basic, v);
      ColumnDeterminesPoint(t, g, col, r);
      assert t.Residual(t.nObjectives + r, ZERO_PARAMS, g) == 0;
    }
  }

  /** Some cut of the unit point separates the variable that is 1: otherwise all potentials would vanish. */
  lemma SomeCutSeparates(t: Tableau, sys: System, col: nat, y: seq<int>) returns (sign: int)
    requires Represents(t, sys) && PARAMETERS <= col < t.Columns()
    requires |y| == sys.Variables() && sys.Holds(ZERO_PARAMS, y) && IsUnitPoint(t, col, y)
    ensures Cut(sys, y, sign)[t.nonBasic[col - PARAMETERS]] != 0
  {
    var e := t.nonBasic[col - PARAMETERS];
    assert y[e] == 1;
    sign := 1;
    if Cut(sys, y, 1)[e] == 0 {
      sign := -1;
      var i := if e < sys.n then e
               else if y[sys.cons[e - sys.n].dst] != 0 then sys.cons[e - sys.n].dst else sys.cons[e - sys.n].src;
      assert e >= sys.n ==> y[sys.n + (e - sys.n)] == sys.Slack(e - sys.n, ZERO_PARAMS, y);
      assert y[i] != 0;
      CutIsMultiple(t, sys, col, y, 1, i);
      CutIsMultiple(t, sys, col, y, -1, i);
    }
  }

  /** Every tableau that represents a system of difference constraints has only -1, 0, 1 entries. */
  lemma RepresentsIsUnimodular(t: Tableau, sys: System)
    requires Represents(t, sys)
    ensures UnimodularEntries(t)
  {
    forall r, col | t.nObjectives <= r < |t.rows| && PARAMETERS <= col < t.Columns()
      ensures -1 <= t.rows[r][col] <= 1
    {
      EntryIsUnimodular(t, sys, r, col);
    }
  }

  lemma EntryIsUnimodular(t: Tableau, sys: System, r: nat, col: nat)
    requires Represents(t, sys) && t.IsConstraintRow(r) && PARAMETERS <= col < t.Columns()
    ensures -1 <= t.rows[r][col] <= 1
  {
    var y := UnitPoint(t, sys.Variables(), col);
    UnitPointIsUnit(t, sys.Variables(), col);
    UnitPointHolds(t, col, y);
    var sign := SomeCutSeparates(t, sys, col, y);
    CutHolds(sys, y, sign);
    CutIsMultiple(t, sys, col, y, sign, t.basic[r - t.nObjectives]);
    UnitFactor(Cut(sys, y, sign)[t.nonBasic[col - PARAMETERS]], y[t.basic[r - t.nObjectives]]);
  }

  lemma UnitFactor(c: int, x: int)
    requires c == 1 || c == -1
    requires -1 <= c * x <= 1
    ensures -1 <= x <= 1
  {
  }

  /** Hence the elements that the source asserts to be 1 or -1 are: any non-zero entry can be pivoted on. */
  lemma NonZeroIsPivot(t: Tableau, sys: System, p: nat, c: nat)
    requires Represents(t, sys) && t.IsConstraintRow(p) && PARAMETERS <= c < t.Columns()
    ensures t.rows[p][c] != 0 <==> t.IsPivot(p, c)
  {
    EntryIsUnimodular(t, sys, p, c);
  }

  /** One basis exchange on some non-zero entry of the matrix. */
  ghost predicate IsPivotStep(t: Tableau, t': Tableau) {
    t.Shape() && exists p: nat, c: nat {:trigger t.IsPivot(p, c)} :: t.IsPivot(p, c) && t' == t.Pivot(p, c)
  }

  /** Whatever entries are pivoted on, and in whatever order, the matrix stays unimodular. */
  lemma {:induction false} RunsStayUnimodular(run: seq<Tableau>, sys: System, i: nat)
    requires i < |run| && Represents(run[0], sys)
    requires forall j :: 0 < j < |run| ==> IsPivotStep(run[j - 1], run[j])
    ensures Represents(run[i], sys) && UnimodularEntries(run[i])
  {
    if i > 0 {
      RunsStayUnimodular(run, sys, i - 1);
      var t := run[i - 1];
      assert IsPivotStep(t, run[i]);
      var p: nat, c: nat :| t.IsPivot(p, c) && run[i] == t.Pivot(p, c);
      PivotRepresents(t, sys, p, c);
    }
    RepresentsIsUnimodular(run[i], sys);
  }
}
