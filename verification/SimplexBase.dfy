/** The lexico-parametric dual simplex solver. */
module SimplexBase {
  // Each method updates the tableau in place as the source does, and is specified by the operations on
  // `Tableaus.Tableau`; what those mean is proved in the modules above. No anti-cycling rule guards the two solving
  // loops, so they take `fuel`, a bound on the number of iterations.

  import opened Options
  import opened Vectors
  import opened Tableaus
  import opened LinearProgram
  import opened Schedules
  import opened Unimodular
  import opened SimplexTheory
  import opened Unbounded
  import opened InitialTableau
  import opened Freezing

  /** `Aborted` stands for a failing assertion of the source, `OutOfFuel` for a run that has not ended yet. */
  datatype Outcome = Solved | Infeasible | Aborted | OutOfFuel

  class SimplexSchedulerBase {
    var parameterS: int
    var parameterT: int
    var tableau: seq<seq<int>>
    var implicitBasicVariableColumnVector: seq<int>
    var nonBasicVariables: seq<nat>
    var basicVariables: seq<nat>
    var startTimeLocations: seq<int>
    var frozenVariables: map<nat, nat>
    var nObjectives: nat
    var nColumns: nat

    /** The system that the tableau represents, and the start time weights that its objective rows minimise. */
    ghost var sys: System
    ghost var weights: seq<seq<int>>

    function Tab(): Tableau
      reads this
    {
      Tableau(tableau, nonBasicVariables, basicVariables, nObjectives)
    }

    function U(): Params
      reads this
    {
      Params(1, parameterS, parameterT)
    }

    /** The invariant of every step, including the steps in the middle of freezing a variable. */
    ghost predicate Consistent()
      reads this
    {
      && Represents(Tab(), sys)
      && Measures(Tab(), sys, weights)
      && nObjectives >= 1
      && nColumns == Tab().Columns()
      && implicitBasicVariableColumnVector == Zeros(|tableau|)
      && |startTimeLocations| == sys.n
      && (forall i :: 0 <= i < sys.n ==> Locates(Tab(), startTimeLocations[i], i))
      && (forall v :: v in frozenVariables ==> v < sys.n)
    }

    ghost predicate Valid()
      reads this
    {
      Consistent() && forall v :: v in frozenVariables ==> v in nonBasicVariables
    }

    /** Frozen operations are shifted to their time step, and S has been replaced by it. */
    ghost predicate Settled()
      reads this
    {
      parameterS == 0 && IsSettled(sys, frozenVariables)
    }

    // -------------------------------------------------------------------------------------------
    // Construction
    // -------------------------------------------------------------------------------------------

    constructor (s: int, t: int)
      ensures parameterS == s && parameterT == t && IsEmpty()
    {
      parameterS, parameterT := s, t;
      tableau, implicitBasicVariableColumnVector := [], [];
      nonBasicVariables, basicVariables, startTimeLocations := [], [], [];
      frozenVariables := map[];
      nObjectives, nColumns := 0, 0;
    }

    predicate IsEmpty()
      reads this
    {
      && tableau == [] && implicitBasicVariableColumnVector == []
      && nonBasicVariables == [] && basicVariables == [] && startTimeLocations == []
      && frozenVariables == map[] && nObjectives == 0
    }

    /** Operation i gets start time variable i; each objective is the sum of the start times of a set of operations. */
    method BuildTableau(n: nat, cons: seq<Constraint>, objectives: seq<set<nat>>)
      requires IsEmpty() && InitialSystem(n, cons).Valid() && |objectives| >= 1 && parameterS == 0
      modifies this
      ensures parameterS == old(parameterS) && parameterT == old(parameterT)
      ensures Valid() && Settled() && frozenVariables == map[] && IsInitial(Tab(), n, cons, objectives)
      ensures sys == InitialSystem(n, cons) && weights == AllWeights(n, objectives)
      ensures DualFeasible(Tab(), frozenVariables.Keys)
      ensures (forall d :: 0 <= d < |cons| ==> cons[d].distance == 0) ==> FreeOfT(Tab())
    {
      NumberVariables(n);
      AddObjectiveRows(n, objectives);
      AddConstraintRows(n, cons);
      sys, weights := InitialSystem(n, cons), AllWeights(n, objectives);
      InitialMeasures(Tab(), n, cons, objectives);
      InitialDualFeasible(Tab(), n, cons, objectives);
      InitialIsFreeOfT(Tab(), n, cons, objectives);
      assert frozenVariables.Keys == {};
    }

    method NumberVariables(n: nat)
      requires IsEmpty()
      modifies this`nonBasicVariables, this`startTimeLocations, this`nColumns
      ensures |nonBasicVariables| == |startTimeLocations| == n && nColumns == PARAMETERS + n
      ensures forall i :: 0 <= i < n ==> nonBasicVariables[i] == i && startTimeLocations[i] == PARAMETERS + i
    {
      var variable := 0;
      while variable < n
        invariant variable <= n && |nonBasicVariables| == |startTimeLocations| == variable
        invariant forall i :: 0 <= i < variable ==> nonBasicVariables[i] == i && startTimeLocations[i] == PARAMETERS + i
      {
        nonBasicVariables := nonBasicVariables + [variable];
        startTimeLocations := startTimeLocations + [PARAMETERS + variable];
        variable := variable + 1;
      }
      nColumns := PARAMETERS + |nonBasicVariables|;
    }

    method AddObjectiveRows(n: nat, objectives: seq<set<nat>>)
      requires tableau == [] && implicitBasicVariableColumnVector == [] && nObjectives == 0
      requires nColumns == PARAMETERS + n && |startTimeLocations| == n
      requires forall i :: 0 <= i < n ==> startTimeLocations[i] == PARAMETERS + i
      modifies this`tableau, this`implicitBasicVariableColumnVector, this`nObjectives
      ensures nObjectives == |tableau| == |objectives| && implicitBasicVariableColumnVector == Zeros(|tableau|)
      ensures forall o :: 0 <= o < |objectives| ==> tableau[o] == ObjectiveRow(n, objectives[o])
    {
      while nObjectives < |objectives|
        invariant nObjectives == |tableau| <= |objectives| && implicitBasicVariableColumnVector == Zeros(|tableau|)
        invariant forall o :: 0 <= o < nObjectives ==> tableau[o] == ObjectiveRow(n, objectives[o])
      {
        var row := FillObjectiveRow(n, objectives[nObjectives]);
        implicitBasicVariableColumnVector := implicitBasicVariableColumnVector + [0];
        tableau := tableau + [row];
        nObjectives := nObjectives + 1;
      }
    }

    method FillObjectiveRow(n: nat, objective: set<nat>) returns (row: seq<int>)
      requires nColumns == PARAMETERS + n && |startTimeLocations| == n
      requires forall i :: 0 <= i < n ==> startTimeLocations[i] == PARAMETERS + i
      ensures row == ObjectiveRow(n, objective)
    {
      row := seq(nColumns, i => 0);
      for op := 0 to n
        invariant |row| == nColumns && row[0] == row[1] == row[2] == 0
        invariant forall c :: PARAMETERS <= c < nColumns ==>
                    row[c] == if c - PARAMETERS < op && c - PARAMETERS in objective then 1 else 0
      {
        if op in objective {
          row := row[startTimeLocations[op] := 1];
        }
      }
      assert row == ObjectiveRow(n, objective);
    }

    method AddConstraintRows(n: nat, cons: seq<Constraint>)
      requires InitialSystem(n, cons).Valid() && basicVariables == []
      requires implicitBasicVariableColumnVector == Zeros(|tableau|)
      requires nColumns == PARAMETERS + n && |startTimeLocations| == n
      requires forall i :: 0 <= i < n ==> startTimeLocations[i] == PARAMETERS + i
      modifies this`tableau, this`implicitBasicVariableColumnVector, this`basicVariables
      ensures |tableau| == |old(tableau)| + |cons| && old(tableau) <= tableau
      ensures implicitBasicVariableColumnVector == Zeros(|tableau|)
      ensures forall d :: 0 <= d < |cons| ==> tableau[|old(tableau)| + d] == ConstraintRow(n, cons[d])
      ensures |basicVariables| == |cons| && forall d :: 0 <= d < |cons| ==> basicVariables[d] == n + d
    {
      var d := 0;
      while d < |cons|
        invariant d <= |cons| && |tableau| == |old(tableau)| + d && old(tableau) <= tableau
        invariant implicitBasicVariableColumnVector == Zeros(|tableau|)
        invariant forall c :: 0 <= c < d ==> tableau[|old(tableau)| + c] == ConstraintRow(n, cons[c])
        invariant |basicVariables| == d && forall c :: 0 <= c < d ==> basicVariables[c] == n + c
      {
        var row := FillConstraintRow(n, cons[d]);
        implicitBasicVariableColumnVector := implicitBasicVariableColumnVector + [0];
        tableau := tableau + [row];
        basicVariables := basicVariables + [n + d];
        d := d + 1;
      }
    }

    method FillConstraintRow(n: nat, con: Constraint) returns (row: seq<int>)
      requires con.src < n && con.dst < n && nColumns == PARAMETERS + n && |startTimeLocations| == n
      requires forall i :: 0 <= i < n ==> startTimeLocations[i] == PARAMETERS + i
      ensures row == ConstraintRow(n, con)
    {
      row := seq(nColumns, i => 0);
      row := row[0 := -con.latency];
      if con.src != con.dst {
        row := row[startTimeLocations[con.src] := 1];
        row := row[startTimeLocations[con.dst] := -1];
      }
      row := row[2 := con.distance];
    }

    // -------------------------------------------------------------------------------------------
    // Row operations
    // -------------------------------------------------------------------------------------------

    method MultiplyRow(row: nat, factor: int)
      requires Tab().Shape() && nColumns == Tab().Columns() && |implicitBasicVariableColumnVector| == |tableau|
      requires row < |tableau| && factor != 0
      modifies this`tableau, this`implicitBasicVariableColumnVector
      ensures tableau == old(tableau)[row := Scale(factor, old(tableau)[row])]
      ensures implicitBasicVariableColumnVector == old(implicitBasicVariableColumnVector)[row :=
                old(implicitBasicVariableColumnVector)[row] * factor]
    {
      var col := 0;
      while col < nColumns
        invariant col <= nColumns && |tableau| == |old(tableau)| && |tableau[row]| == nColumns
        invariant tableau == old(tableau)[row := tableau[row]]
        invariant forall c :: 0 <= c < col ==> tableau[row][c] == factor * old(tableau)[row][c]
        invariant forall c :: col <= c < nColumns ==> tableau[row][c] == old(tableau)[row][c]
        invariant implicitBasicVariableColumnVector == old(implicitBasicVariableColumnVector)
      {
        tableau := tableau[row := tableau[row][col := tableau[row][col] * factor]];
        col := col + 1;
      }
      assert tableau[row] == Scale(factor, old(tableau)[row]);
      implicitBasicVariableColumnVector := implicitBasicVariableColumnVector[row :=
        implicitBasicVariableColumnVector[row] * factor];
    }

    method AddMultipleOfRow(sourceRow: nat, factor: int, targetRow: nat)
      requires Tab().Shape() && nColumns == Tab().Columns() && |implicitBasicVariableColumnVector| == |tableau|
      requires sourceRow < |tableau| && targetRow < |tableau| && factor != 0 && sourceRow != targetRow
      modifies this`tableau, this`implicitBasicVariableColumnVector
      ensures tableau == old(tableau)[targetRow :=
                AddScaled(old(tableau)[targetRow], factor, old(tableau)[sourceRow])]
      ensures implicitBasicVariableColumnVector == old(implicitBasicVariableColumnVector)[targetRow :=
                old(implicitBasicVariableColumnVector)[targetRow]
                + old(implicitBasicVariableColumnVector)[sourceRow] * factor]
    {
      var col := 0;
      while col < nColumns
        invariant col <= nColumns && |tableau| == |old(tableau)| && |tableau[targetRow]| == nColumns
        invariant tableau == old(tableau)[targetRow := tableau[targetRow]]
        invariant forall c :: 0 <= c < col ==>
                    tableau[targetRow][c] == old(tableau)[targetRow][c] + factor * old(tableau)[sourceRow][c]
        invariant forall c :: col <= c < nColumns ==> tableau[targetRow][c] == old(tableau)[targetRow][c]
        invariant implicitBasicVariableColumnVector == old(implicitBasicVariableColumnVector)
      {
        tableau := tableau[targetRow :=
          tableau[targetRow][col := tableau[targetRow][col] + tableau[sourceRow][col] * factor]];
        col := col + 1;
      }
      assert tableau[targetRow] == AddScaled(old(tableau)[targetRow], factor, old(tableau)[sourceRow]);
      implicitBasicVariableColumnVector := implicitBasicVariableColumnVector[targetRow :=
        implicitBasicVariableColumnVector[targetRow] + implicitBasicVariableColumnVector[sourceRow] * factor];
    }

    // -------------------------------------------------------------------------------------------
    // Basis exchange
    // -------------------------------------------------------------------------------------------

    /** Makes the pivot column a unit vector, swaps in the column of the leaving variable, and records the swap. */
    method PivotAt(pivotRow: nat, pivotColumn: nat)
      requires Consistent() && Tab().IsPivot(pivotRow, pivotColumn)
      modifies this`tableau, this`implicitBasicVariableColumnVector, this`nonBasicVariables, this`basicVariables,
               this`startTimeLocations
      ensures Tab() == old(Tab()).Pivot(pivotRow, pivotColumn)
      ensures Consistent()
    {
      ghost var before := Tab();
      PivotRows(pivotRow, pivotColumn);
      SwapVariables(before, pivotRow, pivotColumn);
      PivotMeasures(before, sys, weights, pivotRow, pivotColumn);
    }

    method PivotRows(pivotRow: nat, pivotColumn: nat)
      requires Tab().Shape() && Tab().IsPivot(pivotRow, pivotColumn) && nColumns == Tab().Columns()
      requires implicitBasicVariableColumnVector == Zeros(|tableau|)
      modifies this`tableau, this`implicitBasicVariableColumnVector
      ensures tableau == old(Tab()).Pivot(pivotRow, pivotColumn).rows
      ensures implicitBasicVariableColumnVector == Zeros(|tableau|)
    {
      ghost var before := Tab();
      var pivotElem := tableau[pivotRow][pivotColumn];
      implicitBasicVariableColumnVector := implicitBasicVariableColumnVector[pivotRow := 1];
      UnitSquare(pivotElem);
      MultiplyRow(pivotRow, 1 / pivotElem);
      Eliminate(before, pivotRow, pivotColumn);
      SwapColumn(before, pivotRow, pivotColumn);
    }

    method SwapVariables(ghost before: Tableau, pivotRow: nat, pivotColumn: nat)
      requires before.Shape() && before.IsPivot(pivotRow, pivotColumn)
      requires before.nonBasic == nonBasicVariables && before.basic == basicVariables
      requires before.nObjectives == nObjectives
      requires nonBasicVariables[pivotColumn - PARAMETERS] != basicVariables[pivotRow - nObjectives]
      requires nObjectives >= 1
      requires forall i :: 0 <= i < |startTimeLocations| ==> Locates(before, startTimeLocations[i], i)
      modifies this`nonBasicVariables, this`basicVariables, this`startTimeLocations
      ensures nonBasicVariables == before.Pivot(pivotRow, pivotColumn).nonBasic
      ensures basicVariables == before.Pivot(pivotRow, pivotColumn).basic
      ensures |startTimeLocations| == |old(startTimeLocations)|
      ensures forall i :: 0 <= i < |startTimeLocations| ==>
                Locates(before.Pivot(pivotRow, pivotColumn), startTimeLocations[i], i)
    {
      var nonBasicVar := nonBasicVariables[pivotColumn - PARAMETERS];
      var basicVar := basicVariables[pivotRow - nObjectives];
      if nonBasicVar < |startTimeLocations| {
        startTimeLocations := startTimeLocations[nonBasicVar := 0 - pivotRow];
      }
      if basicVar < |startTimeLocations| {
        startTimeLocations := startTimeLocations[basicVar := pivotColumn];
      }
      nonBasicVariables := nonBasicVariables[pivotColumn - PARAMETERS := basicVar];
      basicVariables := basicVariables[pivotRow - nObjectives := nonBasicVar];
      forall i | 0 <= i < |startTimeLocations|
        ensures Locates(before.Pivot(pivotRow, pivotColumn), startTimeLocations[i], i)
      {
        assert Locates(before, old(startTimeLocations)[i], i);
      }
    }

    /** Clears the pivot column in all rows but the pivot row, which has been scaled already. */
    method Eliminate(ghost before: Tableau, pivotRow: nat, pivotColumn: nat)
      requires Tab().Shape() && nColumns == Tab().Columns() && |implicitBasicVariableColumnVector| == |tableau|
      requires before.Shape() && before.IsPivot(pivotRow, pivotColumn)
      requires Tab() == before.(rows := tableau) && |tableau| == |before.rows|
      requires tableau == before.rows[pivotRow := before.PivotRow(pivotRow, pivotColumn)]
      requires implicitBasicVariableColumnVector == Zeros(|tableau|)[pivotRow := before.rows[pivotRow][pivotColumn]]
      modifies this`tableau, this`implicitBasicVariableColumnVector
      ensures |tableau| == |before.rows| == |implicitBasicVariableColumnVector|
      ensures tableau[pivotRow] == before.PivotRow(pivotRow, pivotColumn)
      ensures implicitBasicVariableColumnVector[pivotRow] == before.rows[pivotRow][pivotColumn]
      ensures forall r :: 0 <= r < |tableau| && r != pivotRow ==>
                && tableau[r] == AddScaled(before.rows[r], -before.rows[r][pivotColumn],
                                           before.PivotRow(pivotRow, pivotColumn))
                && implicitBasicVariableColumnVector[r]
                   == -before.rows[r][pivotColumn] * before.rows[pivotRow][pivotColumn]
    {
      ghost var pr := before.PivotRow(pivotRow, pivotColumn);
      ghost var e := before.rows[pivotRow][pivotColumn];
      var row := 0;
      while row < |tableau|
        invariant row <= |tableau| == |before.rows| == |implicitBasicVariableColumnVector|
        invariant Tab().Shape()
        invariant tableau[pivotRow] == pr && implicitBasicVariableColumnVector[pivotRow] == e
        invariant forall r :: 0 <= r < row && r != pivotRow ==>
                    && tableau[r] == AddScaled(before.rows[r], -before.rows[r][pivotColumn], pr)
                    && implicitBasicVariableColumnVector[r] == -before.rows[r][pivotColumn] * e
        invariant forall r :: row <= r < |tableau| && r != pivotRow ==>
                    tableau[r] == before.rows[r] && implicitBasicVariableColumnVector[r] == 0
      {
        if row != pivotRow {
          var elem := tableau[row][pivotColumn];
          if elem == 0 {
            assert AddScaled(before.rows[row], 0, pr) == before.rows[row];
          } else {
            AddMultipleOfRow(pivotRow, -elem, row);
            assert implicitBasicVariableColumnVector[row] == 0 + e * -elem;
          }
        }
        row := row + 1;
      }
    }

    method SwapColumn(ghost before: Tableau, pivotRow: nat, pivotColumn: nat)
      requires Tab().Shape() && |implicitBasicVariableColumnVector| == |tableau|
      requires before.Shape() && before.IsPivot(pivotRow, pivotColumn)
      requires Tab() == before.(rows := tableau) && |tableau| == |before.rows|
      requires forall r :: 0 <= r < |tableau| ==>
                 tableau[r][pivotColumn := implicitBasicVariableColumnVector[r]]
                 == before.PivotedRow(pivotRow, pivotColumn, r)
      modifies this`tableau, this`implicitBasicVariableColumnVector
      ensures tableau == before.Pivot(pivotRow, pivotColumn).rows
      ensures implicitBasicVariableColumnVector == Zeros(|tableau|)
    {
      var row := 0;
      while row < |tableau|
        invariant row <= |tableau| == |before.rows| == |implicitBasicVariableColumnVector|
        invariant Tab().Shape()
        invariant forall r :: 0 <= r < row ==>
                    && tableau[r] == before.PivotedRow(pivotRow, pivotColumn, r)
                    && implicitBasicVariableColumnVector[r] == 0
        invariant forall r :: row <= r < |tableau| ==>
                    tableau[r][pivotColumn := implicitBasicVariableColumnVector[r]]
                    == before.PivotedRow(pivotRow, pivotColumn, r)
      {
        tableau := tableau[row := tableau[row][pivotColumn := implicitBasicVariableColumnVector[row]]];
        implicitBasicVariableColumnVector := implicitBasicVariableColumnVector[row := 0];
        row := row + 1;
      }
    }

    // -------------------------------------------------------------------------------------------
    // Selecting pivots
    // -------------------------------------------------------------------------------------------

    function GetParametricConstant(row: nat): int
      requires Tab().Shape() && row < |tableau|
      reads this
    {
      tableau[row][0] + tableau[row][1] * parameterS + tableau[row][2] * parameterT
    }

    method FindDualPivotRow() returns (pivotRow: Option<nat>)
      requires Tab().Shape()
      ensures pivotRow.None? ==> PrimalFeasible(Tab(), U())
      ensures pivotRow.Some? ==> IsFirstNegativeRow(Tab(), U(), pivotRow.value)
    {
      for row := nObjectives to |tableau|
        invariant forall r :: nObjectives <= r < row ==> Tab().Constant(r, U()) >= 0
      {
        if GetParametricConstant(row) < 0 {
          return Some(row);
        }
      }
      return None;
    }

    method FindDualPivotColumn(pivotRow: nat, allowPositive: bool) returns (pivotCol: Option<nat>)
      requires Tab().Shape() && nColumns == Tab().Columns() && Tab().IsConstraintRow(pivotRow)
      ensures pivotCol.None? ==> forall c: nat :: !IsCandidate(Tab(), frozenVariables.Keys, pivotRow, allowPositive, c)
      ensures pivotCol.Some? ==>
                IsLexMaxCandidate(Tab(), frozenVariables.Keys, pivotRow, allowPositive, pivotCol.value)
    {
      // The source starts from a vector of least integers, which every vector of quotients exceeds.
      var maxQuot: Option<seq<int>> := None;
      pivotCol := None;
      for col := PARAMETERS to nColumns
        invariant pivotCol.None? <==> maxQuot.None?
        invariant pivotCol.None? ==>
                    forall c: nat :: c < col ==> !IsCandidate(Tab(), frozenVariables.Keys, pivotRow, allowPositive, c)
        invariant pivotCol.Some? ==>
                    && pivotCol.value < col
                    && IsCandidate(Tab(), frozenVariables.Keys, pivotRow, allowPositive, pivotCol.value)
                    && maxQuot.value == Quotients(Tab(), pivotRow, pivotCol.value)
                    && forall c: nat ::
                         c < col && IsCandidate(Tab(), frozenVariables.Keys, pivotRow, allowPositive, c) ==>
                         !LexLess(maxQuot.value, Quotients(Tab(), pivotRow, c))
      {
        if nonBasicVariables[col - PARAMETERS] in frozenVariables {
          continue;
        }
        var pivotCand := tableau[pivotRow][col];
        if pivotCand < 0 || (allowPositive && pivotCand > 0) {
          var quot := Quotients(Tab(), pivotRow, col);
          if maxQuot.None? || LexLess(maxQuot.value, quot) {
            if maxQuot.Some? {
              LexLessBounds(maxQuot.value, quot);
            }
            LexLessIrreflexive(quot);
            maxQuot, pivotCol := Some(quot), Some(col);
          }
        }
      }
    }

    method FindPrimalPivotColumn() returns (pivotCol: Option<nat>)
      requires Tab().Shape() && nColumns == Tab().Columns()
      ensures pivotCol.None? ==> DualFeasible(Tab(), frozenVariables.Keys)
      ensures pivotCol.Some? ==> IsNegativeColumn(Tab(), frozenVariables.Keys, pivotCol.value)
    {
      var zeroVec := seq(nObjectives, i => 0);
      for col := PARAMETERS to nColumns
        invariant forall c :: PARAMETERS <= c < col && nonBasicVariables[c - PARAMETERS] !in frozenVariables ==>
                    LexNonNegative(Tab().Objectives(c))
      {
        if nonBasicVariables[col - PARAMETERS] in frozenVariables {
          continue;
        }
        NotBelowZero(Tab().Objectives(col), zeroVec);
        if LexLess(Tab().Objectives(col), zeroVec) {
          NotBelowZero(Tab().Objectives(col), seq(nObjectives, i => 0));
          return Some(col);
        }
      }
      return None;
    }

    method FindPrimalPivotRow(pivotColumn: nat) returns (pivotRow: Option<nat>)
      requires Tab().Shape() && PARAMETERS <= pivotColumn < Tab().Columns()
      requires forall r :: nObjectives <= r < |tableau| ==> -1 <= tableau[r][pivotColumn] <= 1
      ensures pivotRow.None? ==> forall r :: nObjectives <= r < |tableau| ==> tableau[r][pivotColumn] <= 0
      ensures pivotRow.Some? ==> IsLeastRow(Tab(), U(), pivotColumn, pivotRow.value)
    {
      var minQuot := 0;
      pivotRow := None;
      for row := nObjectives to |tableau|
        invariant pivotRow.None? ==> forall r :: nObjectives <= r < row ==> tableau[r][pivotColumn] <= 0
        invariant pivotRow.Some? ==>
                    && nObjectives <= pivotRow.value < row && tableau[pivotRow.value][pivotColumn] > 0
                    && minQuot == Tab().Constant(pivotRow.value, U())
                    && forall r :: nObjectives <= r < row && tableau[r][pivotColumn] > 0 ==>
                         minQuot <= Tab().Constant(r, U())
      {
        var pivotCand := tableau[row][pivotColumn];
        if pivotCand > 0 {
          var quot := GetParametricConstant(row) / pivotCand;
          if pivotRow.None? || quot < minQuot {
            minQuot, pivotRow := quot, Some(row);
          }
        }
      }
    }

    // -------------------------------------------------------------------------------------------
    // Solving
    // -------------------------------------------------------------------------------------------

    /** The pivot row has no candidate: raise T if that helps, and give up (with the outcome) if it does not. */
    method RaiseInterval(pivotRow: nat) returns (stuck: Option<Outcome>)
      requires Represents(Tab(), sys) && Tab().IsConstraintRow(pivotRow) && parameterT >= 0
      requires Tab().Constant(pivotRow, U()) < 0
      requires forall c: nat :: !IsCandidate(Tab(), frozenVariables.Keys, pivotRow, false, c)
      modifies this`parameterT
      ensures parameterT >= old(parameterT)
      ensures stuck.None? || stuck == Some(Infeasible) || stuck == Some(Aborted)
      ensures stuck.None? ==> IsRaised(Tab(), pivotRow, old(parameterT), parameterT)
      ensures stuck == Some(Aborted) <==> tableau[pivotRow][2] > 0 && tableau[pivotRow][0] >= 0
      ensures stuck == Some(Infeasible) <==>
                || tableau[pivotRow][2] <= 0
                || (tableau[pivotRow][0] < 0
                    && tableau[pivotRow][0] + tableau[pivotRow][2] * old(parameterT) >= 0)
      ensures stuck.Some? ==> parameterT == old(parameterT) && NoSolution(sys, frozenVariables.Keys, U())
      ensures tableau[pivotRow][2] <= 0 ==> parameterT == old(parameterT) && stuck == Some(Infeasible)
      ensures (parameterS == 0 || tableau[pivotRow][2] == 0) ==>
                && stuck != Some(Aborted)
                && ExcludedBetween(sys, frozenVariables.Keys, parameterS, old(parameterT), parameterT)
                && (stuck == Some(Infeasible) ==> forall ii :: ii >= old(parameterT) ==>
                      NoSolution(sys, frozenVariables.Keys, Params(1, parameterS, ii)))
    {
      RowExcludes(Tab(), sys, frozenVariables.Keys, pivotRow, U());
      RowExcludesMore(Tab(), sys, frozenVariables.Keys, pivotRow, parameterS, parameterT);
      var entry1Col, entryTCol := tableau[pivotRow][0], tableau[pivotRow][2];
      if entryTCol > 0 {
        if entry1Col >= 0 {
          return Some(Aborted);
        }
        var newParameterT := (-entry1Col - 1) / entryTCol + 1;
        assert newParameterT == LeastT(entry1Col, entryTCol);
        if newParameterT > parameterT {
          parameterT := newParameterT;
          return None;
        }
      }
      return Some(Infeasible);
    }

    /** One iteration of the solving loop; `done` is its outcome, if it ends the loop. */
    method SolvingStep() returns (done: Option<Outcome>)
      requires Valid() && parameterT >= 0
      modifies this`tableau, this`implicitBasicVariableColumnVector, this`nonBasicVariables, this`basicVariables,
               this`startTimeLocations, this`parameterT
      ensures Valid() && done != Some(OutOfFuel)
      ensures Advances(sys, frozenVariables.Keys, parameterS, old(Tab()), old(parameterT), Tab(), parameterT)
      ensures done.None? ==> IsSolvingStep(old(Tab()), old(parameterT), Tab(), parameterT)
      ensures done == Some(Solved) ==> PrimalFeasible(Tab(), U())
      ensures old(PrimalFeasible(Tab(), U())) ==>
                done == Some(Solved) && Tab() == old(Tab()) && parameterT == old(parameterT)
      ensures (done == Some(Infeasible) || done == Some(Aborted)) ==> NoSolution(sys, frozenVariables.Keys, U())
      ensures (parameterS == 0 || old(FreeOfT(Tab()))) ==>
                && done != Some(Aborted)
                && (done == Some(Infeasible) ==> forall ii :: ii >= old(parameterT) ==>
                      NoSolution(sys, frozenVariables.Keys, Params(1, parameterS, ii)))
    {
      var pivotRow := FindDualPivotRow();
      if pivotRow.None? {
        return Some(Solved);
      }
      var pivotCol := FindDualPivotColumn(pivotRow.value, false);
      if pivotCol.Some? {
        DualPivotStep(Tab(), sys, frozenVariables.Keys, pivotRow.value, pivotCol.value);
        PivotAt(pivotRow.value, pivotCol.value);
        return None;
      }
      done := RaiseInterval(pivotRow.value);
    }

    /** Dual pivot steps until all parametric constants are non-negative; T is raised where that is the only way. */
    method SolveTableau(fuel: nat) returns (outcome: Outcome)
      requires Valid() && parameterT >= 0
      modifies this`tableau, this`implicitBasicVariableColumnVector, this`nonBasicVariables, this`basicVariables,
               this`startTimeLocations, this`parameterT
      ensures Valid()
      ensures Advances(sys, frozenVariables.Keys, parameterS, old(Tab()), old(parameterT), Tab(), parameterT)
      ensures outcome.OutOfFuel? ==> MakesSteps(old(Tab()), old(parameterT), Tab(), parameterT, fuel)
      ensures outcome.Solved? ==> PrimalFeasible(Tab(), U())
      ensures old(PrimalFeasible(Tab(), U())) ==> Tab() == old(Tab()) && parameterT == old(parameterT)
      ensures outcome.Infeasible? || outcome.Aborted? ==> NoSolution(sys, frozenVariables.Keys, U())
      ensures (parameterS == 0 || old(FreeOfT(Tab()))) ==>
                && !outcome.Aborted?
                && (outcome.Infeasible? ==> forall ii :: ii >= old(parameterT) ==>
                      NoSolution(sys, frozenVariables.Keys, Params(1, parameterS, ii)))
    {
      NoSteps(Tab(), parameterT);
      for steps := 0 to fuel
        invariant Valid() && parameterT >= 0
        invariant Advances(sys, frozenVariables.Keys, parameterS, old(Tab()), old(parameterT), Tab(), parameterT)
        invariant MakesSteps(old(Tab()), old(parameterT), Tab(), parameterT, steps)
        invariant old(PrimalFeasible(Tab(), U())) ==> steps == 0 && Tab() == old(Tab()) && parameterT == old(parameterT)
      {
        ghost var before, ii := Tab(), parameterT;
        var done := SolvingStep();
        AdvancesJoin(sys, frozenVariables.Keys, parameterS, old(Tab()), old(parameterT), before, ii, Tab(), parameterT);
        if done.Some? {
          return done.value;
        }
        OneMoreStep(old(Tab()), old(parameterT), before, ii, steps, Tab(), parameterT);
      }
      return OutOfFuel;
    }

    /** One primal pivot step, unless there is nothing to do, or no row limits the column. */
    method RestoringStep() returns (done: Option<Outcome>)
      requires Valid() && PrimalFeasible(Tab(), U())
      modifies this`tableau, this`implicitBasicVariableColumnVector, this`nonBasicVariables, this`basicVariables,
               this`startTimeLocations
      ensures Valid() && PrimalFeasible(Tab(), U())
      ensures done.None? ==> IsSolvingStep(old(Tab()), parameterT, Tab(), parameterT)
      ensures done.Some? ==> done.value.Solved? || done.value.Infeasible?
      ensures done == Some(Solved) ==> DualFeasible(Tab(), frozenVariables.Keys)
      ensures done == Some(Infeasible) ==> exists o: nat ::
                o < nObjectives && IsUnbounded(Tab(), sys.Variables(), U(), frozenVariables.Keys, o)
      ensures NonNegativeWeights(weights) ==> done != Some(Infeasible)
    {
      ghost var F := frozenVariables.Keys;
      var pivotCol := FindPrimalPivotColumn();
      if pivotCol.None? {
        return Some(Solved);
      }
      RepresentsIsUnimodular(Tab(), sys);
      var pivotRow := FindPrimalPivotRow(pivotCol.value);
      if pivotRow.None? {
        ghost var o := UnlimitedIsUnbounded(Tab(), sys.Variables(), U(), F, pivotCol.value);
        if NonNegativeWeights(weights) {
          SumsAreLimited(Tab(), sys, weights, U(), F, pivotCol.value);
        }
        return Some(Infeasible);
      }
      PrimalPivotStep(Tab(), sys, F, U(), pivotRow.value, pivotCol.value);
      PivotAt(pivotRow.value, pivotCol.value);
      return None;
    }

    /** Primal pivot steps until no column of the cost matrix is lexicographically negative. The program is unbounded if
        that fails, which cannot happen for sums of start times. */
    method RestoreDualFeasibility(fuel: nat) returns (outcome: Outcome)
      requires Valid() && PrimalFeasible(Tab(), U())
      modifies this`tableau, this`implicitBasicVariableColumnVector, this`nonBasicVariables, this`basicVariables,
               this`startTimeLocations
      ensures Valid() && PrimalFeasible(Tab(), U())
      ensures outcome.Solved? ==> DualFeasible(Tab(), frozenVariables.Keys)
      ensures outcome.Infeasible? ==> exists o: nat ::
                o < nObjectives && IsUnbounded(Tab(), sys.Variables(), U(), frozenVariables.Keys, o)
      ensures NonNegativeWeights(weights) ==> !outcome.Infeasible?
      ensures outcome.OutOfFuel? ==> MakesSteps(old(Tab()), parameterT, Tab(), parameterT, fuel)
    {
      ghost var F := frozenVariables.Keys;
      NoSteps(Tab(), parameterT);
      for steps := 0 to fuel
        invariant Valid() && PrimalFeasible(Tab(), U())
        invariant MakesSteps(old(Tab()), parameterT, Tab(), parameterT, steps)
      {
        ghost var before := Tab();
        var done := RestoringStep();
        if done.Some? {
          return done.value;
        }
        OneMoreStep(old(Tab()), parameterT, before, parameterT, steps, Tab(), parameterT);
      }
      return OutOfFuel;
    }

    // -------------------------------------------------------------------------------------------
    // Fixing operations to time steps
    // -------------------------------------------------------------------------------------------

    method IsInBasis(startTimeVariable: nat) returns (inBasis: bool)
      requires Consistent() && startTimeVariable < |startTimeLocations|
      ensures inBasis <==> startTimeVariable in basicVariables
      ensures !inBasis <==> startTimeVariable in nonBasicVariables
      ensures inBasis ==> Tab().IsConstraintRow(-startTimeLocations[startTimeVariable])
                          && basicVariables[-startTimeLocations[startTimeVariable] - nObjectives] == startTimeVariable
      ensures !inBasis ==> PARAMETERS <= startTimeLocations[startTimeVariable] < nColumns
                           && nonBasicVariables[startTimeLocations[startTimeVariable] - PARAMETERS] == startTimeVariable
    {
      var loc := startTimeLocations[startTimeVariable];
      assert Locates(Tab(), loc, startTimeVariable);
      inBasis := -loc >= nObjectives;
    }

    /** Takes the variable out of the basis, so that its column can be translated. */
    method Freeze(startTimeVariable: nat, timeStep: nat) returns (column: nat)
      requires Valid() && startTimeVariable < |startTimeLocations| && startTimeVariable !in frozenVariables
      modifies this`tableau, this`implicitBasicVariableColumnVector, this`nonBasicVariables, this`basicVariables,
               this`startTimeLocations, this`frozenVariables
      ensures Valid() && frozenVariables == old(frozenVariables)[startTimeVariable := timeStep]
      ensures PARAMETERS <= column < nColumns && nonBasicVariables[column - PARAMETERS] == startTimeVariable
      ensures OnlyLeaves(old(nonBasicVariables), nonBasicVariables, startTimeVariable)
      ensures old(FreeOfT(Tab())) ==> FreeOfT(Tab())
      ensures KeepsCosts(weights, old(Tab()), old(frozenVariables.Keys), Tab(), frozenVariables.Keys)
    {
      frozenVariables := frozenVariables[startTimeVariable := timeStep];
      var inBasis := IsInBasis(startTimeVariable);
      if !inBasis {
        return startTimeLocations[startTimeVariable];
      }
      column := TakeOut(startTimeVariable);
    }

    /** Exchanges a variable that has just been frozen. */
    method TakeOut(startTimeVariable: nat) returns (column: nat)
      requires Consistent() && startTimeVariable < |startTimeLocations| && startTimeVariable in basicVariables
      requires forall v :: v in frozenVariables && v != startTimeVariable ==> v in nonBasicVariables
      requires Tab().IsConstraintRow(-startTimeLocations[startTimeVariable])
      requires basicVariables[-startTimeLocations[startTimeVariable] - nObjectives] == startTimeVariable
      modifies this`tableau, this`implicitBasicVariableColumnVector, this`nonBasicVariables, this`basicVariables,
               this`startTimeLocations
      ensures Valid()
      ensures PARAMETERS <= column < nColumns && nonBasicVariables[column - PARAMETERS] == startTimeVariable
      ensures OnlyLeaves(old(nonBasicVariables), nonBasicVariables, startTimeVariable)
      ensures old(FreeOfT(Tab())) ==> FreeOfT(Tab())
      ensures KeepsCosts(weights, old(Tab()), frozenVariables.Keys, Tab(), frozenVariables.Keys)
    {
      var pivotRow := -startTimeLocations[startTimeVariable];
      var pivotCol := FindDualPivotColumn(pivotRow, true);
      if pivotCol.None? {
        FreezingFindsPivot(Tab(), sys, frozenVariables.Keys, pivotRow);
        assert false;
      }
      FreezingPivotStep(Tab(), sys, weights, frozenVariables.Keys, pivotRow, pivotCol.value);
      PivotAt(pivotRow, pivotCol.value);
      return pivotCol.value;
    }

    method Translate(column: nat, factor1: int, factorS: int, factorT: int)
      requires Tab().Shape() && column < Tab().Columns()
      modifies this`tableau
      ensures |tableau| == |old(tableau)|
      ensures forall r :: 0 <= r < |tableau| ==>
                tableau[r] == TranslatedRow(old(tableau)[r], column, Params(factor1, factorS, factorT))
    {
      var f := Params(factor1, factorS, factorT);
      var row := 0;
      while row < |tableau|
        invariant row <= |tableau| == |old(tableau)|
        invariant forall r :: 0 <= r < row ==> tableau[r] == TranslatedRow(old(tableau)[r], column, f)
        invariant forall r :: row <= r < |tableau| ==> tableau[r] == old(tableau)[r]
      {
        var elem := tableau[row][column];
        if elem != 0 {
          var rowVec := tableau[row];
          rowVec := rowVec[0 := rowVec[0] + -elem * factor1];
          rowVec := rowVec[1 := rowVec[1] + -elem * factorS];
          rowVec := rowVec[2 := rowVec[2] + -elem * factorT];
          TranslatedInPlace(tableau[row], column, f, rowVec);
          tableau := tableau[row := rowVec];
        } else {
          NotTranslated(tableau[row], column, f);
        }
        row := row + 1;
      }
    }

    /** Translates the column of a start time variable, by a multiple of 1 and of S. */
    method TranslateVariable(column: nat, factor1: int, factorS: int)
      requires Consistent() && PARAMETERS <= column < nColumns && nonBasicVariables[column - PARAMETERS] < sys.n
      modifies this`tableau, this`sys
      ensures Tab() == old(Tab()).Translate(column, Params(factor1, factorS, 0))
      ensures Consistent()
      ensures sys == ShiftBy(old(sys), nonBasicVariables[column - PARAMETERS], Params(factor1, factorS, 0))
      ensures old(FreeOfT(Tab())) ==> FreeOfT(Tab())
    {
      ghost var before, f := Tab(), Params(factor1, factorS, 0);
      TranslateColumn(column, factor1, factorS);
      TranslateMeasures(before, sys, weights, column, f);
      assert forall i :: 0 <= i < sys.n ==> Locates(Tab(), startTimeLocations[i], i) by {
        assert Tab().nonBasic == before.nonBasic && Tab().basic == before.basic;
      }
      sys := ShiftBy(sys, nonBasicVariables[column - PARAMETERS], f);
    }

    method TranslateColumn(column: nat, factor1: int, factorS: int)
      requires Tab().Shape() && PARAMETERS <= column < Tab().Columns()
      modifies this`tableau
      ensures Tab() == old(Tab()).Translate(column, Params(factor1, factorS, 0))
    {
      ghost var before := Tab();
      Translate(column, factor1, factorS, 0);
      assert Tab() == before.Translate(column, Params(factor1, factorS, 0));
    }

    /** Translates the S column by the constant that S stands for, which makes the S column vanish. */
    method FixParameterS(timeStep: int)
      requires Consistent()
      modifies this`tableau, this`sys
      ensures Consistent()
      ensures Tab() == old(Tab()).FixS(timeStep) && sys == FixShift(old(sys), timeStep)
      ensures old(FreeOfT(Tab())) ==> FreeOfT(Tab())
    {
      ghost var before := Tab();
      FixColumnS(timeStep);
      FixRepresents(before, sys, weights, timeStep);
      FixLocates(before, timeStep, startTimeLocations);
      sys := FixShift(sys, timeStep);
    }

    method FixColumnS(timeStep: int)
      requires Tab().Shape()
      modifies this`tableau
      ensures Tab() == old(Tab()).FixS(timeStep)
    {
      ghost var before := Tab();
      Translate(1, -timeStep, 1, 0);
      forall r | 0 <= r < |tableau| ensures tableau[r] == FixedRow(before.rows[r], timeStep) {
        assert tableau[r] == TranslatedRow(before.rows[r], 1, Params(-timeStep, 1, 0));
      }
      assert Tab() == before.FixS(timeStep);
    }

    /** Fixes a start time. If the problem becomes infeasible, everything is rolled back. */
    method ScheduleAt(startTimeVariable: nat, timeStep: nat, fuel: nat) returns (outcome: Outcome)
      requires Valid() && Settled() && parameterT >= 0
      requires startTimeVariable < |startTimeLocations| && startTimeVariable !in frozenVariables
      modifies this
      ensures Valid() && weights == old(weights) && sys == old(sys).(shift := sys.shift)
      ensures outcome.Solved? ==> Settled() && PrimalFeasible(Tab(), U())
      ensures outcome.Solved? ==> frozenVariables == old(frozenVariables)[startTimeVariable := timeStep]
      ensures outcome.Infeasible? ==> Settled() && frozenVariables == old(frozenVariables) && PrimalFeasible(Tab(), U())
      ensures old(FreeOfT(Tab())) ==> FreeOfT(Tab()) && parameterT == old(parameterT)
      ensures parameterT >= old(parameterT)
      ensures outcome.Infeasible? ==> exists ii ::
                old(parameterT) <= ii <= parameterT && NeverAt(sys, frozenVariables, startTimeVariable, timeStep, ii)
      ensures old(FreeOfT(Tab())) && outcome.Infeasible? ==>
                NeverAt(sys, frozenVariables, startTimeVariable, timeStep, parameterT)
      ensures old(FreeOfT(Tab())) && old(PrimalFeasible(Tab(), U())) ==> !outcome.Aborted?
      ensures outcome.Solved? ==>
                KeepsCosts(weights, old(Tab()), old(frozenVariables.Keys), Tab(), frozenVariables.Keys)
      ensures outcome.Solved? && old(PrimalFeasible(Tab(), U()))
              && timeStep == old(StartTime(Tab(), frozenVariables, U(), startTimeVariable))
              ==> StartTimes(Tab(), frozenVariables, U(), sys.n) == old(StartTimes(Tab(), frozenVariables, U(), sys.n))
      ensures outcome.OutOfFuel? ==> RunsFor(sys.n, sys.cons, fuel)
    {
      ghost var feasible := PrimalFeasible(Tab(), U());
      ghost var before, sys0, frozen0 := Tab(), sys, frozenVariables;
      var frozenCol;
      outcome, frozenCol := SolveWithFrozen(startTimeVariable, timeStep, fuel);
      if outcome.Solved? {
        FixedConstants(Tab(), timeStep, parameterT);
        FixedIsSettled(sys0, frozen0, startTimeVariable, timeStep);
        FixedStartTimes(Tab(), frozenVariables, timeStep, parameterT, sys.n);
        FixingSKeepsCosts(Tab(), timeStep, frozenVariables.Keys);
        FixParameterS(timeStep);
      } else if outcome.Infeasible? {
        NoTimesAt(sys0, frozen0, startTimeVariable, timeStep, parameterT);
        outcome := RollBack(sys0, frozen0, startTimeVariable, frozenCol, timeStep, fuel);
        if feasible && FreeOfT(before) {
          FeasibleHasSolution(before, sys0, frozen0, parameterT);
        }
      }
    }

    /** Freezes a variable, and solves for S being its time step. The variable's shift is S afterwards. */
    method SolveWithFrozen(startTimeVariable: nat, timeStep: nat, fuel: nat) returns (outcome: Outcome, frozenCol: nat)
      requires Valid() && Settled() && parameterT >= 0
      requires startTimeVariable < |startTimeLocations| && startTimeVariable !in frozenVariables
      modifies this
      ensures Valid() && weights == old(weights) && parameterS == 0 && parameterT >= old(parameterT)
      ensures sys == FreezeToS(old(sys), startTimeVariable)
      ensures frozenVariables == old(frozenVariables)[startTimeVariable := timeStep]
      ensures PARAMETERS <= frozenCol < nColumns && nonBasicVariables[frozenCol - PARAMETERS] == startTimeVariable
      ensures outcome.Solved? ==> PrimalFeasible(Tab(), Params(1, timeStep, parameterT))
      ensures outcome.Infeasible? || outcome.Aborted? ==>
                NoSolution(sys, frozenVariables.Keys, Params(1, timeStep, parameterT))
      ensures old(FreeOfT(Tab())) ==> FreeOfT(Tab()) && parameterT == old(parameterT) && !outcome.Aborted?
      ensures KeepsCosts(weights, old(Tab()), old(frozenVariables.Keys), Tab(), frozenVariables.Keys)
      ensures StaysPut(sys.n, old(Tab()), old(frozenVariables), startTimeVariable, timeStep, old(parameterT), Tab(),
                       parameterT)
      ensures outcome.OutOfFuel? ==> RunsFor(sys.n, sys.cons, fuel)
    {
      ghost var before, sys0, frozen0, ii := Tab(), sys, frozenVariables, parameterT;
      frozenCol := FreezeAtS(startTimeVariable, timeStep);
      FixedStaysPut(before, sys0, frozen0, startTimeVariable, timeStep, ii, Tab());
      outcome := SolveAt(frozenCol, timeStep, fuel);
    }

    /** Solves with S being the time step; frozen columns stay where they are. */
    method SolveAt(frozenCol: nat, timeStep: nat, fuel: nat) returns (outcome: Outcome)
      requires Valid() && parameterT >= 0
      requires PARAMETERS <= frozenCol < nColumns && nonBasicVariables[frozenCol - PARAMETERS] in frozenVariables
      modifies this`tableau, this`implicitBasicVariableColumnVector, this`nonBasicVariables, this`basicVariables,
               this`startTimeLocations, this`parameterT, this`parameterS
      ensures Valid() && parameterS == 0 && parameterT >= old(parameterT)
      ensures frozenCol < nColumns
              && nonBasicVariables[frozenCol - PARAMETERS] == old(nonBasicVariables[frozenCol - PARAMETERS])
      ensures outcome.Solved? ==> PrimalFeasible(Tab(), Params(1, timeStep, parameterT))
      ensures outcome.Infeasible? || outcome.Aborted? ==>
                NoSolution(sys, frozenVariables.Keys, Params(1, timeStep, parameterT))
      ensures old(FreeOfT(Tab())) ==> FreeOfT(Tab()) && parameterT == old(parameterT) && !outcome.Aborted?
      ensures old(PrimalFeasible(Tab(), Params(1, timeStep, parameterT))) ==>
                Tab() == old(Tab()) && parameterT == old(parameterT)
      ensures old(DualFeasible(Tab(), frozenVariables.Keys)) ==> DualFeasible(Tab(), frozenVariables.Keys)
      ensures outcome.OutOfFuel? ==> RunsFor(sys.n, sys.cons, fuel)
    {
      ghost var before, ii := Tab(), parameterT;
      parameterS := timeStep;
      assert Tab() == before;
      outcome := SolveTableau(fuel);
      if outcome.OutOfFuel? {
        KeepsRunning(sys, before, ii, Tab(), parameterT, fuel);
      }
      parameterS := 0;
    }

    /** Freezes a variable, whose shift is S afterwards. */
    method FreezeAtS(startTimeVariable: nat, timeStep: nat) returns (frozenCol: nat)
      requires Valid() && Settled()
      requires startTimeVariable < |startTimeLocations| && startTimeVariable !in frozenVariables
      modifies this`tableau, this`implicitBasicVariableColumnVector, this`nonBasicVariables, this`basicVariables,
               this`startTimeLocations, this`frozenVariables, this`sys
      ensures Valid() && sys == FreezeToS(old(sys), startTimeVariable)
      ensures frozenVariables == old(frozenVariables)[startTimeVariable := timeStep]
      ensures PARAMETERS <= frozenCol < nColumns && nonBasicVariables[frozenCol - PARAMETERS] == startTimeVariable
      ensures OnlyLeaves(old(nonBasicVariables), nonBasicVariables, startTimeVariable)
      ensures old(FreeOfT(Tab())) ==> FreeOfT(Tab())
      ensures KeepsCosts(weights, old(Tab()), old(frozenVariables.Keys), Tab(), frozenVariables.Keys)
    {
      ShiftToS(sys, frozenVariables, startTimeVariable);
      frozenCol := Freeze(startTimeVariable, timeStep);
      TranslatingKeepsCosts(Tab(), frozenCol, Params(0, 1, 0), frozenVariables.Keys);
      TranslateVariable(frozenCol, 0, 1);
    }

    /** Undoes the freezing. With the former constraints only, the problem must be feasible again. */
    method RollBack(ghost sys0: System, ghost frozen0: map<nat, nat>, startTimeVariable: nat, frozenCol: nat,
                    ghost timeStep: nat, fuel: nat)
      returns (outcome: Outcome)
      requires Valid() && parameterS == 0 && parameterT >= 0
      requires startTimeVariable < sys0.n && IsSettled(sys0, frozen0) && sys == FreezeToS(sys0, startTimeVariable)
      requires startTimeVariable !in frozen0 && frozenVariables == frozen0[startTimeVariable := timeStep]
      requires PARAMETERS <= frozenCol < nColumns && nonBasicVariables[frozenCol - PARAMETERS] == startTimeVariable
      modifies this
      ensures Valid() && weights == old(weights) && sys == sys0 && frozenVariables == frozen0 && parameterS == 0
      ensures outcome.Infeasible? || outcome.Aborted? || outcome.OutOfFuel?
      ensures outcome.Infeasible? ==> PrimalFeasible(Tab(), U())
      ensures parameterT >= old(parameterT)
      ensures old(FreeOfT(Tab())) ==> FreeOfT(Tab()) && parameterT == old(parameterT)
      ensures outcome.Aborted? ==> NoSolution(sys, frozenVariables.Keys, Params(1, 0, parameterT))
      ensures outcome.OutOfFuel? ==> RunsFor(sys.n, sys.cons, fuel)
    {
      Unfreeze(sys0, frozen0, startTimeVariable, frozenCol, timeStep);
      ghost var before, ii := Tab(), parameterT;
      outcome := SolveTableau(fuel);
      if outcome.OutOfFuel? {
        KeepsRunning(sys, before, ii, Tab(), parameterT, fuel);
      }
      outcome := match outcome case Solved => Infeasible case OutOfFuel => OutOfFuel case _ => Aborted;
    }

    method Unfreeze(ghost sys0: System, ghost frozen0: map<nat, nat>, startTimeVariable: nat, frozenCol: nat,
                    ghost timeStep: nat)
      requires Valid()
      requires startTimeVariable < sys0.n && IsSettled(sys0, frozen0) && sys == FreezeToS(sys0, startTimeVariable)
      requires startTimeVariable !in frozen0 && frozenVariables == frozen0[startTimeVariable := timeStep]
      requires PARAMETERS <= frozenCol < nColumns && nonBasicVariables[frozenCol - PARAMETERS] == startTimeVariable
      modifies this`tableau, this`sys, this`frozenVariables
      ensures Valid() && sys == sys0 && frozenVariables == frozen0
      ensures old(FreeOfT(Tab())) ==> FreeOfT(Tab())
    {
      ShiftBackFromS(sys0, frozen0, startTimeVariable);
      TranslateVariable(frozenCol, 0, -1);
      frozenVariables := frozenVariables - {startTimeVariable};
      assert frozenVariables == frozen0;
    }

    /** Moves an already fixed start time; solving again is left to the caller. */
    method MoveBy(startTimeVariable: nat, amount: nat)
      requires Valid() && Settled() && startTimeVariable in frozenVariables
      modifies this`tableau, this`sys, this`frozenVariables
      ensures Valid() && Settled() && sys == old(sys).(shift := sys.shift)
      ensures frozenVariables ==
              old(frozenVariables)[startTimeVariable := old(frozenVariables)[startTimeVariable] + amount]
    {
      var inBasis := IsInBasis(startTimeVariable);
      frozenVariables := frozenVariables[startTimeVariable := frozenVariables[startTimeVariable] + amount];
      TranslateVariable(startTimeLocations[startTimeVariable], amount, 0);
    }

    method GetStartTime(startTimeVariable: nat) returns (time: int)
      requires Valid() && startTimeVariable < |startTimeLocations|
      ensures time == StartTime(Tab(), frozenVariables, U(), startTimeVariable)
    {
      var inBasis := IsInBasis(startTimeVariable);
      if !inBasis {
        return if startTimeVariable in frozenVariables then frozenVariables[startTimeVariable] else 0;
      }
      var row := -startTimeLocations[startTimeVariable];
      assert IndexOf(basicVariables, startTimeVariable) == row - nObjectives;
      return GetParametricConstant(row);
    }
  }

  lemma TranslatedInPlace(row: seq<int>, column: nat, f: Params, rowVec: seq<int>)
    requires PARAMETERS <= |row| && column < |row|
    requires var e := row[column];
             rowVec == row[0 := row[0] + -e * f.one][1 := row[1] + -e * f.s][2 := row[2] + -e * f.t]
    ensures rowVec == TranslatedRow(row, column, f)
  {
  }

  lemma NotTranslated(row: seq<int>, column: nat, f: Params)
    requires PARAMETERS <= |row| && column < |row| && row[column] == 0
    ensures TranslatedRow(row, column, f) == row
  {
  }

  /** What solving keeps: dual feasibility, frozen columns, and that T does not matter; the intervals that are left out
      when T is raised have no solution. */
  ghost predicate Advances(sys: System, frozen: set<nat>, s: int, t: Tableau, ii: int, t': Tableau, ii': int)
    requires sys.Valid() && t.Shape() && t'.Shape()
  {
    && ii' >= ii
    && (DualFeasible(t, frozen) ==> DualFeasible(t', frozen))
    && FrozenColumnsStay(t.nonBasic, t'.nonBasic, frozen)
    && (FreeOfT(t) ==> FreeOfT(t') && ii' == ii)
    && (s == 0 || FreeOfT(t) ==> ExcludedBetween(sys, frozen, s, ii, ii'))
  }

  lemma AdvancesJoin(sys: System, frozen: set<nat>, s: int, t: Tableau, ii: int, t1: Tableau, ii1: int,
                     t': Tableau, ii': int)
    requires sys.Valid() && t.Shape() && t1.Shape() && t'.Shape()
    requires Advances(sys, frozen, s, t, ii, t1, ii1) && Advances(sys, frozen, s, t1, ii1, t', ii')
    ensures Advances(sys, frozen, s, t, ii, t', ii')
  {
  }

  lemma InitialIsFreeOfT(t: Tableau, n: nat, cons: seq<Constraint>, objectives: seq<set<nat>>)
    requires InitialSystem(n, cons).Valid() && IsInitial(t, n, cons, objectives) && t.Shape()
    ensures (forall d :: 0 <= d < |cons| ==> cons[d].distance == 0) ==> FreeOfT(t)
    ensures IsSettled(InitialSystem(n, cons), map[])
  {
    forall r: nat | r < |t.rows| && forall d :: 0 <= d < |cons| ==> cons[d].distance == 0
      ensures t.rows[r][2] == 0
    {
      if r >= |objectives| {
        assert t.rows[|objectives| + (r - |objectives|)] == ConstraintRow(n, cons[r - |objectives|]);
      }
    }
  }

  lemma LexLessBounds(a: seq<int>, b: seq<int>)
    requires |a| == |b| && LexLess(a, b)
    ensures forall c :: |c| == |a| && !LexLess(a, c) ==> !LexLess(b, c)
  {
    forall c | |c| == |a| && LexLess(b, c) ensures LexLess(a, c) {
      LexLessTransitive(a, b, c);
    }
  }

  lemma {:induction false} LexLessIrreflexive(a: seq<int>)
    ensures !LexLess(a, a)
  {
    if a != [] {
      LexLessIrreflexive(a[1..]);
    }
  }

  /** A dual pivot step, with the column that the ratio test selects, keeps what the solving loop maintains. */
  lemma DualPivotStep(t: Tableau, sys: System, frozen: set<nat>, p: nat, c: nat)
    requires Represents(t, sys) && t.IsConstraintRow(p) && IsLexMaxCandidate(t, frozen, p, false, c)
    requires forall v :: v in frozen ==> v in t.nonBasic
    ensures t.IsPivot(p, c)
    ensures forall v :: v in frozen ==> v in t.Pivot(p, c).nonBasic
    ensures DualFeasible(t, frozen) ==> DualFeasible(t.Pivot(p, c), frozen)
    ensures FreeOfT(t) ==> FreeOfT(t.Pivot(p, c))
  {
    NonZeroIsPivot(t, sys, p, c);
    RepresentsIsUnimodular(t, sys);
    PivotKeepsFrozen(t, p, c, frozen);
    if FreeOfT(t) {
      PivotStaysFreeOfT(t, p, c);
    }
    if DualFeasible(t, frozen) {
      assert t.rows[p][c] == -1;
      forall col |
        PARAMETERS <= col < t.Columns() && t.nonBasic[col - PARAMETERS] !in frozen && t.rows[p][col] < 0
        ensures !LexLess(t.Objectives(col), t.Objectives(c))
      {
        assert IsCandidate(t, frozen, p, false, col);
        QuotientsOfMinusOne(t, p, col);
        QuotientsOfMinusOne(t, p, c);
        LexNegate(t.Objectives(c), t.Objectives(col));
      }
      DualPivotKeepsDualFeasible(t, sys.Variables(), p, c, frozen);
    }
  }

  lemma PrimalPivotStep(t: Tableau, sys: System, frozen: set<nat>, u: Params, p: nat, c: nat)
    requires Represents(t, sys) && PrimalFeasible(t, u)
    requires IsNegativeColumn(t, frozen, c) && IsLeastRow(t, u, c, p)
    requires forall v :: v in frozen ==> v in t.nonBasic
    ensures t.IsPivot(p, c) && PrimalFeasible(t.Pivot(p, c), u)
    ensures forall v :: v in frozen ==> v in t.Pivot(p, c).nonBasic
  {
    NonZeroIsPivot(t, sys, p, c);
    RepresentsIsUnimodular(t, sys);
    PivotKeepsFrozen(t, p, c, frozen);
    PrimalPivotKeepsPrimalFeasible(t, p, c, u);
  }

  /** Taking a newly frozen variable out of the basis leaves all frozen variables out of it. */
  lemma FreezingPivotStep(t: Tableau, sys: System, weights: seq<seq<int>>, frozen: set<nat>, p: nat, c: nat)
    requires Represents(t, sys) && t.IsConstraintRow(p) && IsCandidate(t, frozen, p, true, c)
    requires forall v :: v in frozen && v != t.basic[p - t.nObjectives] ==> v in t.nonBasic
    requires IsLexMaxCandidate(t, frozen, p, true, c) && t.basic[p - t.nObjectives] < sys.n
    requires Measures(t, sys, weights)
    ensures t.IsPivot(p, c)
    ensures KeepsCosts(weights, t, frozen, t.Pivot(p, c), frozen)
    ensures OnlyLeaves(t.nonBasic, t.Pivot(p, c).nonBasic, t.basic[p - t.nObjectives])
    ensures forall v :: v in frozen ==> v in t.Pivot(p, c).nonBasic
    ensures FreeOfT(t) ==> FreeOfT(t.Pivot(p, c))
  {
    NonZeroIsPivot(t, sys, p, c);
    PivotKeepsFrozen(t, p, c, frozen - {t.basic[p - t.nObjectives]});
    assert t.Pivot(p, c).nonBasic[c - PARAMETERS] == t.basic[p - t.nObjectives];
    if DualFeasible(t, frozen) && NonNegativeWeights(weights) {
      FreezingKeepsDualFeasible(t, sys, weights, frozen, p, c);
    }
    if FreeOfT(t) {
      PivotStaysFreeOfT(t, p, c);
    }
  }

  /** The potentials that are 1 at one operation, and 0 elsewhere. */
  ghost function OnePotential(sys: System, v: nat): (g: seq<int>)
    requires sys.Valid() && v < sys.n
    ensures |g| == sys.Variables()
  {
    seq(sys.Variables(), w requires 0 <= w < sys.Variables() =>
      if w < sys.n then (if w == v then 1 else 0)
      else (if sys.cons[w - sys.n].dst == v then 1 else 0) - (if sys.cons[w - sys.n].src == v then 1 else 0))
  }

  /** A basic start time depends on some non-basic variable that is not frozen: frozen variables are start times,
      and no start time is determined by other start times alone. */
  lemma FreezingFindsPivot(t: Tableau, sys: System, frozen: set<nat>, p: nat)
    requires Represents(t, sys) && t.IsConstraintRow(p) && t.basic[p - t.nObjectives] < sys.n
    requires forall v :: v in frozen ==> v < sys.n
    ensures exists c: nat :: IsCandidate(t, frozen, p, true, c)
  {
    if forall c: nat :: !IsCandidate(t, frozen, p, true, c) {
      var v := t.basic[p - t.nObjectives];
      var g := OnePotential(sys, v);
      forall i: nat | i < sys.n ensures sys.Start(i, ZERO_PARAMS, g) == if i == v then 1 else 0 {}
      assert sys.Holds(ZERO_PARAMS, g);
      assert t.Holds(ZERO_PARAMS, g);
      var x := t.Values(ZERO_PARAMS, g);
      forall c: nat | c < |x| ensures t.rows[p][c] == 0 || x[c] == 0 {
        if c >= PARAMETERS {
          assert !IsCandidate(t, frozen, p, true, c);
          assert t.nonBasic[c - PARAMETERS] != v;
        }
      }
      assert t.Residual(p, ZERO_PARAMS, g) == 0;
      DotToZero(t.rows[p], x, |x|);
      assert false;
    }
  }

  lemma PivotKeepsFrozen(t: Tableau, p: nat, c: nat, frozen: set<nat>)
    requires t.Shape() && t.IsPivot(p, c) && t.nonBasic[c - PARAMETERS] !in frozen
    requires forall v :: v in frozen ==> v in t.nonBasic
    ensures forall v :: v in frozen ==> v in t.Pivot(p, c).nonBasic
  {
    forall v | v in frozen ensures v in t.Pivot(p, c).nonBasic {
      var k := IndexOf(t.nonBasic, v);
      assert t.Pivot(p, c).nonBasic[k] == v;
    }
  }

  /** What a negative row without candidates excludes, when S is 0 or T does not occur. */
  lemma RowExcludesMore(t: Tableau, sys: System, frozen: set<nat>, row: nat, s: int, ii: int)
    requires Represents(t, sys) && t.IsConstraintRow(row) && t.Constant(row, Params(1, s, ii)) < 0
    requires forall c :: !IsCandidate(t, frozen, row, false, c)
    ensures (s == 0 || t.rows[row][2] == 0) && t.rows[row][2] <= 0 ==>
              forall ii' :: ii' >= ii ==> NoSolution(sys, frozen, Params(1, s, ii'))
    ensures s == 0 && t.rows[row][2] > 0 ==>
              && t.rows[row][0] + t.rows[row][2] * ii < 0
              && (ii >= 0 ==> t.rows[row][0] < 0)
              && (t.rows[row][0] < 0 ==>
                    forall ii' :: ii' < LeastT(t.rows[row][0], t.rows[row][2]) ==>
                      NoSolution(sys, frozen, Params(1, s, ii')))
  {
    var one, e := t.rows[row][0], t.rows[row][2];
    if (s == 0 || e == 0) && e <= 0 {
      forall ii' | ii' >= ii ensures NoSolution(sys, frozen, Params(1, s, ii')) {
        assert e * ii' <= e * ii;
        RowExcludes(t, sys, frozen, row, Params(1, s, ii'));
      }
    }
    if s == 0 && e > 0 && one < 0 {
      forall ii' | ii' < LeastT(one, e) ensures NoSolution(sys, frozen, Params(1, s, ii')) {
        RowExcludes(t, sys, frozen, row, Params(1, s, ii'));
      }
    }
  }

  /** Pivoting never exchanges a frozen variable. */
  predicate FrozenColumnsStay(before: seq<nat>, after: seq<nat>, frozen: set<nat>) {
    && |before| == |after|
    && forall k :: 0 <= k < |before| && before[k] in frozen ==> after[k] == before[k]
  }

  lemma FixLocates(t: Tableau, timeStep: int, locations: seq<int>)
    requires t.Shape() && forall i: nat :: i < |locations| ==> Locates(t, locations[i], i)
    ensures forall i: nat :: i < |locations| ==> Locates(t.FixS(timeStep), locations[i], i)
  {
  }

  /** A location is the column of a non-basic variable, or the negated row of a basic variable. */
  predicate Locates(t: Tableau, loc: int, v: nat) {
    || (loc >= PARAMETERS && loc - PARAMETERS < |t.nonBasic| && t.nonBasic[loc - PARAMETERS] == v)
    || (-loc >= t.nObjectives && -loc - t.nObjectives < |t.basic| && t.basic[-loc - t.nObjectives] == v)
  }

  lemma UnitSquare(e: int)
    requires e * e == 1
    ensures e == 1 || e == -1
  {
    assert (e - 1) * (e + 1) == 0;
  }
}
