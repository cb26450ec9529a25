/** A table of case mappings, compiled to a chain of conditional returns. */
module CaseFold {
  import opened Arithmetic

  datatype Mapping = Mapping(from: nat, to: int)

  /** The statements emitted. Each returns under its condition on the character `C`. */
  datatype Stmt =
    | ReturnIfEqual(c: nat, value: int)                                      // C == c: value
    | ReturnIfBelow(first: nat)                                              // C < first: C
    | ReturnShifted(last: nat, stride: nat, modulo: nat, shift: int)   // C <= last && C % stride == modulo: C + shift
    | ReturnAllShifted(last: nat, shift: int)                                // C <= last: C + shift
    | ReturnOdd(last: nat)                                                   // C <= last: C | 1

  datatype Result = Returned(value: int) | Continues

  function Or1(c: int): int {
    if c % 2 == 0 then c + 1 else c
  }

  function Exec(s: Stmt, c: int): Result {
    match s
    case ReturnIfEqual(x, value) => if c == x then Returned(value) else Continues
    case ReturnIfBelow(first) => if c < first then Returned(c) else Continues
    case ReturnShifted(last, stride, modulo, shift) =>
      if c <= last && stride > 0 && c % stride == modulo then Returned(c + shift) else Continues
    case ReturnAllShifted(last, shift) => if c <= last then Returned(c + shift) else Continues
    case ReturnOdd(last) => if c <= last then Returned(Or1(c)) else Continues
  }

  function Run(body: seq<Stmt>, c: int): Result {
    if body == [] then Continues else
      match Exec(body[0], c)
      case Returned(value) => Returned(value)
      case Continues => Run(body[1..], c)
  }

  /** The function emitted: the body, then the character itself. */
  function FoldChar(body: seq<Stmt>, c: int): int {
    match Run(body, c)
    case Returned(value) => value
    case Continues => c
  }

  lemma {:induction false} RunSum(a: seq<Stmt>, b: seq<Stmt>, c: int)
    ensures Run(a + b, c) == if Run(a, c).Returned? then Run(a, c) else Run(b, c)
  {
    if a == [] {
      assert a + b == b;
    } else {
      assert (a + b)[1..] == a[1..] + b;
      RunSum(a[1..], b, c);
    }
  }

  // ---------------------------------------------------------------------------------------------
  // Tables
  // ---------------------------------------------------------------------------------------------

  predicate IsSorted(table: seq<Mapping>) {
    forall i, j :: 0 <= i < j < |table| ==> table[i].from < table[j].from
  }

  ghost predicate IsIn(table: seq<Mapping>, c: int) {
    exists i: nat :: i < |table| && table[i].from == c
  }

  /** The body folds characters of the table to what they map to, and lets all characters after the table continue. */
  ghost predicate Folds(body: seq<Stmt>, table: seq<Mapping>) {
    && (forall i: nat :: i < |table| ==> Run(body, table[i].from) == Returned(table[i].to))
    && (forall c: int :: !IsIn(table, c) ==> Run(body, c) == Returned(c) || Run(body, c) == Continues)
    && (forall c: int :: (forall i: nat :: i < |table| ==> table[i].from < c) ==> Run(body, c) == Continues)
  }

  lemma IsInSum(t: seq<Mapping>, u: seq<Mapping>, c: int)
    ensures IsIn(t, c) || IsIn(u, c) ==> IsIn(t + u, c)
  {
    if i: nat :| i < |t| && t[i].from == c {
      assert (t + u)[i].from == c;
    } else if i: nat :| i < |u| && u[i].from == c {
      assert (t + u)[|t| + i].from == c;
    }
  }

  lemma FoldsSum(a: seq<Stmt>, t: seq<Mapping>, b: seq<Stmt>, u: seq<Mapping>)
    requires Folds(a, t) && Folds(b, u) && IsSorted(t + u)
    ensures Folds(a + b, t + u)
  {
    forall i: nat | i < |t + u| ensures Run(a + b, (t + u)[i].from) == Returned((t + u)[i].to) {
      RunSum(a, b, (t + u)[i].from);
      if i >= |t| {
        assert forall j: nat :: j < |t| ==> (t + u)[j] == t[j];
        assert (t + u)[i] == u[i - |t|];
      }
    }
    forall c: int | !IsIn(t + u, c) ensures Run(a + b, c) == Returned(c) || Run(a + b, c) == Continues {
      RunSum(a, b, c);
      IsInSum(t, u, c);
    }
    forall c: int | forall i: nat :: i < |t + u| ==> (t + u)[i].from < c ensures Run(a + b, c) == Continues {
      RunSum(a, b, c);
      assert forall i: nat :: i < |t| ==> t[i] == (t + u)[i];
      assert forall i: nat :: i < |u| ==> u[i] == (t + u)[|t| + i];
    }
  }

  // ---------------------------------------------------------------------------------------------
  // Blocks
  // ---------------------------------------------------------------------------------------------

  function Shift(m: Mapping): int {
    m.to - m.from
  }

  function Stride(b: seq<Mapping>): int
    requires |b| > 1
  {
    b[1].from - b[0].from
  }

  /** All mappings have the same shift, and are equally far from each other. */
  ghost predicate IsBlock(b: seq<Mapping>) {
    && b != [] && IsSorted(b)
    && (forall i: nat :: i < |b| ==> Shift(b[i]) == Shift(b[0]))
    && (|b| > 1 ==> Stride(b) > 0 && forall i: nat :: i < |b| ==> b[i].from == b[0].from + i * Stride(b))
  }

  /** `dump_block` */
  function Dump(b: seq<Mapping>): seq<Stmt>
    requires b != [] && (|b| > 1 ==> Stride(b) > 0)
  {
    if |b| == 1 then [ReturnIfEqual(b[0].from, b[0].to)] else
      var first, stride := b[0].from, Stride(b);
      var last, modulo := first + stride * (|b| - 1), first % stride;
      [ReturnIfBelow(first),
       if stride == 2 && Shift(b[0]) == 1 && modulo == 0 then ReturnOdd(last)
       else if stride == 1 then ReturnAllShifted(last, Shift(b[0]))
       else ReturnShifted(last, stride, modulo, Shift(b[0]))]
  }

  lemma RunOne(s: Stmt, c: int)
    ensures Run([s], c) == Exec(s, c)
  {
    assert [s][1..] == [];
  }

  lemma RunTwo(s: Stmt, t: Stmt, c: int)
    ensures Run([s, t], c) == if Exec(s, c).Returned? then Exec(s, c) else Exec(t, c)
  {
    assert [s, t][1..] == [t];
    RunOne(t, c);
  }

  /** Between the first and the last, exactly the characters of the block are congruent to the first. */
  lemma InBlock(b: seq<Mapping>, c: int)
    requires IsBlock(b) && |b| > 1 && b[0].from <= c <= b[0].from + Stride(b) * (|b| - 1)
    ensures c % Stride(b) == b[0].from % Stride(b) <==> IsIn(b, c)
  {
    var first, stride := b[0].from, Stride(b);
    if i: nat :| i < |b| && b[i].from == c {
      ModOfShift(first, i, stride);
    }
    if c % stride == first % stride {
      var d := c - first;
      Congruent(c, first, stride);
      DivModOf(d, stride);
      var i: nat := d / stride;
      if i >= |b| {
        ProductOrder(|b| - 1, i, stride);
        assert false;
      }
      assert b[i].from == c;
    }
  }

  lemma Congruent(a: nat, b: nat, d: nat)
    requires d > 0 && b <= a && a % d == b % d
    ensures (a - b) % d == 0
  {
    DivModOf(a, d);
    DivModOf(b, d);
    var q := a / d - b / d;
    assert q * d == (a / d) * d - (b / d) * d by { DifferenceTimes(a / d, b / d, d); }
    if q < 0 {
      ProductOrder(a / d, b / d, d);
    }
    DivModIs(a - b, q, 0, d);
  }

  /** What the statements of a block do to a character. */
  lemma DumpRuns(b: seq<Mapping>, c: int)
    requires IsBlock(b) && |b| > 1
    ensures Run(Dump(b), c) ==
            if c < b[0].from then Returned(c)
            else if c > b[0].from + Stride(b) * (|b| - 1) then Continues
            else if IsIn(b, c) then Returned(c + Shift(b[0]))
            else if Dump(b)[1].ReturnOdd? then Returned(c) else Continues
  {
    RunTwo(Dump(b)[0], Dump(b)[1], c);
    var first, stride := b[0].from, Stride(b);
    if first <= c <= first + stride * (|b| - 1) {
      InBlock(b, c);
    }
  }

  lemma SingleFolds(b: seq<Mapping>)
    requires |b| == 1
    ensures Folds(Dump(b), b)
  {
    forall c: int ensures Run(Dump(b), c) == if c == b[0].from then Returned(b[0].to) else Continues {
      RunOne(Dump(b)[0], c);
    }
    assert forall c: int :: c == b[0].from ==> IsIn(b, c);
  }

  /** The statements of a block fold its characters, and no others. */
  lemma BlockFolds(b: seq<Mapping>)
    requires IsBlock(b)
    ensures Folds(Dump(b), b)
  {
    if |b| == 1 {
      SingleFolds(b);
    } else {
      var n := |b| - 1;
      assert b[n].from == b[0].from + n * Stride(b);
      forall i: nat | i < |b| ensures Run(Dump(b), b[i].from) == Returned(b[i].to) {
        DumpRuns(b, b[i].from);
        assert IsIn(b, b[i].from);
        assert i < n ==> b[i].from < b[n].from;
        assert i > 0 ==> b[0].from < b[i].from;
      }
      forall c: int | !IsIn(b, c) ensures Run(Dump(b), c) == Returned(c) || Run(Dump(b), c) == Continues {
        DumpRuns(b, c);
      }
      forall c: int | forall i: nat :: i < |b| ==> b[i].from < c ensures Run(Dump(b), c) == Continues {
        DumpRuns(b, c);
      }
    }
  }

  // ---------------------------------------------------------------------------------------------
  // The compiler
  // ---------------------------------------------------------------------------------------------

  lemma SingleIsBlock(m: Mapping)
    ensures IsBlock([m])
  {
  }

  lemma BlockGrows(b: seq<Mapping>, m: Mapping)
    requires IsBlock(b) && b[|b| - 1].from < m.from && Shift(b[0]) == Shift(m)
    requires |b| == 1 || Stride(b) == m.from - b[|b| - 1].from
    ensures IsBlock(b + [m])
  {
    var b' := b + [m];
    var n := |b|;
    forall i, j | 0 <= i < j < |b'| ensures b'[i].from < b'[j].from {
      if j == n && i < n - 1 {
        assert b[i].from < b[n - 1].from;
      }
    }
    forall i: nat | i < |b'| ensures b'[i].from == b'[0].from + i * Stride(b') {
      if i == n && n > 1 {
        assert b[n - 1].from == b[0].from + (n - 1) * Stride(b);
        DifferenceTimes(n, 1, Stride(b));
      }
    }
  }

  method DumpBlock(body: seq<Stmt>, b: seq<Mapping>) returns (r: seq<Stmt>)
    requires IsBlock(b)
    ensures r == body + Dump(b)
  {
    if |b| == 1 {
      return body + [ReturnIfEqual(b[0].from, b[0].to)];
    }
    var first, stride := b[0].from, Stride(b);
    var last := first + stride * (|b| - 1);
    var modulo := first % stride;
    r := body + [ReturnIfBelow(first)];
    var pattern := ReturnShifted(last, stride, modulo, Shift(b[0]));
    if stride == 2 && Shift(b[0]) == 1 && modulo == 0 {
      pattern := ReturnOdd(last);
    } else if stride == 1 {
      pattern := ReturnAllShifted(last, Shift(b[0]));
    }
    r := r + [pattern];
    assert r == body + Dump(b);
  }

  method CloseBlock(body: seq<Stmt>, block: seq<Mapping>, ghost done: seq<Mapping>) returns (r: seq<Stmt>)
    requires Folds(body, done) && IsBlock(block) && IsSorted(done + block)
    ensures Folds(r, done + block)
  {
    BlockFolds(block);
    FoldsSum(body, done, Dump(block), block);
    r := DumpBlock(body, block);
  }

  /** Adds a mapping to the block, or dumps the block and starts a new one. */
  method AddMapping(body0: seq<Stmt>, block0: seq<Mapping>, m: Mapping, ghost done0: seq<Mapping>)
    returns (body: seq<Stmt>, block: seq<Mapping>, ghost done: seq<Mapping>)
    requires Folds(body0, done0) && IsBlock(block0) && IsSorted(done0 + block0) && block0[|block0| - 1].from < m.from
    ensures Folds(body, done) && IsBlock(block) && done + block == done0 + block0 + [m]
  {
    body, block, done := body0, block0, done0;
    if Shift(block[0]) == Shift(m) && (|block| == 1 || Stride(block) == m.from - block[|block| - 1].from) {
      BlockGrows(block, m);
      block := block + [m];
    } else {
      body := CloseBlock(body, block, done);
      done := done + block;
      SingleIsBlock(m);
      block := [m];
    }
  }

  /** The mappings before `i` have been added. */
  ghost predicate Progress(table: seq<Mapping>, i: nat, body: seq<Stmt>, block: seq<Mapping>, done: seq<Mapping>) {
    && i <= |table| && table[..i] == done + block
    && IsSorted(done + block) && IsBlock(block) && Folds(body, done)
  }

  lemma ProgressStarts(table: seq<Mapping>)
    requires table != []
    ensures Progress(table, 1, [], [table[0]], [])
  {
    SingleIsBlock(table[0]);
    assert table[..1] == [] + [table[0]];
  }

  lemma ProgressBefore(table: seq<Mapping>, i: nat, body: seq<Stmt>, block: seq<Mapping>, done: seq<Mapping>)
    requires Progress(table, i, body, block, done) && i < |table|
    ensures i > 0 && table[i - 1] == block[|block| - 1] && table[..i + 1] == done + block + [table[i]]
    ensures table[i - 1].from < table[i].from ==> IsSorted(done + block + [table[i]])
    ensures table[i - 1].from >= table[i].from ==> !IsSorted(table)
  {
    LastOfSum(done, block, table[..i]);
    assert table[..i][i - 1] == table[i - 1];
    if table[i - 1].from < table[i].from {
      SortedGrows(done + block, table[i]);
    }
  }

  method CompileBlocks(table: seq<Mapping>) returns (ok: bool, body: seq<Stmt>)
    requires table != []
    ensures ok <==> IsSorted(table)
    ensures ok ==> Folds(body, table)
  {
    body := [];
    var block := [table[0]];
    ghost var done: seq<Mapping> := [];
    ProgressStarts(table);
    for i := 1 to |table|
      invariant Progress(table, i, body, block, done)
    {
      ProgressBefore(table, i, body, block, done);
      if table[i].from <= table[i - 1].from {
        return false, [];
      }
      body, block, done := AddMapping(body, block, table[i], done);
    }
    assert table[..|table|] == table;
    body := CloseBlock(body, block, done);
    ok := true;
  }

  /** Fails if the table is not sorted; otherwise the function emitted maps exactly the characters of the table. */
  method Compile(table: seq<Mapping>) returns (ok: bool, body: seq<Stmt>)
    requires table != []
    ensures ok <==> IsSorted(table)
    ensures ok ==> forall i: nat :: i < |table| ==> FoldChar(body, table[i].from) == table[i].to
    ensures ok ==> forall c: int :: !IsIn(table, c) ==> FoldChar(body, c) == c
  {
    ok, body := CompileBlocks(table);
  }

  lemma LastOfSum(a: seq<Mapping>, b: seq<Mapping>, sum: seq<Mapping>)
    requires sum == a + b && b != []
    ensures sum[|sum| - 1] == b[|b| - 1]
  {
  }

  lemma SortedGrows(table: seq<Mapping>, m: Mapping)
    requires IsSorted(table) && table != [] && table[|table| - 1].from < m.from
    ensures IsSorted(table + [m])
  {
    var n := |table|;
    forall i, j | 0 <= i < j < n + 1 ensures (table + [m])[i].from < (table + [m])[j].from {
      if j == n && i < n - 1 {
        assert table[i].from < table[n - 1].from;
      }
    }
  }
}
