/** Groups that are printed as fitting: no line starts in them, nor in any group inside of them. */
module PrettyGroups {
  import opened PrettyTokens
  import opened PrettyScan
  import opened PrettyLevels

  function CountAlways(stack: seq<PrintEntry>): nat {
    if stack == [] then 0
    else CountAlways(stack[..|stack| - 1]) + if stack[|stack| - 1].breaks.AlwaysFits? then 1 else 0
  }

  lemma {:induction false} CountedEntry(stack: seq<PrintEntry>, k: nat)
    requires k < |stack| && stack[k].breaks.AlwaysFits?
    ensures CountAlways(stack) > 0
  {
    if k < |stack| - 1 {
      CountedEntry(stack[..|stack| - 1], k);
    }
  }

  lemma CountAlwaysPop(stack: seq<PrintEntry>)
    requires stack != []
    ensures var last := stack[|stack| - 1];
            CountAlways(stack) == CountAlways(stack[..|stack| - 1]) + if last.breaks.AlwaysFits? then 1 else 0
  {
  }

  /** What printing does to the stack and the counter. */
  lemma PrintStackOf(cfg: Config, st: PrintState, t: Token, size: int)
    requires !cfg.defaultFrame.breaks.AlwaysFits?
    ensures var st', n := Print(cfg, st, t, size), |st.printStack|;
            if t.Begin? then
              && |st'.printStack| == n + 1 && st'.printStack[..n] == st.printStack
              && st'.alwaysFits == st.alwaysFits + if st'.printStack[n].breaks.AlwaysFits? then 1 else 0
            else if t.End? && n > 0 then
              && st'.printStack == st.printStack[..n - 1]
              && st'.alwaysFits == st.alwaysFits - if st.printStack[n - 1].breaks.AlwaysFits? then 1 else 0
            else st'.printStack == st.printStack && st'.alwaysFits == st.alwaysFits
  {
  }

  /** `alwaysFits` counts the entries that always fit. */
  lemma PrintCounts(cfg: Config, st: PrintState, t: Token, size: int)
    requires st.alwaysFits == CountAlways(st.printStack) && !cfg.defaultFrame.breaks.AlwaysFits?
    ensures var st' := Print(cfg, st, t, size); st'.alwaysFits == CountAlways(st'.printStack)
  {
    PrintStackOf(cfg, st, t, size);
    if t.Begin? {
      CountAlwaysPop(Print(cfg, st, t, size).printStack);
    } else if t.End? && st.printStack != [] {
      CountAlwaysPop(st.printStack);
    }
  }

  lemma {:induction false} OfflineCounts(cfg: Config, st: PrintState, ts: seq<Token>, k: nat)
    requires k <= |ts| && st.alwaysFits == CountAlways(st.printStack) && !cfg.defaultFrame.breaks.AlwaysFits?
    ensures var st' := Offline(cfg, st, ts, k); st'.alwaysFits == CountAlways(st'.printStack)
  {
    if k > 0 {
      OfflineCounts(cfg, st, ts, k - 1);
      PrintCounts(cfg, Offline(cfg, st, ts, k - 1), ts[k - 1], Size(ts, k - 1));
    }
  }

  lemma DepthStep(ts: seq<Token>, k: nat)
    requires k < |ts| && WellNested(ts[..k + 1])
    ensures WellNested(ts[..k]) && (ts[k].End? ==> Depth(ts[..k]) > 0)
    ensures Depth(ts[..k + 1]) ==
            match ts[k]
            case Begin(_, _, _) => Depth(ts[..k]) + 1
            case End => Depth(ts[..k]) - 1
            case _ => Depth(ts[..k])
  {
    assert ts[..k + 1][..k] == ts[..k];
    assert ts[..k + 1] == ts[..k] + [ts[k]];
    StackStep(ts[..k], ts[k]);
  }

  /** The printer has one entry for every open group, so there is one to take off at every end. */
  lemma {:induction false} OfflineDepth(cfg: Config, st: PrintState, ts: seq<Token>, k: nat)
    requires k <= |ts| && WellNested(ts[..k]) && !cfg.defaultFrame.breaks.AlwaysFits?
    ensures |Offline(cfg, st, ts, k).printStack| == |st.printStack| + Depth(ts[..k])
  {
    if k == 0 {
      assert ts[..0] == [];
    } else {
      DepthStep(ts, k - 1);
      OfflineDepth(cfg, st, ts, k - 1);
      PrintStackOf(cfg, Offline(cfg, st, ts, k - 1), ts[k - 1], Size(ts, k - 1));
    }
  }

  // ---------------------------------------------------------------------------------------------
  // Inside of a group
  // ---------------------------------------------------------------------------------------------

  /** The group that token `i` begins, and the groups in it, that are open before token `k`. */
  function OpenSince(ts: seq<Token>, i: nat, k: nat): nat
    requires i < k <= |ts|
  {
    OpenAfter(ts[i + 1..k], 1)
  }

  /** The group that token `i` begins is open before token `k`. */
  ghost predicate InGroup(ts: seq<Token>, i: nat, k: nat) {
    i < k <= |ts| && ts[i].Begin? && forall m :: i < m <= k ==> OpenSince(ts, i, m) > 0
  }

  lemma OpenSinceStep(ts: seq<Token>, i: nat, k: nat)
    requires i < k < |ts|
    ensures OpenSince(ts, i, k + 1) == match ts[k]
                                       case Begin(_, _, _) => OpenSince(ts, i, k) + 1
                                       case End => if OpenSince(ts, i, k) == 0 then 0 else OpenSince(ts, i, k) - 1
                                       case _ => OpenSince(ts, i, k)
  {
    assert ts[i + 1..k + 1] == ts[i + 1..k] + [ts[k]];
    assert [ts[k]][1..] == [];
    OpenAfterSum(ts[i + 1..k], [ts[k]], 1);
  }

  lemma {:induction false} OpenAfterSum(a: seq<Token>, b: seq<Token>, open: nat)
    ensures OpenAfter(a + b, open) == OpenAfter(b, OpenAfter(a, open))
  {
    if a == [] {
      assert a + b == b;
    } else {
      assert (a + b)[1..] == a[1..] + b;
      OpenAfterSum(a[1..], b, match a[0]
                              case Begin(_, _, _) => open + 1
                              case End => if open == 0 then 0 else open - 1
                              case _ => open);
    }
  }

  lemma {:induction false} RestGrows(ts: seq<Token>, open: nat, open': nat)
    requires open <= open'
    ensures Rest(ts, open) <= Rest(ts, open')
  {
    if ts != [] {
      match ts[0]
      case String(_) => RestGrows(ts[1..], open, open');
      case Break(_, _, _) => if open > 0 { RestGrows(ts[1..], open, open'); }
      case Begin(_, _, _) => RestGrows(ts[1..], open + 1, open' + 1);
      case End => RestGrows(ts[1..], if open == 0 then 0 else open - 1, if open' == 0 then 0 else open' - 1);
    }
  }

  /** While the group is open, all that is printed counts for its size. */
  lemma {:induction false} RestInGroup(ts: seq<Token>, i: nat, k: nat)
    requires InGroup(ts, i, k)
    ensures Rest(ts[i + 1..], 1) == TotalWidth(ts[i + 1..k]) + Rest(ts[k..], OpenSince(ts, i, k))
    decreases k
  {
    if k == i + 1 {
      assert ts[i + 1..k] == [];
    } else {
      var t := ts[k - 1];
      assert OpenSince(ts, i, k - 1) > 0;
      RestInGroup(ts, i, k - 1);
      OpenSinceStep(ts, i, k - 1);
      assert ts[k - 1..][1..] == ts[k..];
      assert ts[i + 1..k] == ts[i + 1..k - 1] + [t];
      TotalWidthOfSum(ts[i + 1..k - 1], [t]);
      assert [t][1..] == [];
    }
  }

  /** Groups inside of a group that fits do so, too. */
  lemma InnerGroupFits(ts: seq<Token>, i: nat, k: nat)
    requires InGroup(ts, i, k) && k < |ts| && ts[k].Begin?
    ensures TotalWidth(ts[i + 1..k]) + Size(ts, k) <= Size(ts, i)
  {
    RestInGroup(ts, i, k);
    assert OpenSince(ts, i, k) > 0;
    assert ts[k..][1..] == ts[k + 1..];
    RestGrows(ts[k + 1..], 1, OpenSince(ts, i, k) + 1);
  }

  // ---------------------------------------------------------------------------------------------
  // Printing a group that fits
  // ---------------------------------------------------------------------------------------------

  predicate FitsEntry(e: PrintEntry) {
    e.breaks.Fits? || e.breaks.AlwaysFits?
  }

  /** Token `i` begins a group and is printed such that its group fits. */
  ghost predicate PrintedFitting(cfg: Config, st0: PrintState, ts: seq<Token>, i: nat) {
    i < |ts| && ts[i].Begin? && FitsEntry(Frame(cfg, Offline(cfg, st0, ts, i + 1)))
  }

  /** The state before token `k`, inside of the group. */
  ghost predicate OnOneLine(ts: seq<Token>, i: nat, before: PrintState, k: nat, st: PrintState)
    requires InGroup(ts, i, k)
  {
    var n := |before.printStack|;
    && |st.printStack| == n + OpenSince(ts, i, k)
    && st.printStack[..n] == before.printStack
    && (forall m :: n <= m < |st.printStack| ==> FitsEntry(st.printStack[m]))
    && (Size(ts, i) <= before.space || exists m :: 0 <= m <= n && st.printStack[m].breaks.AlwaysFits?)
    && st.space == before.space - TotalWidth(ts[i + 1..k])
  }

  lemma BreakStays(cfg: Config, ts: seq<Token>, i: nat, before: PrintState, k: nat, st: PrintState, size: int)
    requires InGroup(ts, i, k) && OnOneLine(ts, i, before, k, st) && st.alwaysFits == CountAlways(st.printStack)
    requires k < |ts|
    ensures !StartsLine(cfg, st, ts[k], size)
  {
    var last := |st.printStack| - 1;
    assert OpenSince(ts, i, k) > 0;
    assert FitsEntry(st.printStack[last]);
    if st.printStack[last].breaks.AlwaysFits? {
      CountedEntry(st.printStack, last);
    }
  }

  lemma WidthSince(ts: seq<Token>, i: nat, k: nat)
    requires i < k < |ts|
    ensures TotalWidth(ts[i + 1..k + 1]) == TotalWidth(ts[i + 1..k]) + Width(ts[k])
  {
    assert ts[i + 1..k + 1] == ts[i + 1..k] + [ts[k]];
    TotalWidthOfSum(ts[i + 1..k], [ts[k]]);
    assert [ts[k]][1..] == [];
  }

  lemma BeginFits(cfg: Config, ts: seq<Token>, i: nat, before: PrintState, k: nat, st: PrintState)
    requires InGroup(ts, i, k) && OnOneLine(ts, i, before, k, st) && st.alwaysFits == CountAlways(st.printStack)
    requires k < |ts| && ts[k].Begin?
    ensures Size(ts, k) <= st.space || st.alwaysFits > 0
  {
    InnerGroupFits(ts, i, k);
    if Size(ts, i) > before.space {
      var m :| 0 <= m <= |before.printStack| && st.printStack[m].breaks.AlwaysFits?;
      CountedEntry(st.printStack, m);
    }
  }

  lemma GroupStep(cfg: Config, ts: seq<Token>, i: nat, before: PrintState, k: nat, st: PrintState)
    requires InGroup(ts, i, k) && OnOneLine(ts, i, before, k, st) && st.alwaysFits == CountAlways(st.printStack)
    requires InGroup(ts, i, k + 1)
    ensures OnOneLine(ts, i, before, k + 1, Print(cfg, st, ts[k], Size(ts, k)))
  {
    OpenSinceStep(ts, i, k);
    WidthSince(ts, i, k);
    assert OpenSince(ts, i, k) > 0 && OpenSince(ts, i, k + 1) > 0;
    var st' := Print(cfg, st, ts[k], Size(ts, k));
    match ts[k]
    case String(_) =>
    case Break(_, _, _) => BreakStays(cfg, ts, i, before, k, st, Size(ts, k));
    case Begin(_, _, _) =>
      BeginFits(cfg, ts, i, before, k, st);
      KeepsAlways(before, st, st');
    case End => KeepsAlways(before, st, st');
  }

  lemma KeepsAlways(before: PrintState, st: PrintState, st': PrintState)
    requires var n := |before.printStack|;
             && n < |st.printStack| && n < |st'.printStack| && st'.printStack[..n + 1] == st.printStack[..n + 1]
    ensures var n := |before.printStack|;
            (exists m :: 0 <= m <= n && st.printStack[m].breaks.AlwaysFits?) ==>
            (exists m :: 0 <= m <= n && st'.printStack[m].breaks.AlwaysFits?)
  {
    var n := |before.printStack|;
    if m :| 0 <= m <= n && st.printStack[m].breaks.AlwaysFits? {
      assert st'.printStack[..n + 1][m] == st.printStack[..n + 1][m];
    }
  }

  lemma {:induction false} CountedExists(stack: seq<PrintEntry>)
    requires CountAlways(stack) > 0
    ensures exists m :: 0 <= m < |stack| && stack[m].breaks.AlwaysFits?
  {
    var n := |stack| - 1;
    if !stack[n].breaks.AlwaysFits? {
      CountedExists(stack[..n]);
      var m :| 0 <= m < n && stack[..n][m].breaks.AlwaysFits?;
      assert stack[m].breaks.AlwaysFits?;
    }
  }

  lemma GroupStarts(cfg: Config, st0: PrintState, ts: seq<Token>, i: nat)
    requires st0.alwaysFits == CountAlways(st0.printStack) && !cfg.defaultFrame.breaks.AlwaysFits?
    requires PrintedFitting(cfg, st0, ts, i)
    ensures InGroup(ts, i, i + 1) && OnOneLine(ts, i, Offline(cfg, st0, ts, i), i + 1, Offline(cfg, st0, ts, i + 1))
  {
    var before, st := Offline(cfg, st0, ts, i), Offline(cfg, st0, ts, i + 1);
    OfflineCounts(cfg, st0, ts, i);
    assert ts[i + 1..i + 1] == [];
    var n := |before.printStack|;
    assert st.printStack[..n] == before.printStack;
    if st.printStack[n].breaks.Fits? && before.alwaysFits > 0 {
      CountedExists(before.printStack);
      var m :| 0 <= m < n && before.printStack[m].breaks.AlwaysFits?;
      assert st.printStack[m] == before.printStack[m];
    }
  }

  lemma InGroupBefore(ts: seq<Token>, i: nat, k: nat)
    requires InGroup(ts, i, k) && i + 1 < k
    ensures InGroup(ts, i, k - 1)
  {
  }

  /** The group is on one line before token `k`, when the whole stream is printed. */
  ghost predicate GroupOnLine(cfg: Config, st0: PrintState, ts: seq<Token>, i: nat, k: nat) {
    && InGroup(ts, i, k)
    && exists before, st :: before == Offline(cfg, st0, ts, i) && st == Offline(cfg, st0, ts, k)
                            && OnOneLine(ts, i, before, k, st)
  }

  lemma GroupStepOffline(cfg: Config, st0: PrintState, ts: seq<Token>, i: nat, k: nat)
    requires st0.alwaysFits == CountAlways(st0.printStack) && !cfg.defaultFrame.breaks.AlwaysFits?
    requires InGroup(ts, i, k + 1) && GroupOnLine(cfg, st0, ts, i, k)
    ensures GroupOnLine(cfg, st0, ts, i, k + 1)
  {
    var before, st := Offline(cfg, st0, ts, i), Offline(cfg, st0, ts, k);
    OfflineCounts(cfg, st0, ts, k);
    GroupStep(cfg, ts, i, before, k, st);
    assert OnOneLine(ts, i, before, k + 1, Offline(cfg, st0, ts, k + 1));
  }

  lemma {:induction false} GroupIsOnOneLine(cfg: Config, st0: PrintState, ts: seq<Token>, i: nat, k: nat)
    requires st0.alwaysFits == CountAlways(st0.printStack) && !cfg.defaultFrame.breaks.AlwaysFits?
    requires PrintedFitting(cfg, st0, ts, i) && InGroup(ts, i, k)
    ensures GroupOnLine(cfg, st0, ts, i, k)
    decreases k
  {
    if k == i + 1 {
      GroupStarts(cfg, st0, ts, i);
    } else {
      InGroupBefore(ts, i, k);
      GroupIsOnOneLine(cfg, st0, ts, i, k - 1);
      GroupStepOffline(cfg, st0, ts, i, k - 1);
    }
  }

  /** Once a group is printed as fitting, no break in it or in a group inside of it starts a line, and what it takes of
      the line is exactly the width of its tokens. */
  lemma FittingGroupStaysOnLine(cfg: Config, st0: PrintState, ts: seq<Token>, i: nat, k: nat)
    requires st0.alwaysFits == CountAlways(st0.printStack) && !cfg.defaultFrame.breaks.AlwaysFits?
    requires PrintedFitting(cfg, st0, ts, i) && InGroup(ts, i, k) && k < |ts|
    ensures !StartsLine(cfg, Offline(cfg, st0, ts, k), ts[k], Size(ts, k))
    ensures Offline(cfg, st0, ts, k).space == Offline(cfg, st0, ts, i).space - TotalWidth(ts[i..k])
  {
    GroupIsOnOneLine(cfg, st0, ts, i, k);
    OfflineCounts(cfg, st0, ts, k);
    BreakStays(cfg, ts, i, Offline(cfg, st0, ts, i), k, Offline(cfg, st0, ts, k), Size(ts, k));
    assert ts[i..k][1..] == ts[i + 1..k];
  }

  /** A group without breaks of its own style that does not fit is never printed as fitting. */
  lemma FitsIffItFits(cfg: Config, st0: PrintState, ts: seq<Token>, i: nat)
    requires st0.alwaysFits == CountAlways(st0.printStack) && !cfg.defaultFrame.breaks.AlwaysFits?
    requires i < |ts| && ts[i].Begin?
    ensures PrintedFitting(cfg, st0, ts, i) <==>
            || ts[i].breaks.Never?
            || Size(ts, i) <= Offline(cfg, st0, ts, i).space
            || exists m :: 0 <= m < |Offline(cfg, st0, ts, i).printStack|
                           && Offline(cfg, st0, ts, i).printStack[m].breaks.AlwaysFits?
  {
    var before := Offline(cfg, st0, ts, i);
    OfflineCounts(cfg, st0, ts, i);
    if before.alwaysFits > 0 {
      CountedExists(before.printStack);
    } else if m :| 0 <= m < |before.printStack| && before.printStack[m].breaks.AlwaysFits? {
      CountedEntry(before.printStack, m);
    }
  }
}
