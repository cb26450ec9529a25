/** What the printed text looks like: where lines start, and at which columns, group by group. */
module PrettyLayout {
  // This is defined over the tokens and the groups that they form, without a state that is updated from token to token.

  import opened Options
  import opened PrettyTokens
  import opened PrettyScan
  import opened PrettyLevels
  import opened PrettyGroups

  /** The margin, the greatest indentation, that outside of all groups, and where printing starts: the column, including
      the spaces that are still to be printed. */
  datatype Page = Page(margin: int, maxIndent: int, base: int, column: int, pending: int)

  // ---------------------------------------------------------------------------------------------
  // Layout
  // ---------------------------------------------------------------------------------------------

  /** The innermost group that is open before token `k`, as the index of its begin. */
  function Enclosing(ts: seq<Token>, k: nat): (i: Option<nat>)
    requires k <= |ts|
    ensures i.Some? ==> i.value < k && ts[i.value].Begin?
  {
    if k == 0 then None
    else if ts[k - 1].Begin? then Some(k - 1)
    else if ts[k - 1].End? && Enclosing(ts, k - 1).Some? then Enclosing(ts, Enclosing(ts, k - 1).value)
    else Enclosing(ts, k - 1)
  }

  /** Some group around token `k` never breaks. */
  predicate InNever(ts: seq<Token>, k: nat)
    requires k <= |ts|
  {
    var i := Enclosing(ts, k);
    i.Some? && (ts[i.value].breaks.Never? || InNever(ts, i.value))
  }

  /** At least 0, and at most the greatest indentation. */
  function Within(p: Page, x: int): int {
    if x < 0 then 0 else if x > p.maxIndent then p.maxIndent else x
  }

  /** The column at which token `k` is printed. */
  function ColumnAt(p: Page, ts: seq<Token>, k: nat): int
    requires k <= |ts|
    decreases k, 0
  {
    if k == 0 then p.column else
      match ts[k - 1]
      case String(text) => ColumnAt(p, ts, k - 1) + |text|
      case Break(spaces, _, _) =>
        if NewLine(p, ts, k - 1) then LineStart(p, ts, k - 1) else ColumnAt(p, ts, k - 1) + spaces
      case _ => ColumnAt(p, ts, k - 1)
  }

  /** The group that token `i` begins does not fit: it does not end on the line, up to the next break after it, and may
      be broken. */
  predicate IsBroken(p: Page, ts: seq<Token>, i: nat)
    requires i < |ts|
    decreases i, 1
  {
    && ts[i].Begin? && !ts[i].breaks.Never? && !InNever(ts, i)
    && ColumnAt(p, ts, i) + Size(ts, i) > p.margin
  }

  /** The indentation of a group that is broken: relative to where it begins, or to the indentation around it. */
  function GroupIndent(p: Page, ts: seq<Token>, i: nat): int
    requires i < |ts| && ts[i].Begin?
    decreases i, 3
  {
    Within(p, (if ts[i].style.Visual? then ColumnAt(p, ts, i) else Indent(p, ts, i)) + ts[i].offset)
  }

  /** The indentation before token `k`: that of the innermost group that is broken. */
  function Indent(p: Page, ts: seq<Token>, k: nat): int
    requires k <= |ts|
    decreases k, 2
  {
    match Enclosing(ts, k)
    case None => p.base
    case Some(i) => if IsBroken(p, ts, i) then GroupIndent(p, ts, i) else Indent(p, ts, i)
  }

  /** Whether the break starts a line: in a group that is broken consistently, each does, and in one that is broken
      inconsistently, or outside of all groups, those do after which too much follows. */
  predicate NewLine(p: Page, ts: seq<Token>, k: nat)
    requires k < |ts|
    decreases k, 4
  {
    && ts[k].Break? && !ts[k].neverbreak
    && match Enclosing(ts, k)
       case None => ColumnAt(p, ts, k) + Size(ts, k) > p.margin
       case Some(i) =>
         IsBroken(p, ts, i) && (ts[i].breaks.Consistent? || ColumnAt(p, ts, k) + Size(ts, k) > p.margin)
  }

  /** Where the line starts that the break starts. */
  function LineStart(p: Page, ts: seq<Token>, k: nat): int
    requires k < |ts| && ts[k].Break?
    decreases k, 4
  {
    Within(p, Indent(p, ts, k) + ts[k].breakOffset)
  }

  /** The spaces that have not been printed before token `k`: they are only printed before a text. */
  function Pending(p: Page, ts: seq<Token>, k: nat): int
    requires k <= |ts|
  {
    if k == 0 then p.pending else
      match ts[k - 1]
      case String(_) => 0
      case Break(spaces, _, _) =>
        if NewLine(p, ts, k - 1) then LineStart(p, ts, k - 1) else Pending(p, ts, k - 1) + spaces
      case _ => Pending(p, ts, k - 1)
  }

  /** The text of the first `k` tokens. */
  function Text(p: Page, ts: seq<Token>, k: nat): string
    requires k <= |ts|
  {
    if k == 0 then "" else
      match ts[k - 1]
      case String(text) => Text(p, ts, k - 1) + Spaces(Pending(p, ts, k - 1)) + text
      case Break(_, _, _) => Text(p, ts, k - 1) + if NewLine(p, ts, k - 1) then "\n" else ""
      case _ => Text(p, ts, k - 1)
  }

  // ---------------------------------------------------------------------------------------------
  // Groups
  // ---------------------------------------------------------------------------------------------

  /** Inside of an inner group, the outer group has been opened as often as before it, and as often as the inner one. */
  lemma {:induction false} OpenInside(ts: seq<Token>, i: nat, j: nat, k: nat)
    requires i < j && InGroup(ts, j, k) && OpenSince(ts, i, j) == 1
    ensures OpenSince(ts, i, k) == OpenSince(ts, j, k) + 1
    decreases k
  {
    if k == j + 1 {
      OpenSinceStep(ts, i, j);
      assert ts[j + 1..j + 1] == [];
    } else {
      InGroupBefore(ts, j, k);
      OpenInside(ts, i, j, k - 1);
      OpenSinceStep(ts, i, k - 1);
      OpenSinceStep(ts, j, k - 1);
      assert OpenSince(ts, j, k - 1) > 0;
    }
  }

  /** The innermost group that is open is open once. */
  lemma {:induction false} EnclosingIsOpen(ts: seq<Token>, k: nat)
    requires k <= |ts| && Enclosing(ts, k).Some?
    ensures InGroup(ts, Enclosing(ts, k).value, k) && OpenSince(ts, Enclosing(ts, k).value, k) == 1
    decreases k
  {
    var i := Enclosing(ts, k).value;
    if ts[k - 1].Begin? {
      assert ts[k..k] == [];
    } else if ts[k - 1].End? {
      EnclosingIsOpen(ts, k - 1);
      EndOfInner(ts, i, Enclosing(ts, k - 1).value, k - 1);
    } else {
      EnclosingIsOpen(ts, k - 1);
      OpenSinceStep(ts, i, k - 1);
      InGroupStep(ts, i, k - 1);
    }
  }

  lemma InGroupStep(ts: seq<Token>, i: nat, k: nat)
    requires InGroup(ts, i, k) && k < |ts| && OpenSince(ts, i, k + 1) > 0
    ensures InGroup(ts, i, k + 1)
  {
  }

  lemma {:induction false} EndOfInner(ts: seq<Token>, i: nat, j: nat, k: nat)
    requires j < k < |ts| && ts[k].End? && Enclosing(ts, j) == Some(i)
    requires InGroup(ts, j, k) && OpenSince(ts, j, k) == 1
    ensures InGroup(ts, i, k + 1) && OpenSince(ts, i, k + 1) == 1
    decreases k, 0
  {
    EnclosingIsOpen(ts, j);
    forall m | j < m <= k ensures OpenSince(ts, i, m) > 0 {
      InGroupPrefix(ts, j, k, m);
      OpenInside(ts, i, j, m);
    }
    OpenInside(ts, i, j, k);
    OpenSinceStep(ts, i, k);
  }

  lemma InGroupPrefix(ts: seq<Token>, i: nat, k: nat, m: nat)
    requires InGroup(ts, i, k) && i < m <= k
    ensures InGroup(ts, i, m)
  {
  }

  // ---------------------------------------------------------------------------------------------
  // The entries of the print stack
  // ---------------------------------------------------------------------------------------------

  function EntryOf(p: Page, ts: seq<Token>, i: nat): PrintEntry
    requires i < |ts| && ts[i].Begin?
  {
    if ts[i].breaks.Never? then PrintEntry(0, AlwaysFits)
    else if IsBroken(p, ts, i) then
      PrintEntry(GroupIndent(p, ts, i), if ts[i].breaks.Consistent? then PrintConsistent else PrintInconsistent)
    else PrintEntry(0, Fits)
  }

  /** One for each group that is open. */
  function Entries(p: Page, ts: seq<Token>, k: nat): seq<PrintEntry>
    requires k <= |ts|
  {
    match Enclosing(ts, k)
    case None => []
    case Some(i) => Entries(p, ts, i) + [EntryOf(p, ts, i)]
  }

  lemma {:induction false} NeverIsCounted(p: Page, ts: seq<Token>, k: nat)
    requires k <= |ts|
    ensures CountAlways(Entries(p, ts, k)) > 0 <==> InNever(ts, k)
    decreases k
  {
    if Enclosing(ts, k).Some? {
      var i := Enclosing(ts, k).value;
      NeverIsCounted(p, ts, i);
      CountAlwaysPop(Entries(p, ts, k));
      assert Entries(p, ts, k)[..|Entries(p, ts, k)| - 1] == Entries(p, ts, i);
    }
  }

  // ---------------------------------------------------------------------------------------------
  // The offline printer
  // ---------------------------------------------------------------------------------------------

  /** Outside of all groups, with the base indentation. */
  ghost predicate Rested(cfg: Config, st: PrintState) {
    && st.printStack == [] && st.alwaysFits == 0
    && cfg.defaultFrame.breaks.PrintInconsistent? && st.indent == cfg.defaultFrame.offset
  }

  function PageOf(cfg: Config, st: PrintState): Page {
    Page(cfg.margin, cfg.maxStartingIndent, cfg.defaultFrame.offset, cfg.margin - st.space, st.pendingIndentation)
  }

  /** The state is that of the layout before token `k`. */
  ghost predicate IsLaidOut(cfg: Config, p: Page, ts: seq<Token>, k: nat, before: string, st: PrintState)
    requires k <= |ts|
  {
    && st.space == cfg.margin - ColumnAt(p, ts, k) && st.indent == Indent(p, ts, k)
    && st.pendingIndentation == Pending(p, ts, k) && st.out == before + Text(p, ts, k)
    && st.printStack == Entries(p, ts, k) && st.alwaysFits == CountAlways(st.printStack)
  }

  ghost predicate Lays(cfg: Config, st0: PrintState, ts: seq<Token>, k: nat) {
    k <= |ts| && IsLaidOut(cfg, PageOf(cfg, st0), ts, k, st0.out, Offline(cfg, st0, ts, k))
  }

  /** The page of the printer. */
  ghost predicate IsPage(cfg: Config, p: Page) {
    && p.margin == cfg.margin && p.maxIndent == cfg.maxStartingIndent && p.base == cfg.defaultFrame.offset
    && cfg.defaultFrame.breaks.PrintInconsistent?
  }

  lemma FrameOf(cfg: Config, p: Page, ts: seq<Token>, k: nat, st: PrintState)
    requires k <= |ts| && st.printStack == Entries(p, ts, k)
    ensures Frame(cfg, st) ==
            match Enclosing(ts, k) case None => cfg.defaultFrame case Some(i) => EntryOf(p, ts, i)
  {
  }

  lemma StringStep(cfg: Config, p: Page, ts: seq<Token>, k: nat, before: string, st: PrintState)
    requires IsPage(cfg, p) && k < |ts| && ts[k].String? && IsLaidOut(cfg, p, ts, k, before, st)
    ensures IsLaidOut(cfg, p, ts, k + 1, before, Print(cfg, st, ts[k], Size(ts, k)))
  {
  }

  /** The printer and the layout agree on which breaks start a line. */
  lemma BreakAgrees(cfg: Config, p: Page, ts: seq<Token>, k: nat, before: string, st: PrintState)
    requires IsPage(cfg, p) && k < |ts| && ts[k].Break? && IsLaidOut(cfg, p, ts, k, before, st)
    ensures StaysOnLine(cfg, st, ts[k], Size(ts, k)) <==> !NewLine(p, ts, k)
  {
    FrameOf(cfg, p, ts, k, st);
    NeverIsCounted(p, ts, k);
  }

  lemma BreakStep(cfg: Config, p: Page, ts: seq<Token>, k: nat, before: string, st: PrintState)
    requires IsPage(cfg, p) && k < |ts| && ts[k].Break? && IsLaidOut(cfg, p, ts, k, before, st)
    ensures IsLaidOut(cfg, p, ts, k + 1, before, Print(cfg, st, ts[k], Size(ts, k)))
  {
    BreakAgrees(cfg, p, ts, k, before, st);
    assert before + Text(p, ts, k) + "\n" == before + (Text(p, ts, k) + "\n");
    assert before + Text(p, ts, k) == before + (Text(p, ts, k) + "");
  }

  /** Begins and ends print nothing. */
  lemma SamePlace(p: Page, ts: seq<Token>, k: nat)
    requires k < |ts| && (ts[k].Begin? || ts[k].End?)
    ensures ColumnAt(p, ts, k + 1) == ColumnAt(p, ts, k)
    ensures Pending(p, ts, k + 1) == Pending(p, ts, k) && Text(p, ts, k + 1) == Text(p, ts, k)
  {
  }

  lemma EntriesOfBegin(p: Page, ts: seq<Token>, k: nat)
    requires k < |ts| && ts[k].Begin?
    ensures Entries(p, ts, k + 1) == Entries(p, ts, k) + [EntryOf(p, ts, k)]
    ensures Indent(p, ts, k + 1) == if IsBroken(p, ts, k) then GroupIndent(p, ts, k) else Indent(p, ts, k)
  {
    assert Enclosing(ts, k + 1) == Some(k);
  }

  /** The printer and the layout agree on which groups are broken, and how. */
  lemma BeginAgrees(cfg: Config, p: Page, ts: seq<Token>, k: nat, before: string, st: PrintState)
    requires IsPage(cfg, p) && k < |ts| && ts[k].Begin? && IsLaidOut(cfg, p, ts, k, before, st)
    ensures var entry := EntryOf(p, ts, k);
            Print(cfg, st, ts[k], Size(ts, k)) ==
            st.(indent := if IsBroken(p, ts, k) then GroupIndent(p, ts, k) else st.indent,
                printStack := st.printStack + [entry],
                alwaysFits := st.alwaysFits + if entry.breaks.AlwaysFits? then 1 else 0)
  {
    NeverIsCounted(p, ts, k);
  }

  lemma CountAlwaysPush(stack: seq<PrintEntry>, e: PrintEntry)
    ensures CountAlways(stack + [e]) == CountAlways(stack) + if e.breaks.AlwaysFits? then 1 else 0
  {
    assert (stack + [e])[..|stack|] == stack;
  }

  lemma BeginStep(cfg: Config, p: Page, ts: seq<Token>, k: nat, before: string, st: PrintState)
    requires IsPage(cfg, p) && k < |ts| && ts[k].Begin? && IsLaidOut(cfg, p, ts, k, before, st)
    ensures IsLaidOut(cfg, p, ts, k + 1, before, Print(cfg, st, ts[k], Size(ts, k)))
  {
    BeginAgrees(cfg, p, ts, k, before, st);
    SamePlace(p, ts, k);
    EntriesOfBegin(p, ts, k);
    CountAlwaysPush(st.printStack, EntryOf(p, ts, k));
  }

  /** A group inside of one that is not broken is not broken, either. */
  ghost predicate InnerIsUnbroken(p: Page, ts: seq<Token>, i: nat)
    requires i < |ts|
  {
    Enclosing(ts, i).Some? && !IsBroken(p, ts, Enclosing(ts, i).value) ==> !IsBroken(p, ts, i)
  }

  lemma IndentAfterEnd(p: Page, ts: seq<Token>, k: nat, i: nat)
    requires k < |ts| && ts[k].End? && Enclosing(ts, k) == Some(i) && InnerIsUnbroken(p, ts, i)
    ensures Enclosing(ts, k + 1) == Enclosing(ts, i) && Indent(p, ts, k + 1) == Indent(p, ts, i)
    ensures Enclosing(ts, i).Some? && !IsBroken(p, ts, Enclosing(ts, i).value) ==>
              Indent(p, ts, k) == Indent(p, ts, k + 1)
  {
  }

  lemma EntriesOfEnd(p: Page, ts: seq<Token>, k: nat, i: nat)
    requires k < |ts| && ts[k].End? && Enclosing(ts, k) == Some(i)
    ensures Entries(p, ts, k) == Entries(p, ts, i) + [EntryOf(p, ts, i)]
    ensures Entries(p, ts, k + 1) == Entries(p, ts, i)
  {
    assert Enclosing(ts, k + 1) == Enclosing(ts, i);
  }

  lemma IndentOfFrame(cfg: Config, p: Page, ts: seq<Token>, k: nat, st: PrintState)
    requires IsPage(cfg, p) && k <= |ts| && st.printStack == Entries(p, ts, k)
    requires !FitsEntry(Frame(cfg, st))
    ensures Frame(cfg, st).offset == Indent(p, ts, k)
    ensures Enclosing(ts, k).Some? ==> IsBroken(p, ts, Enclosing(ts, k).value)
  {
    FrameOf(cfg, p, ts, k, st);
  }

  lemma FittingFrame(cfg: Config, p: Page, ts: seq<Token>, k: nat, st: PrintState)
    requires IsPage(cfg, p) && k <= |ts| && st.printStack == Entries(p, ts, k) && FitsEntry(Frame(cfg, st))
    ensures Enclosing(ts, k).Some? && !IsBroken(p, ts, Enclosing(ts, k).value)
  {
    FrameOf(cfg, p, ts, k, st);
  }

  lemma PrintEnd(cfg: Config, st: PrintState, rest: seq<PrintEntry>, e: PrintEntry, size: int)
    requires st.printStack == rest + [e]
    ensures var frame := Frame(cfg, st.(printStack := rest));
            Print(cfg, st, End, size) ==
            st.(indent := if FitsEntry(frame) then st.indent else frame.offset, printStack := rest,
                alwaysFits := st.alwaysFits - if e.breaks.AlwaysFits? then 1 else 0)
  {
    assert st.printStack[..|st.printStack| - 1] == rest;
  }

  /** The indentation that the frame underneath has, or the one of the group that has ended. */
  lemma IndentUnderneath(cfg: Config, p: Page, ts: seq<Token>, k: nat, i: nat, popped: PrintState)
    requires IsPage(cfg, p) && k < |ts| && ts[k].End? && Enclosing(ts, k) == Some(i) && InnerIsUnbroken(p, ts, i)
    requires popped.printStack == Entries(p, ts, k + 1) && popped.indent == Indent(p, ts, k)
    ensures Indent(p, ts, k + 1) == if FitsEntry(Frame(cfg, popped)) then popped.indent else Frame(cfg, popped).offset
  {
    IndentAfterEnd(p, ts, k, i);
    if FitsEntry(Frame(cfg, popped)) {
      FittingFrame(cfg, p, ts, k + 1, popped);
    } else {
      IndentOfFrame(cfg, p, ts, k + 1, popped);
    }
  }

  /** The state after an end: the entry of the group is off the stack, and the indentation is that around it. */
  lemma EndAgrees(cfg: Config, p: Page, ts: seq<Token>, k: nat, i: nat, before: string, st: PrintState)
    requires IsPage(cfg, p) && k < |ts| && ts[k].End? && IsLaidOut(cfg, p, ts, k, before, st)
    requires Enclosing(ts, k) == Some(i) && InnerIsUnbroken(p, ts, i)
    ensures Print(cfg, st, ts[k], Size(ts, k)) ==
            st.(indent := Indent(p, ts, k + 1), printStack := Entries(p, ts, k + 1),
                alwaysFits := st.alwaysFits - if EntryOf(p, ts, i).breaks.AlwaysFits? then 1 else 0)
  {
    EntriesOfEnd(p, ts, k, i);
    PrintEnd(cfg, st, Entries(p, ts, k + 1), EntryOf(p, ts, i), Size(ts, k));
    IndentUnderneath(cfg, p, ts, k, i, st.(printStack := Entries(p, ts, k + 1)));
  }

  lemma EndStep(cfg: Config, p: Page, ts: seq<Token>, k: nat, before: string, st: PrintState)
    requires IsPage(cfg, p) && k < |ts| && ts[k].End? && IsLaidOut(cfg, p, ts, k, before, st)
    requires Enclosing(ts, k).Some? ==> InnerIsUnbroken(p, ts, Enclosing(ts, k).value)
    ensures IsLaidOut(cfg, p, ts, k + 1, before, Print(cfg, st, ts[k], Size(ts, k)))
  {
    SamePlace(p, ts, k);
    match Enclosing(ts, k)
    case None => EndOutside(cfg, p, ts, k, st);
    case Some(i) =>
      EndAgrees(cfg, p, ts, k, i, before, st);
      EntriesOfEnd(p, ts, k, i);
      CountAlwaysPush(Entries(p, ts, i), EntryOf(p, ts, i));
  }

  /** Outside of all groups, ends are ignored. */
  lemma EndOutside(cfg: Config, p: Page, ts: seq<Token>, k: nat, st: PrintState)
    requires k < |ts| && ts[k].End? && Enclosing(ts, k).None? && st.printStack == Entries(p, ts, k)
    ensures Print(cfg, st, ts[k], Size(ts, k)) == st
    ensures Entries(p, ts, k + 1) == Entries(p, ts, k) && Indent(p, ts, k + 1) == Indent(p, ts, k)
  {
    assert Enclosing(ts, k + 1).None?;
  }

  lemma StepIsLaidOut(cfg: Config, p: Page, ts: seq<Token>, k: nat, before: string, st: PrintState)
    requires IsPage(cfg, p) && k < |ts| && IsLaidOut(cfg, p, ts, k, before, st)
    requires ts[k].End? && Enclosing(ts, k).Some? ==> InnerIsUnbroken(p, ts, Enclosing(ts, k).value)
    ensures IsLaidOut(cfg, p, ts, k + 1, before, Print(cfg, st, ts[k], Size(ts, k)))
  {
    match ts[k]
    case String(_) => StringStep(cfg, p, ts, k, before, st);
    case Break(_, _, _) => BreakStep(cfg, p, ts, k, before, st);
    case Begin(_, _, _) => BeginStep(cfg, p, ts, k, before, st);
    case End => EndStep(cfg, p, ts, k, before, st);
  }

  lemma UnbrokenIsFitting(cfg: Config, st0: PrintState, ts: seq<Token>, j: nat)
    requires j < |ts| && ts[j].Begin? && Lays(cfg, st0, ts, j + 1) && !IsBroken(PageOf(cfg, st0), ts, j)
    ensures PrintedFitting(cfg, st0, ts, j)
  {
    assert Enclosing(ts, j + 1) == Some(j);
    FrameOf(cfg, PageOf(cfg, st0), ts, j + 1, Offline(cfg, st0, ts, j + 1));
  }

  lemma FittingIsUnbroken(cfg: Config, p: Page, ts: seq<Token>, i: nat, before: string, st: PrintState)
    requires IsPage(cfg, p) && i < |ts| && ts[i].Begin? && IsLaidOut(cfg, p, ts, i, before, st)
    requires Size(ts, i) <= st.space || st.alwaysFits > 0
    ensures !IsBroken(p, ts, i)
  {
    NeverIsCounted(p, ts, i);
  }

  lemma OnLineFits(cfg: Config, st0: PrintState, ts: seq<Token>, j: nat, i: nat)
    requires st0.alwaysFits == CountAlways(st0.printStack) && !cfg.defaultFrame.breaks.AlwaysFits?
    requires i < |ts| && ts[i].Begin? && InGroup(ts, j, i) && PrintedFitting(cfg, st0, ts, j)
    ensures Size(ts, i) <= Offline(cfg, st0, ts, i).space || Offline(cfg, st0, ts, i).alwaysFits > 0
  {
    GroupIsOnOneLine(cfg, st0, ts, j, i);
    OfflineCounts(cfg, st0, ts, i);
    BeginFits(cfg, ts, j, Offline(cfg, st0, ts, j), i, Offline(cfg, st0, ts, i));
  }

  lemma InnerFits(cfg: Config, st0: PrintState, ts: seq<Token>, j: nat, i: nat)
    requires Rested(cfg, st0) && i < |ts| && ts[i].Begin? && Enclosing(ts, i) == Some(j)
    requires Lays(cfg, st0, ts, j + 1) && Lays(cfg, st0, ts, i) && !IsBroken(PageOf(cfg, st0), ts, j)
    ensures InnerIsUnbroken(PageOf(cfg, st0), ts, i)
  {
    UnbrokenIsFitting(cfg, st0, ts, j);
    EnclosingIsOpen(ts, i);
    OnLineFits(cfg, st0, ts, j, i);
    FittingIsUnbroken(cfg, PageOf(cfg, st0), ts, i, st0.out, Offline(cfg, st0, ts, i));
  }

  lemma StartIsLaidOut(cfg: Config, st0: PrintState, ts: seq<Token>)
    requires Rested(cfg, st0)
    ensures Lays(cfg, st0, ts, 0)
  {
    assert st0.out + "" == st0.out;
  }

  /** The offline printer prints the text of the layout, and keeps track of the column, the indentation, the spaces that
      have not been printed, and the groups. */
  lemma {:induction false} OfflineIsLayout(cfg: Config, st0: PrintState, ts: seq<Token>, k: nat)
    requires Rested(cfg, st0) && k <= |ts|
    ensures Lays(cfg, st0, ts, k)
    decreases k, 0
  {
    if k == 0 {
      StartIsLaidOut(cfg, st0, ts);
    } else {
      var p, st := PageOf(cfg, st0), Offline(cfg, st0, ts, k - 1);
      OfflineIsLayout(cfg, st0, ts, k - 1);
      if ts[k - 1].End? && Enclosing(ts, k - 1).Some? {
        InnerGroup(cfg, st0, ts, Enclosing(ts, k - 1).value);
      }
      StepIsLaidOut(cfg, p, ts, k - 1, st0.out, st);
    }
  }

  lemma {:induction false} InnerGroup(cfg: Config, st0: PrintState, ts: seq<Token>, i: nat)
    requires Rested(cfg, st0) && i < |ts| && ts[i].Begin?
    ensures InnerIsUnbroken(PageOf(cfg, st0), ts, i)
    decreases i, 1
  {
    var outer := Enclosing(ts, i);
    if outer.Some? {
      if !IsBroken(PageOf(cfg, st0), ts, outer.value) {
        OfflineIsLayout(cfg, st0, ts, outer.value + 1);
        OfflineIsLayout(cfg, st0, ts, i);
        InnerFits(cfg, st0, ts, outer.value, i);
      }
    }
  }
}
