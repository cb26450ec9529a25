/** What a reader sees of groups in the printed text. */
module PrettyText {
  import opened Options
  import opened PrettyTokens
  import opened PrettyScan
  import opened PrettyLevels
  import opened PrettyGroups
  import opened PrettyLayout

  // ---------------------------------------------------------------------------------------------
  // Groups that do not fit
  // ---------------------------------------------------------------------------------------------

  /** Token `i` begins a group that may be broken, and is too large for the space that is left. */
  ghost predicate DoesNotFit(cfg: Config, st0: PrintState, ts: seq<Token>, i: nat) {
    && i < |ts| && ts[i].Begin? && !ts[i].breaks.Never? && !InNever(ts, i)
    && Size(ts, i) > Offline(cfg, st0, ts, i).space
  }

  lemma BrokenIffDoesNotFit(cfg: Config, st0: PrintState, ts: seq<Token>, i: nat)
    requires Rested(cfg, st0) && i < |ts|
    ensures IsBroken(PageOf(cfg, st0), ts, i) <==> DoesNotFit(cfg, st0, ts, i)
  {
    OfflineIsLayout(cfg, st0, ts, i);
  }

  /** What a break adds to the text. */
  lemma BreakAdds(cfg: Config, st0: PrintState, ts: seq<Token>, k: nat)
    requires Rested(cfg, st0) && k < |ts| && ts[k].Break?
    ensures Offline(cfg, st0, ts, k + 1).out ==
            Offline(cfg, st0, ts, k).out + if NewLine(PageOf(cfg, st0), ts, k) then "\n" else ""
  {
    var p := PageOf(cfg, st0);
    OfflineIsLayout(cfg, st0, ts, k);
    OfflineIsLayout(cfg, st0, ts, k + 1);
    var more := if NewLine(p, ts, k) then "\n" else "";
    assert Text(p, ts, k + 1) == Text(p, ts, k) + more;
    assert st0.out + (Text(p, ts, k) + more) == st0.out + Text(p, ts, k) + more;
  }

  lemma StartsIffNewLine(cfg: Config, st0: PrintState, ts: seq<Token>, k: nat)
    requires Rested(cfg, st0) && k < |ts| && ts[k].Break?
    ensures Offline(cfg, st0, ts, k + 1).out == Offline(cfg, st0, ts, k).out + "\n" <==>
            NewLine(PageOf(cfg, st0), ts, k)
  {
    BreakAdds(cfg, st0, ts, k);
    var out := Offline(cfg, st0, ts, k).out;
    assert |out + "\n"| == |out| + 1 && |out + ""| == |out|;
  }

  /** Of the breaks directly in a group that does not fit, all start a line if it is consistent, and exactly those with
      too large a size if it is inconsistent, apart from those that never break. In a group that fits, none does. */
  lemma BreaksOfGroup(cfg: Config, st0: PrintState, ts: seq<Token>, i: nat, k: nat)
    requires Rested(cfg, st0) && k < |ts| && ts[k].Break? && Enclosing(ts, k) == Some(i)
    ensures var st := Offline(cfg, st0, ts, k);
            var starts := DoesNotFit(cfg, st0, ts, i) && !ts[k].neverbreak
                          && (ts[i].breaks.Consistent? || Size(ts, k) > st.space);
            Offline(cfg, st0, ts, k + 1).out == st.out + if starts then "\n" else ""
  {
    BreakAdds(cfg, st0, ts, k);
    OfflineIsLayout(cfg, st0, ts, k);
    BrokenIffDoesNotFit(cfg, st0, ts, i);
  }

  /** Outside of all groups, breaks start a line if their size is too large. */
  lemma BreaksOutside(cfg: Config, st0: PrintState, ts: seq<Token>, k: nat)
    requires Rested(cfg, st0) && k < |ts| && ts[k].Break? && Enclosing(ts, k).None?
    ensures var st := Offline(cfg, st0, ts, k);
            Offline(cfg, st0, ts, k + 1).out ==
            st.out + if !ts[k].neverbreak && Size(ts, k) > st.space then "\n" else ""
  {
    BreakAdds(cfg, st0, ts, k);
    OfflineIsLayout(cfg, st0, ts, k);
  }

  /** The column at which the group begins, or the indentation around it, and its offset. */
  ghost function IndentOfGroup(cfg: Config, st: PrintState, t: Token, start: int): int
    requires t.Begin?
  {
    var from := if t.style.Visual? then Column(st.out, start) + st.pendingIndentation else st.indent;
    Clamp(from + t.offset, 0, cfg.maxStartingIndent)
  }

  lemma GroupIndentIs(cfg: Config, st0: PrintState, ts: seq<Token>, i: nat, start: int)
    requires Rested(cfg, st0) && i < |ts| && ts[i].Begin?
    requires OnMargin(cfg, st0, start) && forall j :: 0 <= j < |ts| ==> OneLine(ts[j])
    ensures GroupIndent(PageOf(cfg, st0), ts, i) == IndentOfGroup(cfg, Offline(cfg, st0, ts, i), ts[i], start)
  {
    OfflineIsLayout(cfg, st0, ts, i);
    OfflineStaysOnMargin(cfg, st0, ts, i, start);
  }

  /** Only groups begin or end. */
  predicate NoText(ts: seq<Token>, k: nat, m: nat) {
    k <= m <= |ts| && forall j :: k <= j < m ==> ts[j].Begin? || ts[j].End?
  }

  lemma {:induction false} NothingBetween(p: Page, ts: seq<Token>, k: nat, m: nat)
    requires NoText(ts, k, m)
    ensures Pending(p, ts, m) == Pending(p, ts, k) && Text(p, ts, m) == Text(p, ts, k)
    decreases m
  {
    if k < m {
      NothingBetween(p, ts, k, m - 1);
      SamePlace(p, ts, m - 1);
    }
  }

  lemma TextAdds(cfg: Config, st0: PrintState, ts: seq<Token>, m: nat)
    requires m < |ts| && ts[m].String?
    ensures var st := Offline(cfg, st0, ts, m);
            Offline(cfg, st0, ts, m + 1).out == st.out + Spaces(st.pendingIndentation) + ts[m].text
  {
  }

  lemma PendingAtText(cfg: Config, st0: PrintState, ts: seq<Token>, k: nat, m: nat)
    requires Rested(cfg, st0) && k < m < |ts| && ts[k].Break? && NewLine(PageOf(cfg, st0), ts, k)
    requires NoText(ts, k + 1, m)
    ensures Offline(cfg, st0, ts, m).out == Offline(cfg, st0, ts, k).out + "\n"
    ensures Offline(cfg, st0, ts, m).pendingIndentation == LineStart(PageOf(cfg, st0), ts, k)
  {
    var p := PageOf(cfg, st0);
    BreakAdds(cfg, st0, ts, k);
    SameOut(cfg, st0, ts, k + 1, m);
    NothingBetween(p, ts, k + 1, m);
    PendingAfterBreak(p, ts, k);
    PendingOf(cfg, st0, ts, m);
  }

  lemma PendingOf(cfg: Config, st0: PrintState, ts: seq<Token>, k: nat)
    requires Rested(cfg, st0) && k <= |ts|
    ensures Offline(cfg, st0, ts, k).pendingIndentation == Pending(PageOf(cfg, st0), ts, k)
  {
    OfflineIsLayout(cfg, st0, ts, k);
  }

  lemma LineStartIs(cfg: Config, st0: PrintState, ts: seq<Token>, i: nat, k: nat, start: int)
    requires Rested(cfg, st0) && k < |ts| && ts[k].Break? && Enclosing(ts, k) == Some(i) && DoesNotFit(cfg, st0, ts, i)
    requires OnMargin(cfg, st0, start) && forall j :: 0 <= j < |ts| ==> OneLine(ts[j])
    ensures var indent := IndentOfGroup(cfg, Offline(cfg, st0, ts, i), ts[i], start);
            LineStart(PageOf(cfg, st0), ts, k) == Clamp(indent + ts[k].breakOffset, 0, cfg.maxStartingIndent)
  {
    GroupIndentIs(cfg, st0, ts, i, start);
    BrokenIffDoesNotFit(cfg, st0, ts, i);
  }

  /** A line that is started by a break directly in a group that does not fit begins at the indentation of the group
      plus the offset of the break. */
  lemma LineOfGroup(cfg: Config, st0: PrintState, ts: seq<Token>, i: nat, k: nat, m: nat, start: int)
    requires Rested(cfg, st0) && k < m < |ts| && ts[k].Break? && Enclosing(ts, k) == Some(i)
    requires DoesNotFit(cfg, st0, ts, i) && Offline(cfg, st0, ts, k + 1).out == Offline(cfg, st0, ts, k).out + "\n"
    requires NoText(ts, k + 1, m) && ts[m].String?
    requires OnMargin(cfg, st0, start) && forall j :: 0 <= j < |ts| ==> OneLine(ts[j])
    ensures var indent := IndentOfGroup(cfg, Offline(cfg, st0, ts, i), ts[i], start);
            Offline(cfg, st0, ts, m + 1).out ==
            Offline(cfg, st0, ts, k).out + "\n"
            + Spaces(Clamp(indent + ts[k].breakOffset, 0, cfg.maxStartingIndent)) + ts[m].text
  {
    StartsIffNewLine(cfg, st0, ts, k);
    PendingAtText(cfg, st0, ts, k, m);
    LineStartIs(cfg, st0, ts, i, k, start);
    TextAdds(cfg, st0, ts, m);
  }

  lemma PendingAfterBreak(p: Page, ts: seq<Token>, k: nat)
    requires k < |ts| && ts[k].Break? && NewLine(p, ts, k)
    ensures Pending(p, ts, k + 1) == LineStart(p, ts, k)
  {
  }

  lemma SameOut(cfg: Config, st0: PrintState, ts: seq<Token>, k: nat, m: nat)
    requires Rested(cfg, st0) && NoText(ts, k, m)
    ensures Offline(cfg, st0, ts, m).out == Offline(cfg, st0, ts, k).out
  {
    OfflineIsLayout(cfg, st0, ts, k);
    OfflineIsLayout(cfg, st0, ts, m);
    NothingBetween(PageOf(cfg, st0), ts, k, m);
  }

  /** After the end of a group, the indentation is that before its begin. */
  lemma EndRestores(cfg: Config, st0: PrintState, ts: seq<Token>, i: nat, k: nat)
    requires Rested(cfg, st0) && k < |ts| && ts[k].End? && Enclosing(ts, k) == Some(i)
    ensures Offline(cfg, st0, ts, k + 1).indent == Offline(cfg, st0, ts, i).indent
  {
    InnerGroup(cfg, st0, ts, i);
    IndentAfterEnd(PageOf(cfg, st0), ts, k, i);
    OfflineIsLayout(cfg, st0, ts, i);
    OfflineIsLayout(cfg, st0, ts, k + 1);
  }

  /** When all groups have ended, the printer is where it was at the start. */
  lemma RestedAgain(cfg: Config, st0: PrintState, ts: seq<Token>)
    requires Rested(cfg, st0) && WellNested(ts) && Depth(ts) == 0
    ensures Rested(cfg, Offline(cfg, st0, ts, |ts|))
    ensures Offline(cfg, st0, ts, |ts|).out == st0.out + Text(PageOf(cfg, st0), ts, |ts|)
  {
    assert ts[..|ts|] == ts;
    OfflineDepth(cfg, st0, ts, |ts|);
    OfflineIsLayout(cfg, st0, ts, |ts|);
  }

  // ---------------------------------------------------------------------------------------------
  // Between the texts
  // ---------------------------------------------------------------------------------------------

  predicate IsBlank(s: string) {
    forall c <- s :: c == ' ' || c == '\n'
  }

  function Texts(ts: seq<Token>, k: nat): seq<string>
    requires k <= |ts|
  {
    if k == 0 then [] else Texts(ts, k - 1) + if ts[k - 1].String? then [ts[k - 1].text] else []
  }

  /** Texts with a gap before each of them, and one at the end. */
  function Woven(gaps: seq<string>, texts: seq<string>, last: string): string
    requires |gaps| == |texts|
  {
    if texts == [] then last else
      var n := |texts| - 1;
      Woven(gaps[..n], texts[..n], gaps[n]) + texts[n] + last
  }

  ghost predicate AreBlank(gaps: seq<string>) {
    forall g <- gaps :: IsBlank(g)
  }

  lemma WovenMore(gaps: seq<string>, texts: seq<string>, last: string, more: string)
    requires |gaps| == |texts|
    ensures Woven(gaps, texts, last + more) == Woven(gaps, texts, last) + more
  {
    if texts != [] {
      var n := |texts| - 1;
      var before := Woven(gaps[..n], texts[..n], gaps[n]) + texts[n];
      assert before + (last + more) == before + last + more;
    }
  }

  lemma WovenText(gaps: seq<string>, texts: seq<string>, last: string, text: string)
    requires |gaps| == |texts|
    ensures Woven(gaps + [last], texts + [text], "") == Woven(gaps, texts, last) + text
  {
    var n := |texts|;
    assert (gaps + [last])[..n] == gaps && (texts + [text])[..n] == texts;
    assert Woven(gaps, texts, last) + text + "" == Woven(gaps, texts, last) + text;
  }

  /** All that is printed besides the texts, which are all there and in order, is spaces and newlines. */
  lemma {:induction false} OnlyBlanksBetween(p: Page, ts: seq<Token>, k: nat)
    returns (gaps: seq<string>, last: string)
    requires k <= |ts|
    ensures |gaps| == |Texts(ts, k)| && AreBlank(gaps) && IsBlank(last)
    ensures Text(p, ts, k) == Woven(gaps, Texts(ts, k), last)
    decreases k
  {
    if k == 0 {
      gaps, last := [], "";
    } else {
      gaps, last := OnlyBlanksBetween(p, ts, k - 1);
      var texts := Texts(ts, k - 1);
      match ts[k - 1]
      case String(text) =>
        var spaces := Spaces(Pending(p, ts, k - 1));
        WovenMore(gaps, texts, last, spaces);
        WovenText(gaps, texts, last + spaces, text);
        gaps, last := gaps + [last + spaces], "";
        assert Text(p, ts, k) == Text(p, ts, k - 1) + spaces + text;
        assert Texts(ts, k) == texts + [text];
      case Break(_, _, _) =>
        var more := if NewLine(p, ts, k - 1) then "\n" else "";
        WovenMore(gaps, texts, last, more);
        last := last + more;
        assert Texts(ts, k) == texts + [] == texts;
      case _ =>
        assert Texts(ts, k) == texts + [] == texts;
    }
  }
}
