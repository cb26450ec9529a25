/** Tokens, the printing of one token, and the offline printer, which knows the size of every token in advance. */
module PrettyTokens {

  /** The size of anything that is known not to fit on a line. */
  const INFINITY: nat := 0x7FFF

  datatype Breaks = Consistent | Inconsistent | Never

  datatype IndentStyle = Visual | Block

  datatype Token =
    | String(text: string)
    | Break(spaces: nat, breakOffset: int, neverbreak: bool)
    | Begin(offset: int, breaks: Breaks, style: IndentStyle)
    | End

  // ---------------------------------------------------------------------------------------------
  // Sizes
  // ---------------------------------------------------------------------------------------------

  /** The width of a token on an unbroken line. */
  function Width(t: Token): nat {
    match t
    case String(text) => |text|
    case Break(spaces, _, _) => spaces
    case _ => 0
  }

  function TotalWidth(ts: seq<Token>): nat {
    if ts == [] then 0 else Width(ts[0]) + TotalWidth(ts[1..])
  }

  /** The width of what follows up to the next break, where `open` groups have to be closed first. Closing a group that
      has been opened earlier does not matter. */
  function Rest(ts: seq<Token>, open: nat): nat {
    if ts == [] then 0 else
      match ts[0]
      case String(text) => |text| + Rest(ts[1..], open)
      case Break(spaces, _, _) => if open == 0 then 0 else spaces + Rest(ts[1..], open)
      case Begin(_, _, _) => Rest(ts[1..], open + 1)
      case End => Rest(ts[1..], if open == 0 then 0 else open - 1)
  }

  /** The groups that a token opens itself. */
  function Opens(t: Token): nat {
    if t.Begin? then 1 else 0
  }

  /** The size that decides whether a group fits, or a break may stay unbroken: everything up to the next break that is
      in no group that begins with or after the token. */
  function Size(ts: seq<Token>, i: nat): nat
    requires i < |ts|
  {
    match ts[i]
    case String(text) => |text|
    case End => 0
    case _ => Width(ts[i]) + Rest(ts[i + 1..], Opens(ts[i]))
  }

  // ---------------------------------------------------------------------------------------------
  // Printing one token
  // ---------------------------------------------------------------------------------------------

  datatype PrintBreaks = PrintConsistent | PrintInconsistent | AlwaysFits | Fits

  datatype PrintEntry = PrintEntry(offset: int, breaks: PrintBreaks)

  datatype Config = Config(margin: nat, maxStartingIndent: nat, defaultFrame: PrintEntry)

  /** What printing updates. */
  datatype PrintState = PrintState(space: int, indent: int, pendingIndentation: int, printStack: seq<PrintEntry>,
                                   alwaysFits: int, out: string)

  function Spaces(n: int): (s: string)
    ensures n >= 0 ==> |s| == n
  {
    if n <= 0 then "" else seq(n, i => ' ')
  }

  function Clamp(x: int, low: int, high: int): int {
    if x < low then low else if x > high then high else x
  }

  function NewIndent(cfg: Config, indent: int, offset: int): int {
    Clamp(indent + offset, 0, cfg.maxStartingIndent)
  }

  function Frame(cfg: Config, st: PrintState): PrintEntry {
    if st.printStack == [] then cfg.defaultFrame else st.printStack[|st.printStack| - 1]
  }

  /** Whether a break stays on the line. */
  predicate StaysOnLine(cfg: Config, st: PrintState, b: Token, size: int)
    requires b.Break?
  {
    || st.alwaysFits > 0 || b.neverbreak
    || Frame(cfg, st).breaks.Fits?
    || (Frame(cfg, st).breaks.PrintInconsistent? && size <= st.space)
  }

  /** Whether printing the token starts a new line. */
  predicate StartsLine(cfg: Config, st: PrintState, t: Token, size: int) {
    t.Break? && !StaysOnLine(cfg, st, t, size)
  }

  function BrokenFrame(cfg: Config, st: PrintState, t: Token): PrintEntry
    requires t.Begin?
  {
    var base := if t.style.Visual? then cfg.margin - st.space else st.indent;
    PrintEntry(NewIndent(cfg, base, t.offset), if t.breaks.Consistent? then PrintConsistent else PrintInconsistent)
  }

  function Print(cfg: Config, st: PrintState, t: Token, size: int): PrintState {
    match t
    case String(text) =>
      st.(space := st.space - size, out := st.out + Spaces(st.pendingIndentation) + text, pendingIndentation := 0)
    case Break(spaces, offset, _) =>
      if StaysOnLine(cfg, st, t, size) then
        st.(space := st.space - spaces, pendingIndentation := st.pendingIndentation + spaces)
      else
        var indentation := NewIndent(cfg, st.indent, offset);
        st.(out := st.out + "\n", pendingIndentation := indentation, space := cfg.margin - indentation)
    case Begin(offset, breaks, style) =>
      if breaks.Never? then
        st.(printStack := st.printStack + [PrintEntry(0, AlwaysFits)], alwaysFits := st.alwaysFits + 1)
      else if size > st.space && st.alwaysFits == 0 then
        var frame := BrokenFrame(cfg, st, t);
        st.(indent := frame.offset, printStack := st.printStack + [frame])
      else
        st.(printStack := st.printStack + [PrintEntry(0, Fits)])
    case End =>
      if st.printStack == [] then st else
        var st1 := st.(alwaysFits := if Frame(cfg, st).breaks.AlwaysFits? then st.alwaysFits - 1 else st.alwaysFits,
                       printStack := st.printStack[..|st.printStack| - 1]);
        var frame := Frame(cfg, st1);
        if frame.breaks.Fits? || frame.breaks.AlwaysFits? then st1 else st1.(indent := frame.offset)
  }

  /** Sizes matter only by whether they exceed the space that is left. */
  lemma OnlyFitMatters(cfg: Config, st: PrintState, t: Token, size: int, size': int)
    requires t.String? ==> size == size'
    requires t.Begin? || t.Break? ==> (size > st.space <==> size' > st.space)
    ensures Print(cfg, st, t, size) == Print(cfg, st, t, size')
  {
  }

  // ---------------------------------------------------------------------------------------------
  // The offline printer
  // ---------------------------------------------------------------------------------------------

  /** Prints the first `k` tokens, with sizes taken from the whole stream. */
  function Offline(cfg: Config, st: PrintState, ts: seq<Token>, k: nat): PrintState
    requires k <= |ts|
  {
    if k == 0 then st else Print(cfg, Offline(cfg, st, ts, k - 1), ts[k - 1], Size(ts, k - 1))
  }

  // ---------------------------------------------------------------------------------------------
  // Where the printer is on the line
  // ---------------------------------------------------------------------------------------------

  /** The column after printing `out`, starting from column `start`. */
  function Column(out: string, start: int): int {
    if out == "" then start
    else if out[|out| - 1] == '\n' then 0
    else Column(out[..|out| - 1], start) + 1
  }

  ghost predicate OneLine(t: Token) {
    t.String? ==> '\n' !in t.text
  }

  lemma {:induction false} ColumnOf(out: string, text: string, start: int)
    requires '\n' !in text
    ensures Column(out + text, start) == Column(out, start) + |text|
  {
    if text == "" {
      assert out + text == out;
    } else {
      var init := text[..|text| - 1];
      assert (out + text)[..|out + text| - 1] == out + init;
      ColumnOf(out, init, start);
    }
  }

  /** Space, column and pending indentation always add up to the margin. */
  ghost predicate OnMargin(cfg: Config, st: PrintState, start: int) {
    st.pendingIndentation >= 0 && st.space + Column(st.out, start) + st.pendingIndentation == cfg.margin
  }

  lemma PrintStaysOnMargin(cfg: Config, st: PrintState, t: Token, size: int, start: int)
    requires OnMargin(cfg, st, start) && OneLine(t) && (t.String? ==> size == |t.text|)
    ensures OnMargin(cfg, Print(cfg, st, t, size), start)
  {
    if t.String? {
      var indented := st.out + Spaces(st.pendingIndentation);
      ColumnOf(st.out, Spaces(st.pendingIndentation), start);
      ColumnOf(indented, t.text, start);
    }
  }

  lemma {:induction false} OfflineStaysOnMargin(cfg: Config, st: PrintState, ts: seq<Token>, k: nat, start: int)
    requires k <= |ts| && OnMargin(cfg, st, start) && forall i :: 0 <= i < k ==> OneLine(ts[i])
    ensures OnMargin(cfg, Offline(cfg, st, ts, k), start)
  {
    if k > 0 {
      OfflineStaysOnMargin(cfg, st, ts, k - 1, start);
      PrintStaysOnMargin(cfg, Offline(cfg, st, ts, k - 1), ts[k - 1], Size(ts, k - 1), start);
    }
  }
}
