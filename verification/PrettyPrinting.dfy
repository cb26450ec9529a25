/** The streaming pretty printer. */
module PrettyPrinting {
  // It buffers tokens only as long as their sizes may matter, and still prints exactly what the offline printer
  // prints, which knows the size of every token in advance.

  import opened PrettyTokens
  import opened PrettyScan
  import opened PrettyLevels
  import opened PrettyBuffer
  import opened PrettyStream
  import L = PrettyLayout
  import opened PrettyText
  import opened Options
  import T = PrettyTokens

  const REBASE_THRESHOLD: int := 0x1000_0000

  // ---------------------------------------------------------------------------------------------
  // The loop of `checkStack`
  // ---------------------------------------------------------------------------------------------

  ghost predicate ScanWithin(scan: seq<nat>, low: nat, high: nat) {
    forall m :: 0 <= m < |scan| ==> low <= scan[m] < high
  }

  function PopLast(b: Buffer): Buffer
    requires b.scanStack != []
    requires b.tokenOffset <= b.scanStack[|b.scanStack| - 1] < b.tokenOffset + |b.tokens|
  {
    var n := |b.scanStack| - 1;
    var k := b.scanStack[n] - b.tokenOffset;
    b.(tokens := b.tokens[k := Determined(b.tokens[k], b.rightTotal)], scanStack := b.scanStack[..n])
  }

  /** The buffer when the loop ends. */
  function PopUntil(b: Buffer, depth: nat): Buffer
    requires ScanWithin(b.scanStack, b.tokenOffset, b.tokenOffset + |b.tokens|)
    decreases |b.scanStack|
  {
    if b.scanStack == [] then b else
      var t := b.tokens[b.scanStack[|b.scanStack| - 1] - b.tokenOffset].token;
      if t.Begin? then (if depth == 0 then b else PopUntil(PopLast(b), depth - 1))
      else if t.End? then PopUntil(PopLast(b), depth + 1)
      else if depth == 0 then PopLast(b) else PopUntil(PopLast(b), depth)
  }

  lemma PopLastTokens(b: Buffer)
    requires ScanInRange(b) && b.scanStack != []
    requires forall j, k :: 0 <= j < k < |b.scanStack| ==> b.scanStack[j] < b.scanStack[k]
    ensures ScanInRange(PopLast(b)) && ScanTokens(PopLast(b)) == ScanTokens(b)[..|b.scanStack| - 1]
  {
  }

  lemma PopLastIsChecked(b: Buffer, n: nat)
    requires ScanInRange(b) && n < |b.scanStack|
    requires forall j, k :: 0 <= j < k < |b.scanStack| ==> b.scanStack[j] < b.scanStack[k]
    ensures Checked(PopLast(b), n) == Checked(b, n)
  {
    var last := |b.scanStack| - 1;
    var init := b.scanStack[..last];
    assert b.scanStack[n..] == init[n..] + [b.scanStack[last]];
    assert b.scanStack[last] !in init[n..];
    assert Checked(PopLast(b), n).tokens == Checked(b, n).tokens;
    assert Checked(PopLast(b), n).scanStack == Checked(b, n).scanStack;
  }

  lemma NothingPopped(b: Buffer)
    ensures Checked(b, |b.scanStack|) == b
  {
    assert Checked(b, |b.scanStack|).tokens == b.tokens;
  }

  /** The depth with which the loop goes on, if it does. */
  function NextDepth(t: Token, depth: nat): Option<nat> {
    if t.Begin? then (if depth == 0 then None else Some(depth - 1))
    else if t.End? then Some(depth + 1)
    else if depth == 0 then None else Some(depth)
  }

  lemma LeftUnfolds(tokens: seq<Token>, depth: nat)
    requires tokens != []
    ensures var last, n := tokens[|tokens| - 1], |tokens| - 1;
            Left(tokens, depth) == if NextDepth(last, depth).Some? then Left(tokens[..n], NextDepth(last, depth).value)
                                   else if last.Begin? then |tokens| else n
  {
  }

  lemma PopUntilUnfolds(b: Buffer, depth: nat)
    requires ScanInRange(b) && b.scanStack != [] && ScanInRange(PopLast(b))
    ensures var t := ScanTokens(b)[|b.scanStack| - 1];
            PopUntil(b, depth) == if NextDepth(t, depth).Some? then PopUntil(PopLast(b), NextDepth(t, depth).value)
                                  else if t.Begin? then b else PopLast(b)
  {
  }

  lemma {:induction false} PopUntilIsChecked(b: Buffer, depth: nat)
    requires ScanInRange(b)
    requires forall j, k :: 0 <= j < k < |b.scanStack| ==> b.scanStack[j] < b.scanStack[k]
    ensures PopUntil(b, depth) == Checked(b, Left(ScanTokens(b), depth))
    decreases |b.scanStack|
  {
    if b.scanStack == [] {
      NothingPopped(b);
    } else {
      var next := NextDepth(ScanTokens(b)[|b.scanStack| - 1], depth);
      PopLastTokens(b);
      if next.Some? {
        PopUntilIsChecked(PopLast(b), next.value);
        GoOnIsChecked(b, depth, next.value);
      } else {
        StopIsChecked(b, depth);
      }
    }
  }

  lemma GoOnIsChecked(b: Buffer, depth: nat, next: nat)
    requires ScanInRange(b) && b.scanStack != [] && NextDepth(ScanTokens(b)[|b.scanStack| - 1], depth) == Some(next)
    requires forall j, k :: 0 <= j < k < |b.scanStack| ==> b.scanStack[j] < b.scanStack[k]
    requires ScanInRange(PopLast(b))
    requires PopUntil(PopLast(b), next) == Checked(PopLast(b), Left(ScanTokens(PopLast(b)), next))
    ensures PopUntil(b, depth) == Checked(b, Left(ScanTokens(b), depth))
  {
    PopLastTokens(b);
    PopUntilUnfolds(b, depth);
    LeftUnfolds(ScanTokens(b), depth);
    PopLastIsChecked(b, Left(ScanTokens(PopLast(b)), next));
  }

  lemma StopIsChecked(b: Buffer, depth: nat)
    requires ScanInRange(b) && b.scanStack != [] && NextDepth(ScanTokens(b)[|b.scanStack| - 1], depth).None?
    requires forall j, k :: 0 <= j < k < |b.scanStack| ==> b.scanStack[j] < b.scanStack[k]
    ensures PopUntil(b, depth) == Checked(b, Left(ScanTokens(b), depth))
  {
    PopLastTokens(b);
    PopUntilUnfolds(b, depth);
    LeftUnfolds(ScanTokens(b), depth);
    NothingPopped(b);
    NothingPopped(PopLast(b));
    PopLastIsChecked(b, |PopLast(b).scanStack|);
  }

  // ---------------------------------------------------------------------------------------------
  // The loop of `rebaseIfNeeded`
  // ---------------------------------------------------------------------------------------------

  /** Adjusts one entry. */
  function AdjustAt(b: Buffer, n: nat, adjust: int): Buffer
    requires n < |b.scanStack| && b.tokenOffset <= b.scanStack[n] < b.tokenOffset + |b.tokens|
  {
    var k := b.scanStack[n] - b.tokenOffset;
    b.(tokens := b.tokens[k := Adjusted(b.tokens[k], adjust)], scanStack := b.scanStack[n := k])
  }

  /** The first `n` entries are adjusted. */
  function AdjustedTo(b: Buffer, n: nat, adjust: int): Buffer
    requires n <= |b.scanStack| && ScanInRange(b)
  {
    b.(tokens := AdjustedTokens(b.tokens, b.scanStack[..n], b.tokenOffset, adjust),
       scanStack := Moved(b.scanStack, n, b.tokenOffset))
  }

  lemma NothingAdjusted(b: Buffer, adjust: int)
    requires ScanInRange(b)
    ensures AdjustedTo(b, 0, adjust) == b
  {
    assert AdjustedTo(b, 0, adjust).tokens == b.tokens;
  }

  lemma AdjustStep(b: Buffer, n: nat, adjust: int)
    requires n < |b.scanStack| && ScanInRange(b)
    requires forall j, k :: 0 <= j < k < |b.scanStack| ==> b.scanStack[j] < b.scanStack[k]
    ensures var b' := AdjustedTo(b, n, adjust);
            && b'.scanStack[n] == b.scanStack[n] && b'.tokens[b.scanStack[n] - b.tokenOffset] in b.tokens
            && AdjustedTo(b, n + 1, adjust) == AdjustAt(b', n, adjust)
  {
    var b' := AdjustedTo(b, n, adjust);
    assert b.scanStack[..n + 1] == b.scanStack[..n] + [b.scanStack[n]];
    assert b.scanStack[n] !in b.scanStack[..n];
    assert AdjustedTo(b, n + 1, adjust).tokens == AdjustAt(b', n, adjust).tokens;
    assert AdjustedTo(b, n + 1, adjust).scanStack == AdjustAt(b', n, adjust).scanStack;
  }

  lemma AllAdjusted(b: Buffer)
    requires ScanInRange(b)
    ensures Rebased(b) == AdjustedTo(b, |b.scanStack|, b.leftTotal - 1)
                          .(leftTotal := 1, rightTotal := b.rightTotal - (b.leftTotal - 1), tokenOffset := 0)
  {
    assert b.scanStack[..|b.scanStack|] == b.scanStack;
  }

  // ---------------------------------------------------------------------------------------------
  // The loop of `advanceLeft`
  // ---------------------------------------------------------------------------------------------

  datatype Run = Run(buffer: Buffer, state: PrintState)

  function AdvanceFront(cfg: Config, r: Run): Run
    requires r.buffer.tokens != []
  {
    var f := r.buffer.tokens[0];
    Run(Advanced(r.buffer), T.Print(cfg, r.state, f.token, f.size))
  }

  /** Prints while the size of the first token is known. */
  function AdvanceAll(cfg: Config, r: Run): Run
    decreases |r.buffer.tokens|
  {
    if r.buffer.tokens == [] || r.buffer.tokens[0].size < 0 then r else AdvanceAll(cfg, AdvanceFront(cfg, r))
  }

  /** What holds between the steps, with `ts` as the tokens to consider. */
  ghost predicate RunOk(cfg: Config, initial: PrintState, ts: seq<Token>, r: Run, forced: nat, tail: nat) {
    && cfg.margin < INFINITY
    && BufferOk(ts, r.buffer, forced, tail)
    && PrintedOk(cfg, initial, ts, r.buffer.printed, r.state)
    && (forced == 1 ==> tail == 0 && r.buffer.rightTotal - r.buffer.leftTotal > r.state.space)
  }

  lemma AdvanceFrontOk(cfg: Config, initial: PrintState, ts: seq<Token>, r: Run, forced: nat, tail: nat)
    requires RunOk(cfg, initial, ts, r, forced, tail) && r.buffer.tokens != [] && r.buffer.tokens[0].size >= 0
    ensures RunOk(cfg, initial, ts, AdvanceFront(cfg, r), 0, tail)
  {
    PrintFront(cfg, initial, ts, r.buffer, forced, tail, r.state);
    AdvanceOk(ts, r.buffer, forced, tail);
  }

  lemma {:induction false} AdvanceAllOk(cfg: Config, initial: PrintState, ts: seq<Token>, r: Run, tail: nat)
    requires RunOk(cfg, initial, ts, r, 0, tail)
    ensures var r' := AdvanceAll(cfg, r);
            && RunOk(cfg, initial, ts, r', 0, tail)
            && (r'.buffer.scanStack == [] ==> r'.buffer.tokens == [])
            && |r'.buffer.tokens| <= |r.buffer.tokens|
            && r'.buffer.scanStack == r.buffer.scanStack
    decreases |r.buffer.tokens|
  {
    if r.buffer.tokens != [] {
      if r.buffer.tokens[0].size >= 0 {
        AdvanceFrontOk(cfg, initial, ts, r, 0, tail);
        AdvanceAllOk(cfg, initial, ts, AdvanceFront(cfg, r), tail);
      } else if r.buffer.scanStack == [] {
        EmptyScanIsKnown(ts, r.buffer, tail);
      }
    }
  }

  /** One round of `checkStream`. */
  function StreamStep(cfg: Config, r: Run): Run
    requires r.buffer.tokens != []
  {
    var b := r.buffer;
    AdvanceAll(cfg, if b.scanStack != [] && b.tokenOffset == b.scanStack[0] then r.(buffer := Forced(b)) else r)
  }

  /** There is always a token to print. */
  lemma StreamStepOk(cfg: Config, initial: PrintState, ts: seq<Token>, r: Run)
    requires RunOk(cfg, initial, ts, r, 0, 0) && r.buffer.tokens != []
    requires r.buffer.rightTotal - r.buffer.leftTotal > r.state.space
    ensures var r' := StreamStep(cfg, r);
            && RunOk(cfg, initial, ts, r', 0, 0) && |r'.buffer.tokens| < |r.buffer.tokens|
            && (r'.buffer.scanStack == [] ==> r'.buffer.tokens == [])
  {
    var b := r.buffer;
    var forced := b.scanStack != [] && b.tokenOffset == b.scanStack[0];
    var r1 := if forced then r.(buffer := Forced(b)) else r;
    if forced {
      ForceOk(ts, b);
    } else {
      FrontIsKnown(ts, b);
    }
    AdvanceFrontOk(cfg, initial, ts, r1, if forced then 1 else 0, 0);
    AdvanceAllOk(cfg, initial, ts, AdvanceFront(cfg, r1), 0);
  }

  // ---------------------------------------------------------------------------------------------
  // Adding a token, and the end
  // ---------------------------------------------------------------------------------------------

  /** The buffer after a token has been added to it. */
  function Scanned(b: Buffer, t: Token): Buffer
    requires ScanWithin(b.scanStack, b.tokenOffset, b.tokenOffset + |b.tokens|)
  {
    match t
    case String(_) => PushedString(b, t)
    case Break(_, _, _) => PushedScan(if b.scanStack == [] then Cleared(b.printed) else PopUntil(b, 0), t)
    case Begin(_, _, _) => PushedScan(if b.scanStack == [] then Cleared(b.printed) else b, t)
    case End => PushedScan(b, t)
  }

  lemma ScanStaysWithin(ts: seq<Token>, b: Buffer)
    requires BufferOk(ts, b, 0, 0)
    ensures ScanWithin(b.scanStack, b.tokenOffset, b.tokenOffset + |b.tokens|)
  {
    ScanIsInRange(ts, b, 0);
  }

  /** All sizes that a break determines are set. */
  lemma PopForBreak(ts: seq<Token>, t: Token, b: Buffer)
    requires BufferOk(ts, b, 0, 0) && t.Break?
    ensures ScanWithin(b.scanStack, b.tokenOffset, b.tokenOffset + |b.tokens|)
    ensures BufferOk(ts + [t], PopUntil(b, 0), 0, 1) && PopUntil(b, 0).printed == b.printed
    ensures Depth(ts) == 0 ==> PopUntil(b, 0).scanStack == []
  {
    ScanIsInRange(ts, b, 0);
    PopUntilIsChecked(b, 0);
    CheckStackOk(ts, t, b);
    CheckedDepth(ts, b);
    LeftIsKept(ts);
  }

  lemma BreakOk(ts: seq<Token>, t: Token, b: Buffer)
    requires BufferOk(ts, b, 0, 0) && t.Break? && (b.scanStack == [] ==> b.tokens == [])
    ensures ScanWithin(b.scanStack, b.tokenOffset, b.tokenOffset + |b.tokens|)
    ensures BufferOk(ts + [t], Scanned(b, t), 0, 0) && Scanned(b, t).printed == b.printed
  {
    if b.scanStack == [] {
      ClearedForBreak(ts, t);
      PushBreakOk(ts, t, Cleared(b.printed));
    } else {
      PopForBreak(ts, t, b);
      PushBreakOk(ts, t, PopUntil(b, 0));
    }
  }

  lemma BeginOk(ts: seq<Token>, t: Token, b: Buffer)
    requires BufferOk(ts, b, 0, 0) && t.Begin? && (b.scanStack == [] ==> b.tokens == [])
    ensures ScanWithin(b.scanStack, b.tokenOffset, b.tokenOffset + |b.tokens|)
    ensures BufferOk(ts + [t], Scanned(b, t), 0, 0)
  {
    ScanStaysWithin(ts, b);
    if b.scanStack == [] {
      ClearedIsOk(ts);
      PushScanOk(ts, Cleared(b.printed), t);
    } else {
      PushScanOk(ts, b, t);
    }
  }

  /** Adding a token to the buffer. */
  lemma ScannedOk(cfg: Config, initial: PrintState, ts: seq<Token>, r: Run, t: Token)
    requires RunOk(cfg, initial, ts, r, 0, 0) && (t.End? ==> Depth(ts) > 0)
    requires r.buffer.scanStack == [] ==> r.buffer.tokens == [] && (t.Break? || t.Begin?)
    ensures ScanWithin(r.buffer.scanStack, r.buffer.tokenOffset, r.buffer.tokenOffset + |r.buffer.tokens|)
    ensures RunOk(cfg, initial, ts + [t], r.(buffer := Scanned(r.buffer, t)), 0, 0)
    ensures Scanned(r.buffer, t).scanStack != [] && Scanned(r.buffer, t).rightTotal > 0
  {
    var b := r.buffer;
    ScanStaysWithin(ts, b);
    PrintedStays(cfg, initial, ts, t, b.printed, r.state);
    match t
    case String(_) => PushStringOk(ts, b, t);
    case Break(_, _, _) => BreakOk(ts, t, b);
    case Begin(_, _, _) => BeginOk(ts, t, b);
    case End => PushScanOk(ts, b, t);
  }

  function Direct(cfg: Config, r: Run, t: Token): Run {
    Run(r.buffer.(printed := r.buffer.printed + 1), T.Print(cfg, r.state, t, Width(t)))
  }

  /** A token that has nothing to wait for is printed directly. */
  lemma DirectOk(cfg: Config, initial: PrintState, ts: seq<Token>, r: Run, t: Token)
    requires RunOk(cfg, initial, ts, r, 0, 0) && r.buffer.scanStack == [] && r.buffer.tokens == []
    requires t.String? || (t.End? && Depth(ts) > 0)
    ensures RunOk(cfg, initial, ts + [t], Direct(cfg, r, t), 0, 0)
  {
    PrintedDirectly(ts, t, r.buffer);
    PrintedStays(cfg, initial, ts, t, |ts|, r.state);
    if t.String? {
      PrintKnown(cfg, initial, ts + [t], |ts|, r.state, Width(t));
    } else {
      PrintEnd(cfg, initial, ts + [t], |ts|, r.state, 0);
    }
  }

  /** What is buffered at the end of the stream. */
  lemma EofOk(cfg: Config, initial: PrintState, ts: seq<Token>, r: Run)
    requires RunOk(cfg, initial, ts, r, 0, 0) && Depth(ts) == 0
    ensures ScanWithin(r.buffer.scanStack, r.buffer.tokenOffset, r.buffer.tokenOffset + |r.buffer.tokens|)
    ensures var r' := AdvanceAll(cfg, r.(buffer := PopUntil(r.buffer, 0)));
            && r'.buffer.tokens == [] && r'.buffer.scanStack == [] && r'.state.space <= cfg.margin
            && r'.state == Offline(cfg, initial, ts, |ts|)
  {
    var brk := Break(0, 0, false);
    PopForBreak(ts, brk, r.buffer);
    var r1 := r.(buffer := PopUntil(r.buffer, 0));
    PrintedStays(cfg, initial, ts, brk, r.buffer.printed, r.state);
    AdvanceAllOk(cfg, initial, ts + [brk], r1, 1);
    var r' := AdvanceAll(cfg, r1);
    NothingMore(cfg, initial, ts, brk, r'.buffer.printed, r'.state);
  }

  /** A virtual break at the end changes nothing. */
  lemma NothingMore(cfg: Config, initial: PrintState, ts: seq<Token>, brk: Token, printed: nat, st: PrintState)
    requires WellNested(ts) && Depth(ts) == 0 && brk.Break? && printed == |ts|
    requires PrintedOk(cfg, initial, ts + [brk], printed, st)
    ensures st == Offline(cfg, initial, ts, |ts|)
  {
    assert ts + [brk] + [] == ts + [brk];
    OfflineAtEnd(cfg, initial, ts, brk, |ts|);
  }

  lemma NothingBuffered(cfg: Config, initial: PrintState, ts: seq<Token>, r: Run)
    requires RunOk(cfg, initial, ts, r, 0, 0) && r.buffer.tokens == []
    ensures r.state == Offline(cfg, initial, ts, |ts|) && r.state.space <= cfg.margin
  {
    assert ts + [] == ts;
  }

  lemma StartsOk(cfg: Config, st: PrintState, ts: seq<Token>, r: Run)
    requires cfg.margin < INFINITY && st.space <= cfg.margin && ts == [] && r == Run(Cleared(0), st)
    ensures RunOk(cfg, st, ts, r, 0, 0)
  {
    ClearedIsOk([]);
  }

  /** The state before anything is printed. */
  function StartState(margin: nat, baseIndent: nat, currentColumn: nat): PrintState {
    PrintState(margin - (if currentColumn < baseIndent then baseIndent else currentColumn), baseIndent,
               if baseIndent > currentColumn then baseIndent - currentColumn else 0, [], 0, "")
  }

  lemma StartsOnMargin(cfg: Config, baseIndent: nat, currentColumn: nat)
    ensures OnMargin(cfg, StartState(cfg.margin, baseIndent, currentColumn), currentColumn)
  {
  }

  class PrettyPrinter {
    // Characters left on this line, and the widths of the tokens printed and added.
    var space: int
    var leftTotal: int
    var rightTotal: int
    // Tokens that are not printed yet, and the offset that scan stack entries have to the first of them.
    var tokens: seq<FormattedToken>
    var tokenOffset: nat
    var scanStack: seq<nat>
    // The groups that are being printed.
    var printStack: seq<PrintEntry>
    var alwaysFits: int
    var indent: int
    var pendingIndentation: int
    var out: string
    const config: Config

    // The tokens added since the start or the last end of the stream, and the state at that time.
    ghost var history: seq<Token>
    ghost var initial: PrintState
    ghost var printed: nat

    ghost function Buf(): Buffer
      reads this
    {
      Buffer(printed, leftTotal, rightTotal, tokens, tokenOffset, scanStack)
    }

    ghost function State(): PrintState
      reads this
    {
      PrintState(space, indent, pendingIndentation, printStack, alwaysFits, out)
    }

    ghost function Now(): Run
      reads this
    {
      Run(Buf(), State())
    }

    ghost predicate Valid()
      reads this
    {
      RunOk(config, initial, history, Now(), 0, 0) && (scanStack == [] ==> tokens == [])
    }

    constructor (margin: nat, baseIndent: nat, currentColumn: nat, maxStartingIndent: nat)
      requires currentColumn < margin < INFINITY
      requires baseIndent < maxStartingIndent < INFINITY / 2
      ensures Valid() && history == []
      ensures config == Config(margin, if maxStartingIndent < margin then margin else maxStartingIndent,
                               PrintEntry(baseIndent, PrintInconsistent))
      ensures initial == PrintState(margin - (if currentColumn < baseIndent then baseIndent else currentColumn),
                                    baseIndent, if baseIndent > currentColumn then baseIndent - currentColumn else 0,
                                    [], 0, "")
      ensures OnMargin(config, initial, currentColumn) && L.Rested(config, initial)
    {
      space := margin - (if currentColumn < baseIndent then baseIndent else currentColumn);
      config := Config(margin, if maxStartingIndent < margin then margin else maxStartingIndent,
                       PrintEntry(baseIndent, PrintInconsistent));
      indent := baseIndent;
      pendingIndentation := if baseIndent > currentColumn then baseIndent - currentColumn else 0;
      leftTotal, rightTotal := 1, 1;
      tokens, tokenOffset, scanStack := [], 0, [];
      printStack, alwaysFits, out := [], 0, "";
      history, printed := [], 0;
      initial := StartState(margin, baseIndent, currentColumn);
      new;
      StartsOk(config, initial, history, Now());
      StartsOnMargin(config, baseIndent, currentColumn);
    }

    method Add(t: Token)
      requires Valid() && (t.End? ==> Depth(history) > 0)
      modifies this
      ensures Valid() && history == old(history) + [t] && initial == old(initial)
    {
      ghost var before := Now();
      if scanStack == [] && (t.String? || t.End?) {
        DirectOk(config, initial, history, before, t);
        AddDirectly(t);
        history := history + [t];
      } else {
        ScannedOk(config, initial, history, before, t);
        AddToBuffer(t);
        history := history + [t];
        Proceed(t);
      }
    }

    /** Prints what does not have to wait any longer. */
    method Proceed(t: Token)
      requires Valid()
      modifies this`leftTotal, this`rightTotal, this`tokens, this`tokenOffset, this`scanStack, this`printed,
               this`space, this`indent, this`pendingIndentation, this`printStack, this`alwaysFits, this`out
      ensures Valid()
    {
      if t.String? {
        CheckStream();
      }
      RebaseIfNeeded();
    }

    /** Prints a token that has nothing to wait for. */
    method AddDirectly(t: Token)
      modifies this`printed, this`space, this`indent, this`pendingIndentation, this`printStack, this`alwaysFits,
               this`out
      ensures Now() == Direct(config, old(Now()), t)
    {
      Print(FormattedToken(t, Width(t)));
      printed := printed + 1;
    }

    /** Adds a token to the buffer. Breaks and begins that have nothing before them to wait for clear it first. */
    method AddToBuffer(t: Token)
      requires ScanWithin(scanStack, tokenOffset, tokenOffset + |tokens|)
      requires scanStack == [] ==> tokens == []
      modifies this`leftTotal, this`rightTotal, this`tokens, this`tokenOffset, this`scanStack
      ensures Now() == old(Now()).(buffer := Scanned(old(Buf()), t))
    {
      match t
      case String(text) =>
        tokens := tokens + [FormattedToken(t, |text|)];
        rightTotal := rightTotal + |text|;
      case Break(spaces, _, _) =>
        if scanStack == [] {
          Clear();
        } else {
          CheckStack();
        }
        AddScanToken(t, -rightTotal);
        rightTotal := rightTotal + spaces;
      case Begin(_, _, _) =>
        if scanStack == [] {
          Clear();
        }
        AddScanToken(t, -rightTotal);
      case End =>
        AddScanToken(t, -1);
    }

    method AddScanToken(t: Token, size: int)
      modifies this`scanStack, this`tokens
      ensures scanStack == old(scanStack) + [tokenOffset + |old(tokens)|]
      ensures tokens == old(tokens) + [FormattedToken(t, size)]
    {
      var right := tokenOffset + |tokens|;
      scanStack := scanStack + [right];
      tokens := tokens + [FormattedToken(t, size)];
    }

    method RebaseIfNeeded()
      requires Valid()
      modifies this`leftTotal, this`rightTotal, this`tokens, this`tokenOffset, this`scanStack
      ensures Valid()
      ensures tokens != [] ==> leftTotal <= REBASE_THRESHOLD
    {
      if tokens == [] {
        return;
      }
      if leftTotal > REBASE_THRESHOLD {
        RebaseOk(history, Buf());
        ScanIsInRange(history, Buf(), 0);
        forall k: nat | k < |tokens| && (tokens[k].token.Break? || tokens[k].token.Begin?) && tokens[k].size < 0
          ensures tokens[k].size + leftTotal - 1 < 0
        {
          AdjustedStaysNegative(history, Buf(), k);
        }
        Rebase();
      }
    }

    method Rebase()
      requires ScanInRange(Buf())
      requires forall j, k :: 0 <= j < k < |scanStack| ==> scanStack[j] < scanStack[k]
      requires forall f <- tokens :: (f.token.Break? || f.token.Begin?) && f.size < 0 ==> f.size + leftTotal - 1 < 0
      modifies this`leftTotal, this`rightTotal, this`tokens, this`tokenOffset, this`scanStack
      ensures Buf() == Rebased(old(Buf()))
    {
      ghost var before := Buf();
      var adjust := leftTotal - 1;
      var n := 0;
      NothingAdjusted(before, adjust);
      while n < |scanStack|
        invariant 0 <= n <= |scanStack| == |before.scanStack| && Buf() == AdjustedTo(before, n, adjust)
      {
        AdjustStep(before, n, adjust);
        ghost var b := Buf();
        var k := scanStack[n] - tokenOffset;
        var f := tokens[k];
        if (f.token.Break? || f.token.Begin?) && f.size < 0 {
          assert f.size + adjust < 0;
          tokens := tokens[k := f.(size := f.size + adjust)];
        }
        scanStack := scanStack[n := scanStack[n] - tokenOffset];
        n := n + 1;
        assert Buf() == AdjustAt(b, n - 1, adjust);
      }
      AllAdjusted(before);
      leftTotal := leftTotal - adjust;
      rightTotal := rightTotal - adjust;
      tokenOffset := 0;
    }

    /** Prints whatever is still buffered. */
    method Eof()
      requires Valid() && Depth(history) == 0
      modifies this
      ensures Valid() && tokens == [] && scanStack == [] && history == [] && initial == State()
      ensures State() == Offline(config, old(initial), old(history), |old(history)|)
      ensures L.Rested(config, old(initial)) ==>
                && L.Rested(config, initial)
                && out == old(initial).out + L.Text(L.PageOf(config, old(initial)), old(history), |old(history)|)
    {
      if L.Rested(config, initial) {
        RestedAgain(config, initial, history);
      }
      ghost var before := Now();
      if scanStack != [] {
        EofOk(config, initial, history, before);
        Flush();
      } else {
        NothingBuffered(config, initial, history, before);
      }
      assert scanStack == [];
      Reset();
      StartsOk(config, initial, history, Now());
    }

    method Flush()
      requires ScanWithin(scanStack, tokenOffset, tokenOffset + |tokens|)
      modifies this`leftTotal, this`rightTotal, this`tokens, this`tokenOffset, this`scanStack, this`printed,
               this`space, this`indent, this`pendingIndentation, this`printStack, this`alwaysFits, this`out
      ensures Now() == AdvanceAll(config, old(Now()).(buffer := PopUntil(old(Buf()), 0)))
    {
      ghost var before := Now();
      CheckStack();
      assert Now() == before.(buffer := PopUntil(before.buffer, 0));
      AdvanceLeft();
    }

    method Reset()
      requires scanStack == [] && tokens == []
      modifies this`leftTotal, this`rightTotal, this`tokens, this`tokenOffset, this`printed, this`history, this`initial
      ensures Now() == Run(Cleared(0), old(State())) && initial == State() && history == []
    {
      Clear();
      history, initial, printed := [], State(), 0;
    }

    method Clear()
      requires scanStack == [] && tokens == []
      modifies this`leftTotal, this`rightTotal, this`tokens, this`tokenOffset
      ensures Buf() == Cleared(printed)
    {
      leftTotal, rightTotal := 1, 1;
      tokens := [];
      tokenOffset := 0;
    }

    /** A break has been added, so the sizes that it determines are set. */
    method CheckStack()
      requires ScanWithin(scanStack, tokenOffset, tokenOffset + |tokens|)
      modifies this`scanStack, this`tokens
      ensures Buf() == PopUntil(old(Buf()), 0)
    {
      ghost var before := Buf();
      var depth: nat := 0;
      while scanStack != []
        invariant ScanWithin(scanStack, tokenOffset, tokenOffset + |tokens|)
        invariant PopUntil(Buf(), depth) == PopUntil(before, 0)
        decreases |scanStack|
      {
        var f := tokens[scanStack[|scanStack| - 1] - tokenOffset];
        if f.token.Begin? {
          if depth == 0 {
            break;
          }
          PopTop(f.size + rightTotal);
          depth := depth - 1;
        } else if f.token.End? {
          PopTop(1);
          depth := depth + 1;
        } else {
          PopTop(f.size + rightTotal);
          if depth == 0 {
            break;
          }
        }
      }
    }

    /** Pops an entry of the scan stack, and sets the size of its token. */
    method PopTop(size: int)
      requires ScanWithin(scanStack, tokenOffset, tokenOffset + |tokens|) && scanStack != []
      requires var f := tokens[scanStack[|scanStack| - 1] - tokenOffset]; size == Determined(f, rightTotal).size
      modifies this`scanStack, this`tokens
      ensures Buf() == PopLast(old(Buf())) && ScanWithin(scanStack, tokenOffset, tokenOffset + |tokens|)
    {
      var x := scanStack[|scanStack| - 1];
      scanStack := scanStack[..|scanStack| - 1];
      tokens := tokens[x - tokenOffset := tokens[x - tokenOffset].(size := size)];
    }

    /** Prints tokens while more than a line is buffered. The size of the first token is infinity then, if it is not
        known, so that there is always a token to print. */
    method CheckStream()
      requires Valid()
      modifies this`leftTotal, this`tokens, this`tokenOffset, this`scanStack, this`printed, this`space, this`indent,
               this`pendingIndentation, this`printStack, this`alwaysFits, this`out
      ensures Valid()
      ensures rightTotal - leftTotal <= space || tokens == []
    {
      while rightTotal - leftTotal > space && tokens != []
        invariant Valid()
        decreases |tokens|
      {
        ghost var before := Now();
        StreamStepOk(config, initial, history, before);
        if scanStack != [] && tokenOffset == scanStack[0] {
          tokens := tokens[0 := tokens[0].(size := INFINITY)];
          scanStack := scanStack[1..];
          assert Buf() == Forced(before.buffer);
        }
        AdvanceLeft();
        assert Now() == StreamStep(config, before);
      }
    }

    /** Prints the tokens of known size at the front of the buffer. */
    method AdvanceLeft()
      modifies this`leftTotal, this`tokens, this`tokenOffset, this`printed, this`space, this`indent,
               this`pendingIndentation, this`printStack, this`alwaysFits, this`out
      ensures Now() == AdvanceAll(config, old(Now()))
    {
      ghost var before := Now();
      while tokens != [] && tokens[0].size >= 0
        invariant AdvanceAll(config, Now()) == AdvanceAll(config, before)
        decreases |tokens|
      {
        ghost var r := Now();
        var f := tokens[0];
        Print(f);
        leftTotal := leftTotal + match f.token
                                 case Break(spaces, _, _) => spaces
                                 case String(text) => |text|
                                 case _ => 0;
        tokens := tokens[1..];
        tokenOffset := tokenOffset + 1;
        printed := printed + 1;
        assert Now() == AdvanceFront(config, r);
      }
    }

    method Print(f: FormattedToken)
      modifies this`space, this`indent, this`pendingIndentation, this`printStack, this`alwaysFits, this`out
      ensures State() == T.Print(config, old(State()), f.token, f.size)
    {
      match f.token
      case String(text) =>
        space := space - f.size;
        out := out + Spaces(pendingIndentation);
        pendingIndentation := 0;
        out := out + text;
      case Break(spaces, offset, neverbreak) =>
        var frame := PrintFrame();
        var fits := alwaysFits > 0 || neverbreak || frame.breaks == Fits
                    || (frame.breaks == PrintInconsistent && f.size <= space);
        if fits {
          space := space - spaces;
          pendingIndentation := pendingIndentation + spaces;
        } else {
          out := out + "\n";
          pendingIndentation := NewIndent(config, indent, offset);
          space := config.margin - pendingIndentation;
        }
      case Begin(offset, breaks, style) =>
        if breaks == Never {
          printStack := printStack + [PrintEntry(0, AlwaysFits)];
          alwaysFits := alwaysFits + 1;
        } else if f.size > space && alwaysFits == 0 {
          var printBreaks := if breaks == Consistent then PrintConsistent else PrintInconsistent;
          var newIndent := indent;
          if style == Visual {
            newIndent := config.margin - space;
          }
          indent := NewIndent(config, newIndent, offset);
          printStack := printStack + [PrintEntry(indent, printBreaks)];
        } else {
          printStack := printStack + [PrintEntry(0, Fits)];
        }
      case End =>
        if printStack == [] {
          return;
        }
        if PrintFrame().breaks == AlwaysFits {
          alwaysFits := alwaysFits - 1;
        }
        printStack := printStack[..|printStack| - 1];
        var frame := PrintFrame();
        if frame.breaks != Fits && frame.breaks != AlwaysFits {
          indent := frame.offset;
        }
    }

    function PrintFrame(): PrintEntry
      reads this`printStack
    {
      if printStack == [] then config.defaultFrame else printStack[|printStack| - 1]
    }
  }
}
