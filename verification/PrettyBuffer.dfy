/** The token buffer of the streaming printer, related to the tokens added so far. */
module PrettyBuffer {
  // This is about totals, sizes (negative while they are not determined), and the scan stack. Each lemma covers one
  // kind of step.

  import opened PrettyTokens
  import opened PrettyScan
  import opened PrettyLevels

  datatype FormattedToken = FormattedToken(token: Token, size: int)

  /** `printed` tokens have left the buffer. Entries of the scan stack are relative to the offset of the first token. */
  datatype Buffer = Buffer(printed: nat, leftTotal: int, rightTotal: int, tokens: seq<FormattedToken>,
                           tokenOffset: nat, scanStack: seq<nat>)

  /** Token `i` of the stream as it is buffered, when the total at token `printed` is `leftTotal`. */
  ghost predicate EntryOk(ts: seq<Token>, f: FormattedToken, i: nat, printed: nat, leftTotal: int)
    requires printed <= i < |ts|
  {
    && f.token == ts[i]
    && match f.token
       case String(text) => f.size == |text|
       case End => if IsPending(ts, i) then f.size == -1 else f.size >= 0
       case _ => f.size == if IsPending(ts, i) then -(leftTotal + TotalWidth(ts[printed..i])) else Size(ts, i)
  }

  ghost predicate EntriesOk(ts: seq<Token>, tokens: seq<FormattedToken>, printed: nat, leftTotal: int, forced: nat)
    requires printed + |tokens| <= |ts|
  {
    forall k: nat :: forced <= k < |tokens| ==> EntryOk(ts, tokens[k], printed + k, printed, leftTotal)
  }

  /** The scan stack holds what is left of `stack` from token `first` on. */
  ghost predicate ScanOk(stack: seq<nat>, b: Buffer, first: nat) {
    var gone := |stack| - |b.scanStack|;
    && gone >= 0
    && (forall m :: 0 <= m < gone ==> stack[m] < first)
    && (forall m :: gone <= m < |stack| ==>
          stack[m] >= first && b.scanStack[m - gone] == b.tokenOffset + stack[m] - b.printed)
  }

  /** The stack without the break at the end that is still to be added. */
  function StackBefore(ts: seq<Token>, tail: nat): seq<nat>
    requires WellNested(ts) && tail <= |ts|
  {
    if tail == 0 || |Stack(ts)| == 0 then Stack(ts) else Stack(ts)[..|Stack(ts)| - 1]
  }

  ghost predicate ShapeOk(ts: seq<Token>, b: Buffer, forced: nat, tail: nat) {
    && WellNested(ts) && forced <= 1 && forced <= |b.tokens| && tail <= 1
    && b.printed + |b.tokens| + tail == |ts|
    && (tail == 1 ==> ts[|ts| - 1].Break?)
    && (forced == 1 ==> b.tokens[0] == FormattedToken(ts[b.printed], INFINITY) && IsPending(ts, b.printed))
  }

  ghost predicate TotalsOk(ts: seq<Token>, b: Buffer) {
    && b.leftTotal >= 1 && b.printed + |b.tokens| <= |ts|
    && b.rightTotal == b.leftTotal + TotalWidth(ts[b.printed..b.printed + |b.tokens|])
  }

  /** The buffer holds the unprinted tokens of `ts`, except for a break at its end that is still to be added (`tail`).
      The size of the first token may have been forced to infinity. */
  ghost predicate BufferOk(ts: seq<Token>, b: Buffer, forced: nat, tail: nat) {
    && ShapeOk(ts, b, forced, tail) && TotalsOk(ts, b)
    && EntriesOk(ts, b.tokens, b.printed, b.leftTotal, forced)
    && ScanOk(StackBefore(ts, tail), b, b.printed + forced)
  }

  // ---------------------------------------------------------------------------------------------
  // Clearing
  // ---------------------------------------------------------------------------------------------

  function Cleared(printed: nat): Buffer {
    Buffer(printed, 1, 1, [], 0, [])
  }

  lemma StackBeforeBreak(ts: seq<Token>, t: Token)
    requires WellNested(ts) && t.Break?
    ensures WellNested(ts + [t]) && Kept(ts) <= |Stack(ts)|
    ensures StackBefore(ts + [t], 1) == Stack(ts)[..Kept(ts)]
  {
    StackStep(ts, t);
  }

  lemma ClearedScan(stack: seq<nat>, n: nat)
    requires forall m :: 0 <= m < |stack| ==> stack[m] < n
    ensures ScanOk(stack, Cleared(n), n)
  {
  }

  lemma ClearedShape(ts: seq<Token>, n: nat)
    requires n <= |ts|
    ensures TotalsOk(ts, Cleared(n)) && EntriesOk(ts, [], n, 1, 0)
  {
    assert ts[n..n] == [];
  }

  lemma ClearedIsOk(ts: seq<Token>)
    requires WellNested(ts)
    ensures BufferOk(ts, Cleared(|ts|), 0, 0)
  {
    assert ScanOk(StackBefore(ts, 0), Cleared(|ts|), |ts|) by {
      StackInRange(ts);
      ClearedScan(Stack(ts), |ts|);
    }
    ClearedShape(ts, |ts|);
  }

  lemma ClearedForBreak(ts: seq<Token>, t: Token)
    requires WellNested(ts) && t.Break?
    ensures BufferOk(ts + [t], Cleared(|ts|), 0, 1)
  {
    ClearedStack(ts, t);
    ClearedShape(ts + [t], |ts|);
    ClearedBuffer(ts + [t], |ts|, 1);
  }

  lemma ClearedBuffer(ts: seq<Token>, n: nat, tail: nat)
    requires WellNested(ts) && n + tail == |ts| && tail <= 1 && (tail == 1 ==> ts[|ts| - 1].Break?)
    requires ScanOk(StackBefore(ts, tail), Cleared(n), n) && TotalsOk(ts, Cleared(n)) && EntriesOk(ts, [], n, 1, 0)
    ensures BufferOk(ts, Cleared(n), 0, tail)
  {
  }

  lemma ClearedStack(ts: seq<Token>, t: Token)
    requires WellNested(ts) && t.Break?
    ensures WellNested(ts + [t]) && ScanOk(StackBefore(ts + [t], 1), Cleared(|ts|), |ts|)
  {
    StackBeforeBreak(ts, t);
    StackInRange(ts);
    ClearedPrefix(Stack(ts), Kept(ts), |ts|, StackBefore(ts + [t], 1));
  }

  lemma ClearedPrefix(stack: seq<nat>, kept: nat, n: nat, stack': seq<nat>)
    requires kept <= |stack| && stack' == stack[..kept] && forall m :: 0 <= m < |stack| ==> stack[m] < n
    ensures ScanOk(stack', Cleared(n), n)
  {
    forall m | 0 <= m < |stack'| ensures stack'[m] < n {
      assert stack'[m] == stack[m];
    }
    ClearedScan(stack', n);
  }

  // ---------------------------------------------------------------------------------------------
  // Adding tokens
  // ---------------------------------------------------------------------------------------------

  lemma SliceOfSum(ts: seq<Token>, t: Token, i: nat, j: nat)
    requires i <= j <= |ts|
    ensures (ts + [t])[i..j] == ts[i..j]
  {
  }

  /** Tokens other than breaks leave the buffered entries as they are. */
  lemma EntryStays(ts: seq<Token>, t: Token, f: FormattedToken, i: nat, printed: nat, leftTotal: int)
    requires printed <= i < |ts| && EntryOk(ts, f, i, printed, leftTotal)
    requires !IsPending(ts, i) || !(t.Break? && PendingOpen(ts, i) == 0)
    ensures EntryOk(ts + [t], f, i, printed, leftTotal)
  {
    SliceOfSum(ts, t, printed, i);
    if IsPending(ts, i) {
      PendingStep(ts, t, i);
    } else {
      DeterminedStays(ts, [t], i);
    }
  }

  lemma PushTotals(ts: seq<Token>, b: Buffer, t: Token, b': Buffer)
    requires TotalsOk(ts, b) && b.printed + |b.tokens| < |ts| && t == ts[b.printed + |b.tokens|]
    requires |b'.tokens| == |b.tokens| + 1 && b'.printed == b.printed && b'.leftTotal == b.leftTotal
    requires b'.rightTotal == b.rightTotal + Width(t)
    ensures TotalsOk(ts, b')
  {
    var p, n := b.printed, b.printed + |b.tokens|;
    assert ts[p..n + 1] == ts[p..n] + [t];
    TotalWidthOfSum(ts[p..n], [t]);
    assert [t][1..] == [];
  }

  lemma TotalsStay(ts: seq<Token>, b: Buffer, t: Token)
    requires TotalsOk(ts, b)
    ensures TotalsOk(ts + [t], b)
  {
    SliceOfSum(ts, t, b.printed, b.printed + |b.tokens|);
  }

  lemma EntriesStay(ts: seq<Token>, t: Token, tokens: seq<FormattedToken>, printed: nat, leftTotal: int)
    requires !t.Break? && printed + |tokens| <= |ts| && EntriesOk(ts, tokens, printed, leftTotal, 0)
    ensures EntriesOk(ts + [t], tokens, printed, leftTotal, 0)
  {
    forall k: nat | k < |tokens| ensures EntryOk(ts + [t], tokens[k], printed + k, printed, leftTotal) {
      EntryStays(ts, t, tokens[k], printed + k, printed, leftTotal);
    }
  }

  function PushedString(b: Buffer, t: Token): Buffer {
    b.(tokens := b.tokens + [FormattedToken(t, Width(t))], rightTotal := b.rightTotal + Width(t))
  }

  /** Begin and end tokens, and breaks after the stack has been checked, go onto the stack. */
  function PushedScan(b: Buffer, t: Token): Buffer {
    b.(tokens := b.tokens + [FormattedToken(t, if t.End? then -1 else -b.rightTotal)],
       scanStack := b.scanStack + [b.tokenOffset + |b.tokens|],
       rightTotal := b.rightTotal + Width(t))
  }

  lemma PushStringOk(ts: seq<Token>, b: Buffer, t: Token)
    requires BufferOk(ts, b, 0, 0) && t.String?
    ensures BufferOk(ts + [t], PushedString(b, t), 0, 0)
  {
    var ts', b' := ts + [t], PushedString(b, t);
    StackStep(ts, t);
    TotalsStay(ts, b, t);
    PushTotals(ts', b, t, b');
    EntriesStay(ts, t, b.tokens, b.printed, b.leftTotal);
    assert ShapeOk(ts', b', 0, 0);
    assert EntriesOk(ts', b'.tokens, b'.printed, b'.leftTotal, 0);
  }

  lemma NewEntry(ts: seq<Token>, t: Token, b: Buffer)
    requires b.printed + |b.tokens| == |ts| && TotalsOk(ts, b) && !t.String?
    ensures EntryOk(ts + [t], FormattedToken(t, if t.End? then -1 else -b.rightTotal), |ts|, b.printed, b.leftTotal)
  {
    NewIsPending(ts, t);
    SliceOfSum(ts, t, b.printed, |ts|);
    assert [|ts|][0] == |ts|;
  }

  lemma ScanPushed(stack: seq<nat>, b: Buffer, t: Token, i: nat, stack': seq<nat>)
    requires ScanOk(stack, b, b.printed) && b.printed + |b.tokens| == i && stack' == stack + [i]
    ensures ScanOk(stack', PushedScan(b, t), b.printed)
  {
    var b' := PushedScan(b, t);
    assert b'.scanStack[|b.scanStack|] == b.tokenOffset + i - b.printed;
  }

  lemma PushedStack(ts: seq<Token>, b: Buffer, t: Token)
    requires WellNested(ts) && ScanOk(Stack(ts), b, b.printed) && b.printed + |b.tokens| == |ts|
    requires (t.Begin? || t.End?) && (t.End? ==> Depth(ts) > 0)
    ensures WellNested(ts + [t]) && ScanOk(Stack(ts + [t]), PushedScan(b, t), b.printed)
  {
    StackStep(ts, t);
    ScanPushed(Stack(ts), b, t, |ts|, Stack(ts + [t]));
  }

  lemma PushedTotals(ts: seq<Token>, b: Buffer, t: Token)
    requires TotalsOk(ts + [t], b) && b.printed + |b.tokens| == |ts|
    ensures TotalsOk(ts + [t], PushedScan(b, t))
  {
    PushTotals(ts + [t], b, t, PushedScan(b, t));
  }

  lemma PushedEntries(ts: seq<Token>, b: Buffer, t: Token)
    requires !t.String? && TotalsOk(ts, b) && b.printed + |b.tokens| == |ts|
    requires EntriesOk(ts + [t], b.tokens, b.printed, b.leftTotal, 0)
    ensures EntriesOk(ts + [t], PushedScan(b, t).tokens, b.printed, b.leftTotal, 0)
  {
    NewEntry(ts, t, b);
  }

  lemma PushedIsOk(ts: seq<Token>, b: Buffer, t: Token)
    requires b.printed + |b.tokens| == |ts| && WellNested(ts + [t])
    requires TotalsOk(ts + [t], PushedScan(b, t)) && ScanOk(Stack(ts + [t]), PushedScan(b, t), b.printed)
    requires EntriesOk(ts + [t], PushedScan(b, t).tokens, b.printed, b.leftTotal, 0)
    ensures BufferOk(ts + [t], PushedScan(b, t), 0, 0)
  {
  }

  lemma PushScanOk(ts: seq<Token>, b: Buffer, t: Token)
    requires BufferOk(ts, b, 0, 0) && (t.Begin? || t.End?) && (t.End? ==> Depth(ts) > 0)
    ensures BufferOk(ts + [t], PushedScan(b, t), 0, 0)
  {
    PushedStack(ts, b, t);
    TotalsStay(ts, b, t);
    PushedTotals(ts, b, t);
    EntriesStay(ts, t, b.tokens, b.printed, b.leftTotal);
    PushedEntries(ts, b, t);
    PushedIsOk(ts, b, t);
  }

  lemma PushedBreakStack(ts: seq<Token>, t: Token, b: Buffer)
    requires t.Break? && WellNested(ts) && WellNested(ts + [t]) && b.printed + |b.tokens| == |ts|
    requires ScanOk(StackBefore(ts + [t], 1), b, b.printed)
    ensures ScanOk(Stack(ts + [t]), PushedScan(b, t), b.printed)
  {
    StackStep(ts, t);
    StackBeforeBreak(ts, t);
    ScanPushed(Stack(ts)[..Kept(ts)], b, t, |ts|, Stack(ts + [t]));
  }

  lemma TotalsBefore(ts: seq<Token>, t: Token, b: Buffer)
    requires TotalsOk(ts + [t], b) && b.printed + |b.tokens| == |ts|
    ensures TotalsOk(ts, b)
  {
    SliceOfSum(ts, t, b.printed, b.printed + |b.tokens|);
  }

  /** The break that the stack has been checked for. */
  lemma PushBreakOk(ts: seq<Token>, t: Token, b: Buffer)
    requires t.Break? && BufferOk(ts + [t], b, 0, 1) && WellNested(ts)
    ensures BufferOk(ts + [t], PushedScan(b, t), 0, 0)
  {
    PushedBreakStack(ts, t, b);
    PushedTotals(ts, b, t);
    TotalsBefore(ts, t, b);
    PushedEntries(ts, b, t);
    PushedIsOk(ts, b, t);
  }

  // ---------------------------------------------------------------------------------------------
  // Checking the stack for a break
  // ---------------------------------------------------------------------------------------------

  function Determined(f: FormattedToken, rightTotal: int): FormattedToken {
    f.(size := if f.token.End? then 1 else f.size + rightTotal)
  }

  /** The tokens after the given entries of the scan stack have been popped. */
  function Popped(tokens: seq<FormattedToken>, popped: seq<nat>, tokenOffset: nat, rightTotal: int)
    : (r: seq<FormattedToken>)
    ensures |r| == |tokens|
  {
    seq(|tokens|, k requires 0 <= k < |tokens| =>
      if tokenOffset + k in popped then Determined(tokens[k], rightTotal) else tokens[k])
  }

  /** The tokens that entries of the scan stack stand for. */
  function ScanTokens(b: Buffer): (r: seq<Token>)
    requires forall m :: 0 <= m < |b.scanStack| ==> b.tokenOffset <= b.scanStack[m] < b.tokenOffset + |b.tokens|
    ensures |r| == |b.scanStack|
  {
    seq(|b.scanStack|, m requires 0 <= m < |b.scanStack| => b.tokens[b.scanStack[m] - b.tokenOffset].token)
  }

  ghost predicate ScanInRange(b: Buffer) {
    forall m :: 0 <= m < |b.scanStack| ==> b.tokenOffset <= b.scanStack[m] < b.tokenOffset + |b.tokens|
  }

  function Checked(b: Buffer, n: nat): Buffer
    requires n <= |b.scanStack|
  {
    b.(tokens := Popped(b.tokens, b.scanStack[n..], b.tokenOffset, b.rightTotal), scanStack := b.scanStack[..n])
  }

  lemma ScanIsInRange(ts: seq<Token>, b: Buffer, forced: nat)
    requires BufferOk(ts, b, forced, 0)
    ensures ScanInRange(b)
    ensures forall j, k :: 0 <= j < k < |b.scanStack| ==> b.scanStack[j] < b.scanStack[k]
  {
    StackInRange(ts);
    StackAscends(ts);
    var stack, gone := Stack(ts), |Stack(ts)| - |b.scanStack|;
    forall m | 0 <= m < |b.scanStack|
      ensures b.tokenOffset <= b.scanStack[m] < b.tokenOffset + |b.tokens|
    {
      assert stack[gone + m] >= b.printed;
      assert b.scanStack[(gone + m) - gone] == b.tokenOffset + stack[gone + m] - b.printed;
    }
    forall j, k | 0 <= j < k < |b.scanStack| ensures b.scanStack[j] < b.scanStack[k] {
      assert stack[gone + j] < stack[gone + k];
      assert b.scanStack[(gone + j) - gone] == b.tokenOffset + stack[gone + j] - b.printed;
      assert b.scanStack[(gone + k) - gone] == b.tokenOffset + stack[gone + k] - b.printed;
    }
  }

  lemma ScanTokenIs(ts: seq<Token>, b: Buffer, stack: seq<nat>, m: nat)
    requires b.printed + |b.tokens| == |ts| && EntriesOk(ts, b.tokens, b.printed, b.leftTotal, 0)
    requires ScanOk(stack, b, b.printed) && m < |b.scanStack|
    requires var i := stack[|stack| - |b.scanStack| + m]; i < |ts|
    ensures var i := stack[|stack| - |b.scanStack| + m];
            && b.scanStack[m] == b.tokenOffset + i - b.printed
            && b.printed <= i && b.tokens[i - b.printed].token == ts[i]
  {
    var gone := |stack| - |b.scanStack|;
    var i := stack[gone + m];
    assert b.scanStack[(gone + m) - gone] == b.tokenOffset + i - b.printed;
    assert EntryOk(ts, b.tokens[i - b.printed], b.printed + (i - b.printed), b.printed, b.leftTotal);
  }

  lemma ScanTokensAre(ts: seq<Token>, b: Buffer, stack: seq<nat>)
    requires b.printed + |b.tokens| == |ts| && EntriesOk(ts, b.tokens, b.printed, b.leftTotal, 0)
    requires ScanInRange(b) && InRange(ts, stack) && ScanOk(stack, b, b.printed)
    ensures ScanTokens(b) == At(ts, stack)[|stack| - |b.scanStack|..]
  {
    var gone := |stack| - |b.scanStack|;
    var tokens, all := ScanTokens(b), At(ts, stack);
    forall m: nat | m < |b.scanStack| ensures tokens[m] == all[gone + m] {
      ScanTokenIs(ts, b, stack, m);
    }
    assert |tokens| == |all[gone..]|;
  }

  lemma LeftOfTail(all: seq<Token>, gone: nat, tokens: seq<Token>)
    requires gone <= |all| && tokens == all[gone..]
    ensures Left(tokens, 0) == if Left(all, 0) <= gone then 0 else Left(all, 0) - gone
  {
    LeftOfSuffix(all, gone, 0);
  }

  lemma CheckedDepthOf(ts: seq<Token>, b: Buffer, stack: seq<nat>, kept: nat)
    requires b.printed + |b.tokens| == |ts| && EntriesOk(ts, b.tokens, b.printed, b.leftTotal, 0)
    requires ScanInRange(b) && InRange(ts, stack) && ScanOk(stack, b, b.printed)
    requires Left(At(ts, stack), 0) == kept
    ensures kept <= |stack|
    ensures var gone := |stack| - |b.scanStack|;
            Left(ScanTokens(b), 0) == if kept <= gone then 0 else kept - gone
  {
    ScanTokensAre(ts, b, stack);
    LeftOfTail(At(ts, stack), |stack| - |b.scanStack|, ScanTokens(b));
  }

  /** How far the stack is popped. */
  lemma CheckedDepth(ts: seq<Token>, b: Buffer)
    requires BufferOk(ts, b, 0, 0)
    ensures ScanInRange(b) && Kept(ts) <= |Stack(ts)|
    ensures var gone := |Stack(ts)| - |b.scanStack|;
            Left(ScanTokens(b), 0) == if Kept(ts) <= gone then 0 else Kept(ts) - gone
  {
    ScanIsInRange(ts, b, 0);
    LeftIsKept(ts);
    CheckedDepthOf(ts, b, Stack(ts), Kept(ts));
  }

  /** The break determines the size of a popped entry. */
  lemma PoppedEntry(ts: seq<Token>, t: Token, b: Buffer, k: nat)
    requires t.Break? && k < |b.tokens| && b.printed + |b.tokens| == |ts| && TotalsOk(ts, b)
    requires var i := b.printed + k;
             && EntryOk(ts, b.tokens[k], i, b.printed, b.leftTotal)
             && IsPending(ts, i) && PendingOpen(ts, i) == 0
    ensures EntryOk(ts + [t], Determined(b.tokens[k], b.rightTotal), b.printed + k, b.printed, b.leftTotal)
  {
    var i := b.printed + k;
    PendingStep(ts, t, i);
    if !ts[i].End? {
      PendingSize(ts, [t], i);
      assert ts[b.printed..|ts|] == ts[b.printed..i] + ts[i..];
      TotalWidthOfSum(ts[b.printed..i], ts[i..]);
    }
  }

  /** An undetermined token is on the scan stack, if it has not been printed. */
  lemma PendingIsScanned(ts: seq<Token>, b: Buffer, i: nat, forced: nat) returns (m: nat)
    requires BufferOk(ts, b, forced, 0) && b.printed + forced <= i < |ts| && IsPending(ts, i)
    ensures m < |b.scanStack| && b.scanStack[m] == b.tokenOffset + (i - b.printed)
    ensures Stack(ts)[|Stack(ts)| - |b.scanStack| + m] == i
  {
    var at := PendingIsOnStack(ts, i);
    var gone := |Stack(ts)| - |b.scanStack|;
    assert at >= gone;
    m := at - gone;
  }

  /** Popped entries are those that the break determines. */
  lemma PoppedIsDetermined(ts: seq<Token>, b: Buffer, n: nat, k: nat)
    requires BufferOk(ts, b, 0, 0) && k < |b.tokens| && n <= |b.scanStack| && Kept(ts) <= |Stack(ts)|
    requires n == if Kept(ts) <= |Stack(ts)| - |b.scanStack| then 0 else Kept(ts) - (|Stack(ts)| - |b.scanStack|)
    ensures var i := b.printed + k;
            b.tokenOffset + k in b.scanStack[n..] <==> IsPending(ts, i) && PendingOpen(ts, i) == 0
  {
    var stack, i, gone := Stack(ts), b.printed + k, |Stack(ts)| - |b.scanStack|;
    if b.tokenOffset + k in b.scanStack[n..] {
      var m :| 0 <= m < |b.scanStack[n..]| && b.scanStack[n..][m] == b.tokenOffset + k;
      PoppedPosition(stack, b, n, m);
      StackEntry(ts, gone + n + m);
    } else if IsPending(ts, i) {
      var m := PendingIsScanned(ts, b, i, 0);
      MemberFrom(b.scanStack, n, m);
      StackEntry(ts, gone + m);
    }
  }

  lemma MemberFrom(s: seq<nat>, n: nat, m: nat)
    requires n <= |s| && m < |s|
    ensures m >= n ==> s[m] in s[n..]
  {
    if m >= n {
      assert s[n..][m - n] == s[m];
    }
  }

  lemma PoppedPosition(stack: seq<nat>, b: Buffer, n: nat, m: nat)
    requires ScanOk(stack, b, b.printed) && n + m < |b.scanStack|
    ensures b.scanStack[n..][m] == b.tokenOffset + stack[|stack| - |b.scanStack| + n + m] - b.printed
  {
    var gone := |stack| - |b.scanStack|;
    assert b.scanStack[(gone + n + m) - gone] == b.tokenOffset + stack[gone + n + m] - b.printed;
  }

  lemma CheckedEntry(ts: seq<Token>, t: Token, b: Buffer, n: nat, k: nat)
    requires t.Break? && k < |b.tokens| && b.printed + |b.tokens| == |ts| && TotalsOk(ts, b) && n <= |b.scanStack|
    requires EntryOk(ts, b.tokens[k], b.printed + k, b.printed, b.leftTotal)
    requires var i := b.printed + k;
             b.tokenOffset + k in b.scanStack[n..] <==> IsPending(ts, i) && PendingOpen(ts, i) == 0
    ensures EntryOk(ts + [t], Checked(b, n).tokens[k], b.printed + k, b.printed, b.leftTotal)
  {
    if b.tokenOffset + k in b.scanStack[n..] {
      PoppedEntry(ts, t, b, k);
    } else {
      EntryStays(ts, t, b.tokens[k], b.printed + k, b.printed, b.leftTotal);
    }
  }

  lemma ScanCut(stack: seq<nat>, b: Buffer, kept: nat, n: nat, b': Buffer)
    requires ScanOk(stack, b, b.printed) && kept <= |stack| && n <= |b.scanStack|
    requires n == if kept <= |stack| - |b.scanStack| then 0 else kept - (|stack| - |b.scanStack|)
    requires b'.printed == b.printed && b'.tokenOffset == b.tokenOffset && b'.scanStack == b.scanStack[..n]
    ensures ScanOk(stack[..kept], b', b.printed)
  {
  }

  lemma CheckedEntries(ts: seq<Token>, t: Token, b: Buffer, n: nat)
    requires BufferOk(ts, b, 0, 0) && t.Break? && n <= |b.scanStack| && Kept(ts) <= |Stack(ts)|
    requires n == if Kept(ts) <= |Stack(ts)| - |b.scanStack| then 0 else Kept(ts) - (|Stack(ts)| - |b.scanStack|)
    ensures EntriesOk(ts + [t], Checked(b, n).tokens, b.printed, b.leftTotal, 0)
  {
    var tokens := Checked(b, n).tokens;
    forall k: nat | k < |tokens| ensures EntryOk(ts + [t], tokens[k], b.printed + k, b.printed, b.leftTotal) {
      PoppedIsDetermined(ts, b, n, k);
      assert EntryOk(ts, b.tokens[k], b.printed + k, b.printed, b.leftTotal);
      CheckedEntry(ts, t, b, n, k);
    }
  }

  lemma CheckedTotals(ts: seq<Token>, t: Token, b: Buffer, n: nat)
    requires TotalsOk(ts, b) && n <= |b.scanStack|
    ensures TotalsOk(ts + [t], Checked(b, n))
  {
    TotalsStay(ts, b, t);
    assert |Checked(b, n).tokens| == |b.tokens|;
  }

  lemma CheckStackOk(ts: seq<Token>, t: Token, b: Buffer)
    requires BufferOk(ts, b, 0, 0) && t.Break?
    ensures ScanInRange(b) && BufferOk(ts + [t], Checked(b, Left(ScanTokens(b), 0)), 0, 1)
  {
    CheckedDepth(ts, b);
    var n := Left(ScanTokens(b), 0);
    assert EntriesOk(ts + [t], Checked(b, n).tokens, b.printed, b.leftTotal, 0) by {
      CheckedEntries(ts, t, b, n);
    }
    assert TotalsOk(ts + [t], Checked(b, n)) by {
      CheckedTotals(ts, t, b, n);
    }
    assert WellNested(ts + [t]) && ScanOk(StackBefore(ts + [t], 1), Checked(b, n), b.printed) by {
      StackBeforeBreak(ts, t);
      ScanCut(Stack(ts), b, Kept(ts), n, Checked(b, n));
    }
    CheckedIsOk(ts, t, b, n);
  }

  lemma CheckedIsOk(ts: seq<Token>, t: Token, b: Buffer, n: nat)
    requires ShapeOk(ts, b, 0, 0) && t.Break? && n <= |b.scanStack| && WellNested(ts + [t])
    requires EntriesOk(ts + [t], Checked(b, n).tokens, b.printed, b.leftTotal, 0)
    requires TotalsOk(ts + [t], Checked(b, n)) && ScanOk(StackBefore(ts + [t], 1), Checked(b, n), b.printed)
    ensures BufferOk(ts + [t], Checked(b, n), 0, 1)
  {
  }
}
