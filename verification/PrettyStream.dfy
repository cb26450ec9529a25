/** The steps of the streaming printer that print: forcing sizes to infinity, advancing, rebasing, and the end. */
module PrettyStream {
  import opened PrettyTokens
  import opened PrettyScan
  import opened PrettyLevels
  import opened PrettyBuffer

  // ---------------------------------------------------------------------------------------------
  // The front of the buffer
  // ---------------------------------------------------------------------------------------------

  function Forced(b: Buffer): Buffer
    requires b.tokens != [] && b.scanStack != []
  {
    b.(tokens := b.tokens[0 := b.tokens[0].(size := INFINITY)], scanStack := b.scanStack[1..])
  }

  lemma ForceScan(stack: seq<nat>, b: Buffer)
    requires ScanOk(stack, b, b.printed) && b.tokens != [] && b.scanStack != [] && b.scanStack[0] == b.tokenOffset
    requires forall j, k :: 0 <= j < k < |stack| ==> stack[j] < stack[k]
    ensures ScanOk(stack, Forced(b), b.printed + 1)
    ensures stack[|stack| - |b.scanStack|] == b.printed
  {
    var gone := |stack| - |b.scanStack|;
    assert b.scanStack[gone - gone] == b.tokenOffset + stack[gone] - b.printed;
  }

  lemma ForceOk(ts: seq<Token>, b: Buffer)
    requires BufferOk(ts, b, 0, 0) && b.tokens != [] && b.scanStack != [] && b.scanStack[0] == b.tokenOffset
    ensures BufferOk(ts, Forced(b), 1, 0)
  {
    StackAscends(ts);
    ForceScan(Stack(ts), b);
    StackEntry(ts, |Stack(ts)| - |b.scanStack|);
    assert EntryOk(ts, b.tokens[0], b.printed + 0, b.printed, b.leftTotal);
  }

  /** Every token of unknown size is on the scan stack in order: if the front of the buffer is not the front of the scan
      stack, its size is known. */
  lemma FrontIsKnown(ts: seq<Token>, b: Buffer)
    requires BufferOk(ts, b, 0, 0) && b.tokens != []
    requires b.scanStack == [] || b.scanStack[0] != b.tokenOffset
    ensures b.tokens[0].size >= 0
  {
    assert EntryOk(ts, b.tokens[0], b.printed + 0, b.printed, b.leftTotal);
    if IsPending(ts, b.printed) {
      ScanIsInRange(ts, b, 0);
      var m := PendingIsScanned(ts, b, b.printed, 0);
    }
  }

  function Advanced(b: Buffer): Buffer
    requires b.tokens != []
  {
    b.(printed := b.printed + 1, leftTotal := b.leftTotal + Width(b.tokens[0].token), tokens := b.tokens[1..],
       tokenOffset := b.tokenOffset + 1)
  }

  lemma AdvanceTotals(ts: seq<Token>, b: Buffer, n: nat)
    requires b.tokens != [] && b.printed < n <= |ts| && b.tokens[0].token == ts[b.printed]
    ensures b.leftTotal + TotalWidth(ts[b.printed..n]) == Advanced(b).leftTotal + TotalWidth(ts[b.printed + 1..n])
  {
    assert ts[b.printed..n][1..] == ts[b.printed + 1..n];
  }

  lemma AdvanceEntries(ts: seq<Token>, b: Buffer, forced: nat)
    requires b.tokens != [] && b.printed + |b.tokens| <= |ts| && forced <= 1 && b.tokens[0].token == ts[b.printed]
    requires EntriesOk(ts, b.tokens, b.printed, b.leftTotal, forced)
    ensures EntriesOk(ts, Advanced(b).tokens, b.printed + 1, Advanced(b).leftTotal, 0)
  {
    var b' := Advanced(b);
    forall k: nat | k < |b'.tokens|
      ensures EntryOk(ts, b'.tokens[k], b'.printed + k, b'.printed, b'.leftTotal)
    {
      assert EntryOk(ts, b.tokens[k + 1], b.printed + (k + 1), b.printed, b.leftTotal);
      AdvanceTotals(ts, b, b.printed + k + 1);
    }
  }

  lemma AdvanceScan(stack: seq<nat>, b: Buffer, forced: nat)
    requires b.tokens != [] && forced <= 1 && ScanOk(stack, b, b.printed + forced)
    requires forced == 0 ==> b.printed !in stack
    ensures ScanOk(stack, Advanced(b), b.printed + 1)
  {
  }

  lemma KnownIsNotOnStack(ts: seq<Token>, b: Buffer, tail: nat)
    requires BufferOk(ts, b, 0, tail) && b.tokens != [] && b.tokens[0].size >= 0
    ensures !IsPending(ts, b.printed) && b.printed !in StackBefore(ts, tail)
  {
    assert EntryOk(ts, b.tokens[0], b.printed + 0, b.printed, b.leftTotal);
    if b.printed in StackBefore(ts, tail) {
      var m :| 0 <= m < |StackBefore(ts, tail)| && StackBefore(ts, tail)[m] == b.printed;
      StackEntry(ts, m);
    }
  }

  lemma FrontToken(ts: seq<Token>, b: Buffer, forced: nat, tail: nat)
    requires BufferOk(ts, b, forced, tail) && b.tokens != []
    ensures b.printed < |ts| && b.tokens[0].token == ts[b.printed]
    ensures forced == 0 ==> EntryOk(ts, b.tokens[0], b.printed, b.printed, b.leftTotal)
  {
    if forced == 0 {
      assert EntryOk(ts, b.tokens[0], b.printed + 0, b.printed, b.leftTotal);
    }
  }

  lemma AdvanceTotalsOk(ts: seq<Token>, b: Buffer)
    requires TotalsOk(ts, b) && b.tokens != [] && b.printed < |ts| && b.tokens[0].token == ts[b.printed]
    ensures TotalsOk(ts, Advanced(b))
  {
    AdvanceTotals(ts, b, b.printed + |b.tokens|);
    assert Advanced(b).printed + |Advanced(b).tokens| == b.printed + |b.tokens|;
  }

  lemma AdvancedIsOk(ts: seq<Token>, b: Buffer, forced: nat, tail: nat)
    requires ShapeOk(ts, b, forced, tail) && b.tokens != [] && TotalsOk(ts, Advanced(b))
    requires EntriesOk(ts, Advanced(b).tokens, b.printed + 1, Advanced(b).leftTotal, 0)
    requires ScanOk(StackBefore(ts, tail), Advanced(b), b.printed + 1)
    ensures BufferOk(ts, Advanced(b), 0, tail)
  {
  }

  lemma AdvanceOk(ts: seq<Token>, b: Buffer, forced: nat, tail: nat)
    requires BufferOk(ts, b, forced, tail) && b.tokens != [] && b.tokens[0].size >= 0
    ensures BufferOk(ts, Advanced(b), 0, tail)
  {
    FrontToken(ts, b, forced, tail);
    if forced == 0 {
      KnownIsNotOnStack(ts, b, tail);
    }
    AdvanceTotalsOk(ts, b);
    AdvanceEntries(ts, b, forced);
    AdvanceScan(StackBefore(ts, tail), b, forced);
    AdvancedIsOk(ts, b, forced, tail);
  }

  /** When nothing is left on the scan stack, all sizes are known. */
  lemma EmptyScanIsKnown(ts: seq<Token>, b: Buffer, tail: nat)
    requires BufferOk(ts, b, 0, tail) && b.scanStack == [] && b.tokens != []
    ensures b.tokens[0].size >= 0
  {
    assert EntryOk(ts, b.tokens[0], b.printed + 0, b.printed, b.leftTotal);
    if IsPending(ts, b.printed) {
      var at := PendingIsOnStack(ts, b.printed);
      LastOfStack(ts, tail);
    }
  }

  /** A break at the end of the stream is the last on the stack. */
  lemma LastOfStack(ts: seq<Token>, tail: nat)
    requires WellNested(ts) && tail <= 1 && tail <= |ts| && (tail == 1 ==> ts[|ts| - 1].Break?)
    ensures tail == 1 ==> Stack(ts) == StackBefore(ts, tail) + [|ts| - 1]
  {
    if tail == 1 {
      var init, t := ts[..|ts| - 1], ts[|ts| - 1];
      assert ts == init + [t];
      StackStep(init, t);
    }
  }

  // ---------------------------------------------------------------------------------------------
  // Printing
  // ---------------------------------------------------------------------------------------------

  /** The first tokens have been printed as the offline printer does, however the stream continues. */
  ghost predicate PrintedOk(cfg: Config, st0: PrintState, ts: seq<Token>, printed: nat, st: PrintState)
    requires printed <= |ts|
  {
    && st.space <= cfg.margin
    && forall more: seq<Token> :: Offline(cfg, st0, ts + more, printed) == st
  }

  lemma PrintKeepsMargin(cfg: Config, st: PrintState, t: Token, size: int)
    requires st.space <= cfg.margin && (t.String? ==> size >= 0)
    ensures Print(cfg, st, t, size).space <= cfg.margin
  {
  }

  lemma OfflineStep(cfg: Config, st0: PrintState, ts: seq<Token>, more: seq<Token>, p: nat, st: PrintState, size: int)
    requires p < |ts| && Offline(cfg, st0, ts + more, p) == st
    requires Print(cfg, st, ts[p], Size(ts + more, p)) == Print(cfg, st, ts[p], size)
    ensures Offline(cfg, st0, ts + more, p + 1) == Print(cfg, st, ts[p], size)
  {
    assert (ts + more)[p] == ts[p];
  }

  /** A determined size prints as in every continuation of the stream. */
  lemma PrintKnown(cfg: Config, st0: PrintState, ts: seq<Token>, p: nat, st: PrintState, size: int)
    requires p < |ts| && PrintedOk(cfg, st0, ts, p, st) && !IsPending(ts, p)
    requires size == Size(ts, p) || ts[p].End?
    ensures PrintedOk(cfg, st0, ts, p + 1, Print(cfg, st, ts[p], size))
  {
    PrintKeepsMargin(cfg, st, ts[p], size);
    forall more: seq<Token>
      ensures Offline(cfg, st0, ts + more, p + 1) == Print(cfg, st, ts[p], size)
    {
      DeterminedStays(ts, more, p);
      OfflineStep(cfg, st0, ts, more, p, st, size);
    }
  }

  /** Infinity prints as the size in every continuation of the stream, if what is known of it is too large already. */
  lemma PrintForced(cfg: Config, st0: PrintState, ts: seq<Token>, p: nat, st: PrintState)
    requires p < |ts| && PrintedOk(cfg, st0, ts, p, st) && IsPending(ts, p)
    requires TotalWidth(ts[p..]) > st.space && cfg.margin < INFINITY
    ensures PrintedOk(cfg, st0, ts, p + 1, Print(cfg, st, ts[p], INFINITY))
  {
    PrintKeepsMargin(cfg, st, ts[p], INFINITY);
    forall more: seq<Token>
      ensures Offline(cfg, st0, ts + more, p + 1) == Print(cfg, st, ts[p], INFINITY)
    {
      if !ts[p].End? {
        PendingSize(ts, more, p);
      }
      assert (ts + more)[p] == ts[p];
      OnlyFitMatters(cfg, st, ts[p], Size(ts + more, p), INFINITY);
      OfflineStep(cfg, st0, ts, more, p, st, INFINITY);
    }
  }

  /** An end prints alike whatever its size. */
  lemma PrintEnd(cfg: Config, st0: PrintState, ts: seq<Token>, p: nat, st: PrintState, size: int)
    requires p < |ts| && PrintedOk(cfg, st0, ts, p, st) && ts[p].End?
    ensures PrintedOk(cfg, st0, ts, p + 1, Print(cfg, st, ts[p], size))
  {
    forall more: seq<Token>
      ensures Offline(cfg, st0, ts + more, p + 1) == Print(cfg, st, ts[p], size)
    {
      assert (ts + more)[p] == ts[p];
      OfflineStep(cfg, st0, ts, more, p, st, size);
    }
  }

  lemma KnownSize(ts: seq<Token>, f: FormattedToken, i: nat, leftTotal: int)
    requires i < |ts| && EntryOk(ts, f, i, i, leftTotal) && !IsPending(ts, i)
    ensures f.size == Size(ts, i) || ts[i].End?
  {
  }

  lemma PrintForcedFront(cfg: Config, st0: PrintState, ts: seq<Token>, b: Buffer, st: PrintState)
    requires ShapeOk(ts, b, 1, 0) && TotalsOk(ts, b) && PrintedOk(cfg, st0, ts, b.printed, st)
    requires b.rightTotal - b.leftTotal > st.space && cfg.margin < INFINITY
    ensures PrintedOk(cfg, st0, ts, b.printed + 1, Print(cfg, st, ts[b.printed], INFINITY))
  {
    assert ts[b.printed..|ts|] == ts[b.printed..];
    PrintForced(cfg, st0, ts, b.printed, st);
  }

  /** The front of the buffer prints as the offline printer does. */
  lemma PrintFront(cfg: Config, st0: PrintState, ts: seq<Token>, b: Buffer, forced: nat, tail: nat, st: PrintState)
    requires BufferOk(ts, b, forced, tail) && b.tokens != [] && b.tokens[0].size >= 0
    requires PrintedOk(cfg, st0, ts, b.printed, st) && cfg.margin < INFINITY
    requires forced == 1 ==> tail == 0 && b.rightTotal - b.leftTotal > st.space
    ensures PrintedOk(cfg, st0, ts, b.printed + 1, Print(cfg, st, b.tokens[0].token, b.tokens[0].size))
  {
    FrontToken(ts, b, forced, tail);
    if forced == 1 {
      PrintForcedFront(cfg, st0, ts, b, st);
    } else {
      KnownIsNotOnStack(ts, b, tail);
      KnownSize(ts, b.tokens[0], b.printed, b.leftTotal);
      PrintKnown(cfg, st0, ts, b.printed, st, b.tokens[0].size);
    }
  }

  lemma PrintedStays(cfg: Config, st0: PrintState, ts: seq<Token>, t: Token, p: nat, st: PrintState)
    requires p <= |ts| && PrintedOk(cfg, st0, ts, p, st)
    ensures PrintedOk(cfg, st0, ts + [t], p, st)
  {
    forall more: seq<Token> ensures Offline(cfg, st0, ts + [t] + more, p) == st {
      assert ts + [t] + more == ts + ([t] + more);
    }
  }

  /** A token printed directly leaves the buffer empty. */
  lemma PrintedDirectly(ts: seq<Token>, t: Token, b: Buffer)
    requires BufferOk(ts, b, 0, 0) && b.tokens == [] && b.scanStack == []
    requires t.String? || (t.End? && Depth(ts) > 0)
    ensures BufferOk(ts + [t], b.(printed := b.printed + 1), 0, 0)
  {
    var ts', b' := ts + [t], b.(printed := b.printed + 1);
    StackStep(ts, t);
    assert ts[|ts|..|ts|] == [] && ts'[|ts'|..|ts'|] == [];
    assert ScanOk(Stack(ts'), b', b'.printed) by {
      StackInRange(ts');
    }
  }

  // ---------------------------------------------------------------------------------------------
  // Rebasing
  // ---------------------------------------------------------------------------------------------

  function Adjusted(f: FormattedToken, adjust: int): FormattedToken {
    if (f.token.Break? || f.token.Begin?) && f.size < 0 then f.(size := f.size + adjust) else f
  }

  /** The tokens after some entries of the scan stack have been adjusted. */
  function AdjustedTokens(tokens: seq<FormattedToken>, scan: seq<nat>, tokenOffset: nat, adjust: int)
    : (r: seq<FormattedToken>)
    ensures |r| == |tokens|
  {
    seq(|tokens|, k requires 0 <= k < |tokens| =>
      if tokenOffset + k in scan then Adjusted(tokens[k], adjust) else tokens[k])
  }

  function Moved(scan: seq<nat>, n: nat, tokenOffset: nat): (r: seq<nat>)
    requires n <= |scan| && forall m :: 0 <= m < |scan| ==> scan[m] >= tokenOffset
    ensures |r| == |scan|
  {
    seq(|scan|, m requires 0 <= m < |scan| => if m < n then scan[m] - tokenOffset else scan[m])
  }

  function Rebased(b: Buffer): Buffer
    requires ScanInRange(b)
  {
    var adjust := b.leftTotal - 1;
    b.(tokens := AdjustedTokens(b.tokens, b.scanStack, b.tokenOffset, adjust),
       scanStack := Moved(b.scanStack, |b.scanStack|, b.tokenOffset),
       leftTotal := 1, rightTotal := b.rightTotal - adjust, tokenOffset := 0)
  }

  lemma RebasedEntry(ts: seq<Token>, b: Buffer, k: nat)
    requires BufferOk(ts, b, 0, 0) && ScanInRange(b) && k < |b.tokens|
    ensures EntryOk(ts, Rebased(b).tokens[k], b.printed + k, b.printed, 1)
  {
    var i := b.printed + k;
    assert EntryOk(ts, b.tokens[k], i, b.printed, b.leftTotal);
    if IsPending(ts, i) {
      var m := PendingIsScanned(ts, b, i, 0);
      assert b.tokenOffset + k in b.scanStack;
    }
  }

  lemma RebasedEntries(ts: seq<Token>, b: Buffer)
    requires BufferOk(ts, b, 0, 0) && ScanInRange(b)
    ensures EntriesOk(ts, Rebased(b).tokens, b.printed, 1, 0)
  {
    forall k: nat | k < |b.tokens| ensures EntryOk(ts, Rebased(b).tokens[k], b.printed + k, b.printed, 1) {
      RebasedEntry(ts, b, k);
    }
  }

  lemma RebaseScan(stack: seq<nat>, b: Buffer)
    requires ScanOk(stack, b, b.printed) && ScanInRange(b)
    ensures ScanOk(stack, Rebased(b), b.printed)
  {
    var b', gone := Rebased(b), |stack| - |b.scanStack|;
    forall m | gone <= m < |stack|
      ensures stack[m] >= b.printed && b'.scanStack[m - gone] == b'.tokenOffset + stack[m] - b'.printed
    {
      assert b.scanStack[m - gone] == b.tokenOffset + stack[m] - b.printed;
    }
  }

  lemma RebaseOk(ts: seq<Token>, b: Buffer)
    requires BufferOk(ts, b, 0, 0)
    ensures ScanInRange(b) && BufferOk(ts, Rebased(b), 0, 0)
  {
    ScanIsInRange(ts, b, 0);
    RebasedEntries(ts, b);
    RebaseScan(Stack(ts), b);
  }

  /** Sizes that are still negative stay negative. */
  lemma AdjustedStaysNegative(ts: seq<Token>, b: Buffer, k: nat)
    requires BufferOk(ts, b, 0, 0) && k < |b.tokens|
    requires !b.tokens[k].token.String? && !b.tokens[k].token.End? && b.tokens[k].size < 0
    ensures b.tokens[k].size + b.leftTotal - 1 < 0
  {
    assert EntryOk(ts, b.tokens[k], b.printed + k, b.printed, b.leftTotal);
  }

  // ---------------------------------------------------------------------------------------------
  // The end of the stream
  // ---------------------------------------------------------------------------------------------

  /** At the end, sizes are as if a break followed. */
  lemma {:induction false} RestAtEnd(ts: seq<Token>, t: Token, open: nat)
    requires t.Break? && OpenAfter(ts, open) == 0
    ensures Rest(ts + [t], open) == Rest(ts, open)
  {
    if ts == [] {
    } else {
      assert (ts + [t])[1..] == ts[1..] + [t];
      match ts[0]
      case String(_) => RestAtEnd(ts[1..], t, open);
      case Break(_, _, _) => if open > 0 { RestAtEnd(ts[1..], t, open); }
      case Begin(_, _, _) => RestAtEnd(ts[1..], t, open + 1);
      case End => RestAtEnd(ts[1..], t, if open == 0 then 0 else open - 1);
    }
  }

  /** Outside of all groups, a break at the end changes no size. */
  lemma SizeAtEnd(ts: seq<Token>, t: Token, i: nat)
    requires WellNested(ts) && Depth(ts) == 0 && t.Break? && i < |ts|
    ensures Size(ts + [t], i) == Size(ts, i)
  {
    assert (ts + [t])[i + 1..] == ts[i + 1..] + [t];
    if IsPending(ts, i) {
      var k := PendingIsOnStack(ts, i);
      LeftIsKept(ts);
      StackEntry(ts, k);
      RestAtEnd(ts[i + 1..], t, Opens(ts[i]));
    } else if !ts[i].String? {
      StoppedRest(ts[i + 1..], [t], Opens(ts[i]));
    }
  }

  lemma NextAtEnd(cfg: Config, st0: PrintState, ts: seq<Token>, t: Token, k: nat)
    requires WellNested(ts) && Depth(ts) == 0 && t.Break? && k < |ts|
    requires Offline(cfg, st0, ts + [t], k) == Offline(cfg, st0, ts, k)
    ensures Offline(cfg, st0, ts + [t], k + 1) == Offline(cfg, st0, ts, k + 1)
  {
    SizeAtEnd(ts, t, k);
    OfflineUnfolds(cfg, st0, ts, k);
    OfflineUnfolds(cfg, st0, ts + [t], k);
  }

  lemma OfflineUnfolds(cfg: Config, st0: PrintState, ts: seq<Token>, k: nat)
    requires k < |ts|
    ensures Offline(cfg, st0, ts, k + 1) == Print(cfg, Offline(cfg, st0, ts, k), ts[k], Size(ts, k))
  {
  }

  lemma {:induction false} OfflineAtEnd(cfg: Config, st0: PrintState, ts: seq<Token>, t: Token, k: nat)
    requires WellNested(ts) && Depth(ts) == 0 && t.Break? && k <= |ts|
    ensures Offline(cfg, st0, ts + [t], k) == Offline(cfg, st0, ts, k)
  {
    if k > 0 {
      OfflineAtEnd(cfg, st0, ts, t, k - 1);
      NextAtEnd(cfg, st0, ts, t, k - 1);
    }
  }
}
