/** The stack of tokens with undetermined sizes, by the groups that are open. */
module PrettyLevels {
  // In each open group (and outside of all groups), it holds at most one break, in front of closed groups, as every
  // break determines what came before it.

  import opened PrettyTokens
  import opened PrettyScan

  /** The begin of an open group (none outside of all groups), its last break, and the entries of later groups in it. */
  datatype Level = Level(start: seq<nat>, brk: seq<nat>, groups: seq<nat>)

  function Flat(l: Level): seq<nat> {
    l.start + l.brk + l.groups
  }

  function FlatAll(ls: seq<Level>): seq<nat> {
    if ls == [] then [] else FlatAll(ls[..|ls| - 1]) + Flat(ls[|ls| - 1])
  }

  function NextLevels(ls: seq<Level>, t: Token, i: nat): (r: seq<Level>)
    requires ls != []
    ensures r != []
  {
    var last, init := ls[|ls| - 1], ls[..|ls| - 1];
    match t
    case String(_) => ls
    case Break(_, _, _) => init + [last.(brk := [i], groups := [])]
    case Begin(_, _, _) => ls + [Level([i], [], [])]
    case End =>
      if init == [] then ls else
        var outer := init[|init| - 1];
        init[..|init| - 1] + [outer.(groups := outer.groups + Flat(last) + [i])]
  }

  function Levels(ts: seq<Token>): (ls: seq<Level>)
    ensures ls != []
  {
    if ts == [] then [Level([], [], [])]
    else NextLevels(Levels(ts[..|ts| - 1]), ts[|ts| - 1], |ts| - 1)
  }

  /** The number of open groups. */
  function Depth(ts: seq<Token>): nat {
    |Levels(ts)| - 1
  }

  /** No group is closed that has not been opened. */
  predicate WellNested(ts: seq<Token>) {
    ts == [] || (WellNested(ts[..|ts| - 1]) && (ts[|ts| - 1].End? ==> Depth(ts[..|ts| - 1]) > 0))
  }

  /** The indices of all tokens with undetermined sizes. */
  function Stack(ts: seq<Token>): seq<nat> {
    FlatAll(Levels(ts))
  }

  function At(ts: seq<Token>, indices: seq<nat>): (r: seq<Token>)
    requires forall k :: 0 <= k < |indices| ==> indices[k] < |ts|
    ensures |r| == |indices|
  {
    seq(|indices|, k requires 0 <= k < |indices| => ts[indices[k]])
  }

  // ---------------------------------------------------------------------------------------------
  // The invariant of the levels
  // ---------------------------------------------------------------------------------------------

  ghost predicate InRange(ts: seq<Token>, indices: seq<nat>) {
    forall k :: 0 <= k < |indices| ==> indices[k] < |ts|
  }

  ghost predicate PendingWith(ts: seq<Token>, indices: seq<nat>, open: nat) {
    forall k :: 0 <= k < |indices| ==>
      indices[k] < |ts| && IsPending(ts, indices[k]) && PendingOpen(ts, indices[k]) == open
  }

  /** A level with `open` groups open inside of it. */
  ghost predicate LevelOk(ts: seq<Token>, l: Level, open: nat) {
    && PendingWith(ts, l.start, open + 1) && PendingWith(ts, l.brk, open) && PendingWith(ts, l.groups, open)
    && (l.start == [] || (|l.start| == 1 && ts[l.start[0]].Begin?))
    && (l.brk == [] || (|l.brk| == 1 && ts[l.brk[0]].Break?))
    && IsClosed(At(ts, l.groups))
  }

  ghost predicate LevelAt(ts: seq<Token>, ls: seq<Level>, l: nat)
    requires l < |ls|
  {
    LevelOk(ts, ls[l], |ls| - 1 - l) && (ls[l].start == [] <==> l == 0)
  }

  ghost predicate LevelsOk(ts: seq<Token>, ls: seq<Level>) {
    ls != [] && forall l: nat {:trigger LevelAt(ts, ls, l)} :: l < |ls| ==> LevelAt(ts, ls, l)
  }

  lemma PendingWithStep(ts: seq<Token>, t: Token, indices: seq<nat>, open: nat)
    requires PendingWith(ts, indices, open) && (t.Break? ==> open > 0)
    ensures PendingWith(ts + [t], indices,
                        match t
                        case Begin(_, _, _) => open + 1
                        case End => if open == 0 then 0 else open - 1
                        case _ => open)
  {
    forall k | 0 <= k < |indices|
      ensures IsPending(ts + [t], indices[k])
      ensures PendingOpen(ts + [t], indices[k]) ==
              match t case Begin(_, _, _) => open + 1 case End => if open == 0 then 0 else open - 1 case _ => open
    {
      PendingStep(ts, t, indices[k]);
    }
  }

  lemma AtStep(ts: seq<Token>, t: Token, indices: seq<nat>)
    requires InRange(ts, indices)
    ensures At(ts + [t], indices) == At(ts, indices)
  {
  }

  lemma AtOfSum(ts: seq<Token>, a: seq<nat>, b: seq<nat>)
    requires InRange(ts, a) && InRange(ts, b)
    ensures InRange(ts, a + b) && At(ts, a + b) == At(ts, a) + At(ts, b)
  {
  }

  /** What a token does to a level, other than a break to the innermost one, or an end to the one it closes. */
  lemma LevelStep(ts: seq<Token>, t: Token, l: Level, open: nat)
    requires LevelOk(ts, l, open) && (t.Break? || t.End? ==> open > 0)
    ensures LevelOk(ts + [t], l,
                    match t
                    case Begin(_, _, _) => open + 1
                    case End => open - 1
                    case _ => open)
  {
    PendingWithStep(ts, t, l.start, open + 1);
    PendingWithStep(ts, t, l.brk, open);
    PendingWithStep(ts, t, l.groups, open);
    AtStep(ts, t, l.groups);
  }

  /** The new token itself. */
  lemma NewIsPending(ts: seq<Token>, t: Token)
    requires !t.String?
    ensures PendingWith(ts + [t], [|ts|], Opens(t))
  {
    assert (ts + [t])[|ts| + 1..] == [];
  }

  /** A level that a token leaves as it is. */
  lemma OtherLevel(ts: seq<Token>, t: Token, ls: seq<Level>, ls': seq<Level>, l: nat)
    requires LevelsOk(ts, ls) && l < |ls| && l < |ls'| && ls'[l] == ls[l]
    requires |ls'| == match t case Begin(_, _, _) => |ls| + 1 case End => |ls| - 1 case _ => |ls|
    requires t.Break? ==> l < |ls| - 1
    requires t.End? ==> l < |ls| - 2
    ensures LevelAt(ts + [t], ls', l)
  {
    assert LevelAt(ts, ls, l);
    LevelStep(ts, t, ls[l], |ls| - 1 - l);
  }

  lemma BreakLevel(ts: seq<Token>, t: Token, last: Level)
    requires LevelOk(ts, last, 0) && t.Break?
    ensures LevelOk(ts + [t], last.(brk := [|ts|], groups := []), 0)
  {
    PendingWithStep(ts, t, last.start, 1);
    NewIsPending(ts, t);
    EmptyIsClosed();
    assert At(ts + [t], []) == [];
  }

  lemma BreakLevels(ts: seq<Token>, t: Token, ls: seq<Level>)
    requires LevelsOk(ts, ls) && t.Break?
    ensures LevelsOk(ts + [t], NextLevels(ls, t, |ts|))
  {
    var n := |ls| - 1;
    var ls' := NextLevels(ls, t, |ts|);
    assert LevelAt(ts, ls, n);
    BreakLevel(ts, t, ls[n]);
    forall l: nat | l < |ls'| ensures LevelAt(ts + [t], ls', l) {
      if l < n {
        OtherLevel(ts, t, ls, ls', l);
      }
    }
  }

  lemma BeginLevel(ts: seq<Token>, t: Token)
    requires t.Begin?
    ensures LevelOk(ts + [t], Level([|ts|], [], []), 0)
  {
    NewIsPending(ts, t);
    EmptyIsClosed();
    assert At(ts + [t], []) == [];
  }

  lemma BeginLevels(ts: seq<Token>, t: Token, ls: seq<Level>)
    requires LevelsOk(ts, ls) && t.Begin?
    ensures LevelsOk(ts + [t], NextLevels(ls, t, |ts|))
  {
    var ls' := NextLevels(ls, t, |ts|);
    BeginLevel(ts, t);
    forall l: nat | l < |ls'| ensures LevelAt(ts + [t], ls', l) {
      if l < |ls| {
        OtherLevel(ts, t, ls, ls', l);
      }
    }
  }

  lemma PendingOfSum(ts: seq<Token>, a: seq<nat>, b: seq<nat>, open: nat)
    requires PendingWith(ts, a, open) && PendingWith(ts, b, open)
    ensures PendingWith(ts, a + b, open)
  {
  }

  lemma AtOfOne(ts: seq<Token>, i: nat)
    requires i < |ts|
    ensures InRange(ts, [i]) && At(ts, [i]) == [ts[i]]
  {
  }

  /** The entries of the closed group are all waiting for the next break. */
  lemma ClosedIsPending(ts: seq<Token>, outer: Level, last: Level)
    requires LevelOk(ts, outer, 1) && LevelOk(ts, last, 0)
    ensures PendingWith(ts + [End], outer.groups + Flat(last) + [|ts|], 0)
  {
    var ts' := ts + [End];
    PendingWithStep(ts, End, outer.groups, 1);
    PendingWithStep(ts, End, last.start, 1);
    PendingWithStep(ts, End, last.brk, 0);
    PendingWithStep(ts, End, last.groups, 0);
    NewIsPending(ts, End);
    PendingOfSum(ts', last.start, last.brk, 0);
    PendingOfSum(ts', last.start + last.brk, last.groups, 0);
    PendingOfSum(ts', outer.groups, Flat(last), 0);
    PendingOfSum(ts', outer.groups + Flat(last), [|ts|], 0);
  }

  lemma ClosedIsClosed(ts: seq<Token>, outer: Level, last: Level)
    requires LevelOk(ts, outer, 1) && LevelOk(ts, last, 0) && last.start != []
    ensures InRange(ts + [End], outer.groups + Flat(last) + [|ts|])
    ensures IsClosed(At(ts + [End], outer.groups + Flat(last) + [|ts|]))
  {
    var ts' := ts + [End];
    AtStep(ts, End, outer.groups);
    AtStep(ts, End, last.groups);
    AtOfOne(ts', last.start[0]);
    AtOfOne(ts', |ts|);
    AtOfSum(ts', last.start, last.brk);
    AtOfSum(ts', last.start + last.brk, last.groups);
    AtOfSum(ts', outer.groups, Flat(last));
    AtOfSum(ts', outer.groups + Flat(last), [|ts|]);
    assert last.start == [last.start[0]];
    ClosingIsClosed(At(ts', outer.groups), ts'[last.start[0]], At(ts', last.brk), At(ts', last.groups));
  }

  /** The level that contains a group when it is closed. */
  lemma OuterLevel(ts: seq<Token>, outer: Level, last: Level)
    requires LevelOk(ts, outer, 1) && LevelOk(ts, last, 0) && last.start != []
    ensures LevelOk(ts + [End], outer.(groups := outer.groups + Flat(last) + [|ts|]), 0)
  {
    PendingWithStep(ts, End, outer.start, 2);
    PendingWithStep(ts, End, outer.brk, 1);
    ClosedIsPending(ts, outer, last);
    ClosedIsClosed(ts, outer, last);
  }

  lemma NextOfEnd(ls: seq<Level>, i: nat)
    requires |ls| >= 2
    ensures var n := |ls| - 2;
            NextLevels(ls, End, i) == ls[..n] + [ls[n].(groups := ls[n].groups + Flat(ls[n + 1]) + [i])]
  {
  }

  lemma EndLevels(ts: seq<Token>, ls: seq<Level>)
    requires LevelsOk(ts, ls) && |ls| >= 2
    ensures LevelsOk(ts + [End], NextLevels(ls, End, |ts|))
  {
    var n := |ls| - 2;
    var ls' := NextLevels(ls, End, |ts|);
    NextOfEnd(ls, |ts|);
    assert LevelAt(ts, ls, n) && LevelAt(ts, ls, n + 1);
    OuterLevel(ts, ls[n], ls[n + 1]);
    forall l: nat | l < |ls'| ensures LevelAt(ts + [End], ls', l) {
      if l < n {
        OtherLevel(ts, End, ls, ls', l);
      }
    }
  }

  lemma NextLevelsAreOk(ts: seq<Token>, t: Token, ls: seq<Level>)
    requires LevelsOk(ts, ls) && (t.End? ==> |ls| >= 2)
    ensures LevelsOk(ts + [t], NextLevels(ls, t, |ts|))
  {
    match t
    case String(_) =>
      forall l: nat | l < |ls| ensures LevelAt(ts + [t], ls, l) {
        OtherLevel(ts, t, ls, ls, l);
      }
    case Break(_, _, _) => BreakLevels(ts, t, ls);
    case Begin(_, _, _) => BeginLevels(ts, t, ls);
    case End => EndLevels(ts, ls);
  }

  lemma NoLevels()
    ensures LevelsOk([], Levels([]))
  {
    EmptyIsClosed();
    assert At([], []) == [];
    forall l: nat | l < 1 ensures LevelAt([], Levels([]), l) {
    }
  }

  lemma {:induction false} LevelsAreOk(ts: seq<Token>)
    requires WellNested(ts)
    ensures LevelsOk(ts, Levels(ts))
  {
    if ts == [] {
      NoLevels();
    } else {
      var init, t := ts[..|ts| - 1], ts[|ts| - 1];
      assert ts == init + [t];
      LevelsAreOk(init);
      NextLevelsAreOk(init, t, Levels(init));
    }
  }

  // ---------------------------------------------------------------------------------------------
  // The stack
  // ---------------------------------------------------------------------------------------------

  /** The entries that a break leaves on the stack: up to the begin of the innermost open group. */
  function Kept(ts: seq<Token>): (n: nat)
  {
    var ls := Levels(ts);
    |FlatAll(ls[..|ls| - 1])| + |ls[|ls| - 1].start|
  }

  lemma FlatAllOf(ls: seq<Level>, l: Level)
    ensures FlatAll(ls + [l]) == FlatAll(ls) + Flat(l)
  {
    assert (ls + [l])[..|ls + [l]| - 1] == ls;
  }

  lemma StackSplits(ts: seq<Token>)
    ensures Kept(ts) <= |Stack(ts)|
    ensures var last := Levels(ts)[|Levels(ts)| - 1];
            Stack(ts)[..Kept(ts)] == FlatAll(Levels(ts)[..|Levels(ts)| - 1]) + last.start
            && Stack(ts)[Kept(ts)..] == last.brk + last.groups
  {
    var ls := Levels(ts);
    var below, last := FlatAll(ls[..|ls| - 1]), ls[|ls| - 1];
    assert Stack(ts) == below + Flat(last);
    assert below + Flat(last) == (below + last.start) + (last.brk + last.groups);
  }

  lemma EndStack(ls: seq<Level>, i: nat)
    requires |ls| >= 2
    ensures FlatAll(NextLevels(ls, End, i)) == FlatAll(ls) + [i]
  {
    var last, init := ls[|ls| - 1], ls[..|ls| - 1];
    var outer, rest := init[|init| - 1], init[..|init| - 1];
    var closed := outer.(groups := outer.groups + Flat(last) + [i]);
    assert NextLevels(ls, End, i) == rest + [closed];
    assert FlatAll(ls) == FlatAll(rest) + Flat(outer) + Flat(last);
    ClosedStack(rest, outer, Flat(last), i);
  }

  lemma ClosedStack(rest: seq<Level>, outer: Level, inner: seq<nat>, i: nat)
    ensures FlatAll(rest + [outer.(groups := outer.groups + inner + [i])]) == FlatAll(rest) + Flat(outer) + inner + [i]
  {
    FlatAllOf(rest, outer.(groups := outer.groups + inner + [i]));
    FlatOfClosed(outer, inner, i);
    Regroup(FlatAll(rest), Flat(outer), inner, [i]);
  }

  lemma FlatOfClosed(outer: Level, inner: seq<nat>, i: nat)
    ensures Flat(outer.(groups := outer.groups + inner + [i])) == Flat(outer) + inner + [i]
  {
  }

  lemma Regroup(a: seq<nat>, b: seq<nat>, c: seq<nat>, d: seq<nat>)
    ensures a + (b + c + d) == (a + b) + c + d
  {
  }

  lemma BreakStack(ls: seq<Level>, t: Token, i: nat)
    requires ls != [] && t.Break?
    ensures FlatAll(NextLevels(ls, t, i)) == FlatAll(ls[..|ls| - 1]) + ls[|ls| - 1].start + [i]
  {
    var last, init := ls[|ls| - 1], ls[..|ls| - 1];
    var broken := last.(brk := [i], groups := []);
    FlatAllOf(init, broken);
    assert Flat(broken) == last.start + [i];
    assert FlatAll(init) + (last.start + [i]) == FlatAll(init) + last.start + [i];
  }

  lemma BeginStack(ls: seq<Level>, t: Token, i: nat)
    requires ls != [] && t.Begin?
    ensures FlatAll(NextLevels(ls, t, i)) == FlatAll(ls) + [i]
  {
    FlatAllOf(ls, Level([i], [], []));
    assert Flat(Level([i], [], [])) == [i];
  }

  /** What one more token does to the stack. */
  lemma StackStep(ts: seq<Token>, t: Token)
    requires WellNested(ts) && (t.End? ==> Depth(ts) > 0)
    ensures WellNested(ts + [t])
    ensures Kept(ts) <= |Stack(ts)|
    ensures Stack(ts + [t]) ==
            match t
            case String(_) => Stack(ts)
            case Break(_, _, _) => Stack(ts)[..Kept(ts)] + [|ts|]
            case _ => Stack(ts) + [|ts|]
    ensures Depth(ts + [t]) ==
            match t case Begin(_, _, _) => Depth(ts) + 1 case End => Depth(ts) - 1 case _ => Depth(ts)
  {
    assert (ts + [t])[..|ts + [t]| - 1] == ts;
    assert Levels(ts + [t]) == NextLevels(Levels(ts), t, |ts|);
    StackSplits(ts);
    NextStack(Levels(ts), t, |ts|);
  }

  lemma NextStack(ls: seq<Level>, t: Token, i: nat)
    requires ls != [] && (t.End? ==> |ls| >= 2)
    ensures FlatAll(NextLevels(ls, t, i)) ==
            match t
            case String(_) => FlatAll(ls)
            case Break(_, _, _) => FlatAll(ls[..|ls| - 1]) + ls[|ls| - 1].start + [i]
            case _ => FlatAll(ls) + [i]
  {
    match t
    case String(_) =>
    case Break(_, _, _) => BreakStack(ls, t, i);
    case Begin(_, _, _) => BeginStack(ls, t, i);
    case End => EndStack(ls, i);
  }

  lemma FlatEntry(ts: seq<Token>, l: Level, open: nat, j: nat)
    requires LevelOk(ts, l, open) && j < |Flat(l)|
    ensures var i := Flat(l)[j];
            i < |ts| && IsPending(ts, i) && PendingOpen(ts, i) == if j < |l.start| then open + 1 else open
  {
    if j < |l.start| {
      assert Flat(l)[j] == l.start[j];
    } else if j < |l.start| + |l.brk| {
      assert Flat(l)[j] == l.brk[j - |l.start|];
    } else {
      assert Flat(l)[j] == l.groups[j - |l.start| - |l.brk|];
    }
  }

  lemma {:induction false} LowerLevels(ts: seq<Token>, ls: seq<Level>, n: nat, k: nat)
    requires LevelsOk(ts, ls) && n <= |ls| && k < |FlatAll(ls[..n])|
    ensures var i := FlatAll(ls[..n])[k];
            i < |ts| && IsPending(ts, i) && PendingOpen(ts, i) >= |ls| - n
  {
    if n > 0 {
      assert ls[..n][..n - 1] == ls[..n - 1];
      var below := FlatAll(ls[..n - 1]);
      assert FlatAll(ls[..n]) == below + Flat(ls[n - 1]);
      assert LevelAt(ts, ls, n - 1);
      if k < |below| {
        LowerLevels(ts, ls, n - 1, k);
      } else {
        FlatEntry(ts, ls[n - 1], |ls| - n, k - |below|);
      }
    }
  }

  /** The entries are tokens whose sizes are not determined. A break determines those above the innermost open begin. */
  lemma StackEntry(ts: seq<Token>, k: nat)
    requires WellNested(ts) && k < |Stack(ts)|
    ensures var i := Stack(ts)[k];
            i < |ts| && IsPending(ts, i) && (PendingOpen(ts, i) == 0 <==> k >= Kept(ts))
  {
    LevelsAreOk(ts);
    var ls := Levels(ts);
    var below, last := FlatAll(ls[..|ls| - 1]), ls[|ls| - 1];
    assert Stack(ts) == below + Flat(last);
    assert LevelAt(ts, ls, |ls| - 1);
    if k < |below| {
      LowerLevels(ts, ls, |ls| - 1, k);
    } else {
      FlatEntry(ts, last, 0, k - |below|);
    }
  }

  lemma StackInRange(ts: seq<Token>)
    requires WellNested(ts)
    ensures InRange(ts, Stack(ts))
  {
    forall k: nat | k < |Stack(ts)| ensures Stack(ts)[k] < |ts| {
      StackEntry(ts, k);
    }
  }

  ghost predicate Ascends(stack: seq<nat>) {
    forall j, k :: 0 <= j < k < |stack| ==> stack[j] < stack[k]
  }

  lemma AscendsPush(stack: seq<nat>, kept: nat, i: nat)
    requires Ascends(stack) && kept <= |stack| && forall k :: 0 <= k < |stack| ==> stack[k] < i
    ensures Ascends(stack[..kept] + [i])
  {
  }

  lemma AscendsNext(stack: seq<nat>, kept: nat, i: nat, t: Token, next: seq<nat>)
    requires Ascends(stack) && kept <= |stack| && forall k :: 0 <= k < |stack| ==> stack[k] < i
    requires next == match t
                     case String(_) => stack
                     case Break(_, _, _) => stack[..kept] + [i]
                     case _ => stack + [i]
    ensures Ascends(next)
  {
    AscendsPush(stack, kept, i);
    AscendsPush(stack, |stack|, i);
    assert stack[..|stack|] == stack;
  }

  lemma NextAscends(ts: seq<Token>, t: Token)
    requires WellNested(ts) && (t.End? ==> Depth(ts) > 0) && Ascends(Stack(ts))
    ensures Ascends(Stack(ts + [t]))
  {
    StackInRange(ts);
    StackStep(ts, t);
    AscendsNext(Stack(ts), Kept(ts), |ts|, t, Stack(ts + [t]));
  }

  lemma {:induction false} StackAscends(ts: seq<Token>)
    requires WellNested(ts)
    ensures Ascends(Stack(ts))
  {
    if ts != [] {
      var init, t := ts[..|ts| - 1], ts[|ts| - 1];
      assert ts == init + [t];
      StackAscends(init);
      NextAscends(init, t);
    }
  }

  /** The stack holds every token whose size is not determined. */
  lemma {:induction false} PendingIsOnStack(ts: seq<Token>, i: nat) returns (k: nat)
    requires WellNested(ts) && i < |ts| && IsPending(ts, i)
    ensures k < |Stack(ts)| && Stack(ts)[k] == i
    decreases |ts|
  {
    var init, t := ts[..|ts| - 1], ts[|ts| - 1];
    assert ts == init + [t];
    StackStep(init, t);
    if i < |init| {
      if !IsPending(init, i) {
        DeterminedStays(init, [t], i);
      }
      PendingStep(init, t, i);
      k := PendingIsOnStack(init, i);
      StackEntry(init, k);
    } else {
      k := |Stack(ts)| - 1;
    }
  }

  /** `checkStack` pops down to the begin of the innermost open group. */
  lemma LeftIsKept(ts: seq<Token>)
    requires WellNested(ts)
    ensures InRange(ts, Stack(ts)) && Left(At(ts, Stack(ts)), 0) == Kept(ts)
    ensures Depth(ts) == 0 ==> Kept(ts) == 0
  {
    LevelsAreOk(ts);
    StackInRange(ts);
    var ls := Levels(ts);
    var n := |ls| - 1;
    assert LevelAt(ts, ls, n);
    assert Stack(ts) == FlatAll(ls[..n]) + Flat(ls[n]);
    LeftOfLevels(ts, FlatAll(ls[..n]), ls[n]);
  }

  lemma PartsInRange(ts: seq<Token>, a: seq<nat>, b: seq<nat>)
    requires InRange(ts, a + b)
    ensures InRange(ts, a) && InRange(ts, b)
  {
    assert forall k :: 0 <= k < |a| ==> a[k] == (a + b)[k];
    assert forall k :: 0 <= k < |b| ==> b[k] == (a + b)[|a| + k];
  }

  lemma AtOfParts(ts: seq<Token>, below: seq<nat>, last: Level)
    requires InRange(ts, below + Flat(last))
    ensures InRange(ts, below + last.start) && InRange(ts, last.brk) && InRange(ts, last.groups)
    ensures At(ts, below + Flat(last)) == At(ts, below + last.start) + At(ts, last.brk) + At(ts, last.groups)
  {
    assert below + Flat(last) == below + last.start + last.brk + last.groups;
    PartsInRange(ts, below + last.start + last.brk, last.groups);
    PartsInRange(ts, below + last.start, last.brk);
    AtOfSum(ts, below + last.start, last.brk);
    AtOfSum(ts, below + last.start + last.brk, last.groups);
  }

  lemma LeftOfLevels(ts: seq<Token>, below: seq<nat>, last: Level)
    requires LevelOk(ts, last, 0) && (last.start == [] ==> below == []) && InRange(ts, below + Flat(last))
    ensures Left(At(ts, below + Flat(last)), 0) == |below| + |last.start|
  {
    AtOfParts(ts, below, last);
    PartsInRange(ts, below, last.start);
    LeftOfParts(At(ts, below + last.start), At(ts, last.brk), At(ts, last.groups));
    if last.brk == [] {
      LeftOfOpen(ts, below, last.start);
    } else {
      assert At(ts, last.brk) == [ts[last.brk[0]]];
    }
  }

  lemma LeftOfParts(s0: seq<Token>, brk: seq<Token>, groups: seq<Token>)
    requires IsClosed(groups) && (brk == [] || (|brk| == 1 && brk[0].Break?))
    ensures Left(s0 + brk + groups, 0) == if brk == [] then Left(s0, 0) else |s0|
  {
    assert Left(s0 + brk + groups, 0) == Left(s0 + brk, 0);
    if brk == [] {
      assert s0 + brk == s0;
    } else {
      assert s0 + brk == s0 + [brk[0]];
      LeftStep(s0, brk[0], 0);
    }
  }

  lemma LeftOfOpen(ts: seq<Token>, below: seq<nat>, start: seq<nat>)
    requires InRange(ts, below) && InRange(ts, start) && InRange(ts, below + start)
    requires start == [] ==> below == []
    requires start != [] ==> |start| == 1 && ts[start[0]].Begin?
    ensures Left(At(ts, below + start), 0) == |below + start|
  {
    if start != [] {
      AtOfSum(ts, below, start);
      assert At(ts, start) == [ts[start[0]]];
      LeftStep(At(ts, below), ts[start[0]], 0);
    }
  }
}
