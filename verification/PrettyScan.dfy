/** What the scanning phase knows about sizes, and the stack of the tokens whose sizes are not determined. */
module PrettyScan {
  import opened PrettyTokens

  // ---------------------------------------------------------------------------------------------
  // Determined sizes
  // ---------------------------------------------------------------------------------------------

  /** The break that ends the size is among the tokens. */
  predicate Stops(ts: seq<Token>, open: nat) {
    ts != [] &&
    match ts[0]
    case String(_) => Stops(ts[1..], open)
    case Break(_, _, _) => open == 0 || Stops(ts[1..], open)
    case Begin(_, _, _) => Stops(ts[1..], open + 1)
    case End => Stops(ts[1..], if open == 0 then 0 else open - 1)
  }

  /** The groups that have to be closed after the tokens. */
  function OpenAfter(ts: seq<Token>, open: nat): nat {
    if ts == [] then open else
      OpenAfter(ts[1..], match ts[0]
                         case Begin(_, _, _) => open + 1
                         case End => if open == 0 then 0 else open - 1
                         case _ => open)
  }

  lemma {:induction false} StoppedRest(a: seq<Token>, b: seq<Token>, open: nat)
    requires Stops(a, open)
    ensures Stops(a + b, open) && Rest(a + b, open) == Rest(a, open)
  {
    assert (a + b)[1..] == a[1..] + b;
    match a[0]
    case String(_) => StoppedRest(a[1..], b, open);
    case Break(_, _, _) => if open > 0 { StoppedRest(a[1..], b, open); }
    case Begin(_, _, _) => StoppedRest(a[1..], b, open + 1);
    case End => StoppedRest(a[1..], b, if open == 0 then 0 else open - 1);
  }

  lemma {:induction false} RunningRest(a: seq<Token>, b: seq<Token>, open: nat)
    requires !Stops(a, open)
    ensures Rest(a + b, open) == TotalWidth(a) + Rest(b, OpenAfter(a, open))
    ensures Stops(a + b, open) <==> Stops(b, OpenAfter(a, open))
    ensures OpenAfter(a + b, open) == OpenAfter(b, OpenAfter(a, open))
  {
    if a == [] {
      assert a + b == b;
    } else {
      assert (a + b)[1..] == a[1..] + b;
      match a[0]
      case String(_) => RunningRest(a[1..], b, open);
      case Break(_, _, _) => RunningRest(a[1..], b, open);
      case Begin(_, _, _) => RunningRest(a[1..], b, open + 1);
      case End => RunningRest(a[1..], b, if open == 0 then 0 else open - 1);
    }
  }

  lemma {:induction false} TotalWidthOfSum(a: seq<Token>, b: seq<Token>)
    ensures TotalWidth(a + b) == TotalWidth(a) + TotalWidth(b)
  {
    if a == [] {
      assert a + b == b;
    } else {
      assert (a + b)[1..] == a[1..] + b;
      TotalWidthOfSum(a[1..], b);
    }
  }

  /** The size of token `i` is not determined yet: more tokens may add to it. */
  predicate IsPending(ts: seq<Token>, i: nat)
    requires i < |ts|
  {
    !ts[i].String? && !Stops(ts[i + 1..], Opens(ts[i]))
  }

  /** The groups that have to be closed before a break ends the size of token `i`. */
  function PendingOpen(ts: seq<Token>, i: nat): nat
    requires i < |ts|
  {
    OpenAfter(ts[i + 1..], Opens(ts[i]))
  }

  /** What one more token does to a size that is not determined. */
  lemma PendingStep(ts: seq<Token>, t: Token, i: nat)
    requires i < |ts| && IsPending(ts, i)
    ensures IsPending(ts + [t], i) <==> !(t.Break? && PendingOpen(ts, i) == 0)
    ensures PendingOpen(ts + [t], i) ==
            match t
            case Begin(_, _, _) => PendingOpen(ts, i) + 1
            case End => if PendingOpen(ts, i) == 0 then 0 else PendingOpen(ts, i) - 1
            case _ => PendingOpen(ts, i)
  {
    assert (ts + [t])[i + 1..] == ts[i + 1..] + [t];
    assert [t][1..] == [];
    RunningRest(ts[i + 1..], [t], Opens(ts[i]));
  }

  /** A determined size stays. */
  lemma DeterminedStays(ts: seq<Token>, more: seq<Token>, i: nat)
    requires i < |ts| && !IsPending(ts, i)
    ensures !IsPending(ts + more, i) && Size(ts + more, i) == Size(ts, i)
  {
    if !ts[i].String? {
      assert (ts + more)[i + 1..] == ts[i + 1..] + more;
      StoppedRest(ts[i + 1..], more, Opens(ts[i]));
    }
  }

  /** A size that is not determined is at least the width of the tokens so far, and exactly that if none follow or a
      break comes next that ends it. */
  lemma PendingSize(ts: seq<Token>, more: seq<Token>, i: nat)
    requires i < |ts| && IsPending(ts, i) && !ts[i].End?
    ensures Size(ts + more, i) >= TotalWidth(ts[i..])
    ensures more == [] || (more[0].Break? && PendingOpen(ts, i) == 0) ==> Size(ts + more, i) == TotalWidth(ts[i..])
  {
    var tail := ts[i + 1..];
    assert (ts + more)[i + 1..] == tail + more;
    assert ts[i..] == [ts[i]] + tail;
    TotalWidthOfSum([ts[i]], tail);
    RunningRest(tail, more, Opens(ts[i]));
  }

  // ---------------------------------------------------------------------------------------------
  // Popping the scan stack
  // ---------------------------------------------------------------------------------------------

  /** How many entries `checkStack` leaves on a stack of these tokens, having passed `depth` ends. */
  function Left(stack: seq<Token>, depth: nat): (n: nat)
    ensures n <= |stack|
  {
    if stack == [] then 0 else
      var last, init := stack[|stack| - 1], stack[..|stack| - 1];
      if last.Begin? then (if depth == 0 then |stack| else Left(init, depth - 1))
      else if last.End? then Left(init, depth + 1)
      else if depth == 0 then |init| else Left(init, depth)
  }

  /** Without its oldest entries, the same entries are left of the stack, as far as they are there. */
  lemma {:induction false} LeftOfSuffix(stack: seq<Token>, k: nat, depth: nat)
    requires k <= |stack|
    ensures Left(stack[k..], depth) == if Left(stack, depth) <= k then 0 else Left(stack, depth) - k
  {
    if k < |stack| {
      var last, init := stack[|stack| - 1], stack[..|stack| - 1];
      assert stack[k..][..|stack[k..]| - 1] == init[k..];
      if last.Begin? {
        if depth > 0 { LeftOfSuffix(init, k, depth - 1); }
      } else if last.End? {
        LeftOfSuffix(init, k, depth + 1);
      } else if depth > 0 {
        LeftOfSuffix(init, k, depth);
      }
    }
  }

  /** Closed groups: they are popped altogether, at any depth, from any stack. */
  ghost predicate IsClosed(groups: seq<Token>) {
    forall below: seq<Token>, depth: nat :: Left(below + groups, depth) == Left(below, depth)
  }

  lemma EmptyIsClosed()
    ensures IsClosed([])
  {
    forall below: seq<Token>, depth: nat ensures Left(below + [], depth) == Left(below, depth) {
      assert below + [] == below;
    }
  }

  lemma LeftStep(below: seq<Token>, t: Token, depth: nat)
    ensures Left(below + [t], depth) ==
            if t.Begin? then (if depth == 0 then |below| + 1 else Left(below, depth - 1))
            else if t.End? then Left(below, depth + 1)
            else if depth == 0 then |below| else Left(below, depth)
  {
    assert (below + [t])[..|below + [t]| - 1] == below;
  }

  /** Closing a group makes its contents, with at most one break in front of closed groups, a closed group. */
  lemma ClosingIsClosed(groups: seq<Token>, begin: Token, brk: seq<Token>, inner: seq<Token>)
    requires IsClosed(groups) && IsClosed(inner) && begin.Begin?
    requires brk == [] || (|brk| == 1 && brk[0].Break?)
    ensures IsClosed(groups + ([begin] + brk + inner) + [End])
  {
    forall below: seq<Token>, depth: nat
      ensures Left(below + (groups + ([begin] + brk + inner) + [End]), depth) == Left(below, depth)
    {
      var s0 := below + groups;
      var s1 := s0 + [begin];
      var s2 := s1 + brk;
      var s3 := s2 + inner;
      assert below + (groups + ([begin] + brk + inner) + [End]) == s3 + [End];
      LeftStep(s3, End, depth);
      assert Left(s3, depth + 1) == Left(s2, depth + 1);
      if brk == [] {
        assert s2 == s1;
      } else {
        assert s2 == s1 + [brk[0]];
        LeftStep(s1, brk[0], depth + 1);
      }
      LeftStep(s0, begin, depth + 1);
    }
  }
}
