/** The operations on pass pipelines. */
module Pipelines {
  import opened Options
  import opened PipelineTheory
  import opened PipelineTraces

  /** The parser's loop. None stands for the error that is raised when a parenthesis is closed that is not open. */
  method FromStr(pipeStr: string) returns (r: Option<seq<Item>>)
    ensures r == Parse(pipeStr)
  {
    var stack: seq<(string, seq<Item>)> := [];
    var curr: seq<Item> := [];
    var tok, kind := "", "";
    for i := 0 to |pipeStr|
      invariant ReadAll(Parser([], [], "", ""), pipeStr) == ReadAll(Parser(stack, curr, kind, tok), pipeStr[i..])
    {
      var c := pipeStr[i];
      assert pipeStr[i..][0] == c && pipeStr[i..][1..] == pipeStr[i + 1..];
      if c == ',' {
        if tok != "" {
          curr := curr + [Pass(tok)];
        }
        tok := "";
      } else if c == '(' {
        stack := stack + [(kind, curr)];
        kind := tok;
        curr := [];
        tok := "";
      } else if c == ')' {
        if tok != "" {
          curr := curr + [Pass(tok)];
        }
        tok := "";
        var oldKind, oldCurr := kind, curr;
        if stack == [] {
          return None;
        }
        kind, curr := stack[|stack| - 1].0, stack[|stack| - 1].1;
        stack := stack[..|stack| - 1];
        curr := curr + [Manager(oldKind, oldCurr)];
      } else {
        tok := tok + [c];
      }
    }
    if tok != "" {
      curr := curr + [Pass(tok)];
    }
    r := Some(curr);
  }

  lemma ToStrStep(items: seq<Item>, i: nat)
    requires i < |items|
    ensures ToStr(items[..i + 1]) == (if i == 0 then "" else ToStr(items[..i]) + ",") + ItemStr(items[i])
  {
    assert items[..i + 1][..i] == items[..i];
  }

  method PrintStr(pipeObj: seq<Item>) returns (res: string)
    ensures res == ToStr(pipeObj)
    decreases DepthAll(pipeObj)
  {
    res := "";
    for i := 0 to |pipeObj|
      invariant res == if 0 < i < |pipeObj| then ToStr(pipeObj[..i]) + "," else ToStr(pipeObj[..i])
    {
      ToStrStep(pipeObj, i);
      assert pipeObj[i] in pipeObj;
      match pipeObj[i] {
        case Manager(kind, items) =>
          var inner := PrintStr(items);
          res := res + (kind + "(" + inner + ")");
        case Pass(name) =>
          res := res + name;
      }
      assert res == ToStr(pipeObj[..i + 1]);
      if i + 1 != |pipeObj| {
        res := res + ",";
      }
    }
    assert pipeObj[..|pipeObj|] == pipeObj;
  }

  /** The number of passes, without pass managers. */
  method Count(pipeObj: seq<Item>) returns (cnt: nat)
    ensures cnt == |Passes(pipeObj)|
    decreases DepthAll(pipeObj)
  {
    cnt := 0;
    for i := 0 to |pipeObj|
      invariant cnt == |Passes(pipeObj[..i])|
    {
      PassesStep(pipeObj, i);
      assert pipeObj[i] in pipeObj;
      match pipeObj[i]
      case Manager(_, items) =>
        var inner := Count(items);
        cnt := cnt + inner;
      case Pass(_) =>
        cnt := cnt + 1;
    }
    assert pipeObj[..|pipeObj|] == pipeObj;
  }

  /** How many of `count` passes, the first having index `idx`, come up to `splitIndex`. */
  function UpTo(splitIndex: int, idx: nat, count: nat): (k: nat)
    ensures k <= count
  {
    if splitIndex < idx then 0 else if splitIndex - idx + 1 < count then splitIndex - idx + 1 else count
  }

  lemma SplitStep(done: seq<PlacedPass>, more: seq<PlacedPass>, splitIndex: int, idx: nat)
    ensures (done + more)[..UpTo(splitIndex, idx, |done + more|)] ==
            done[..UpTo(splitIndex, idx, |done|)] + more[..UpTo(splitIndex, idx + |done|, |more|)]
    ensures (done + more)[UpTo(splitIndex, idx, |done + more|)..] ==
            done[UpTo(splitIndex, idx, |done|)..] + more[UpTo(splitIndex, idx + |done|, |more|)..]
  {
  }

  lemma UnderSplit(kind: string, passes: seq<PlacedPass>, k: nat)
    requires k <= |passes|
    ensures Under(kind, passes)[..k] == Under(kind, passes[..k])
    ensures Under(kind, passes)[k..] == Under(kind, passes[k..])
  {
  }

  /** The first passes of `src` up to an index are in `dstA`, the others in `dstB`, all in the same pass managers. */
  ghost predicate IsSplit(src: seq<Item>, k: nat, dstA: seq<Item>, dstB: seq<Item>) {
    k <= |Passes(src)| && Passes(dstA) == Passes(src)[..k] && Passes(dstB) == Passes(src)[k..]
  }

  /** The passes up to the index are in the one, those after it in the other, and both have all pass managers. */
  ghost predicate IsSplitAt(src: seq<Item>, splitIndex: int, idx: nat, dstA: seq<Item>, dstB: seq<Item>) {
    && IsSplit(src, UpTo(splitIndex, idx, |Passes(src)|), dstA, dstB)
    && Keeps(src, Until(splitIndex), idx, dstA) && Keeps(src, After(splitIndex), idx, dstB)
  }

  ghost predicate ItemIsSplitAt(x: Item, splitIndex: int, idx: nat, a: seq<Item>, b: seq<Item>) {
    && Passes(a) == ItemPasses(x)[..UpTo(splitIndex, idx, |ItemPasses(x)|)]
    && Passes(b) == ItemPasses(x)[UpTo(splitIndex, idx, |ItemPasses(x)|)..]
    && |a| <= 1 && ItemKeeps(x, Until(splitIndex), idx, a)
    && |b| <= 1 && ItemKeeps(x, After(splitIndex), idx, b)
  }

  lemma SplitNext(src: seq<Item>, i: nat, splitIndex: int, idx: nat, next: nat, dstA: seq<Item>, dstB: seq<Item>,
                  a: seq<Item>, b: seq<Item>)
    requires i < |src| && IsSplitAt(src[..i], splitIndex, idx, dstA, dstB)
    requires next == idx + |Passes(src[..i])| && ItemIsSplitAt(src[i], splitIndex, next, a, b)
    ensures |Passes(src[..i + 1])| == |Passes(src[..i])| + |ItemPasses(src[i])|
    ensures IsSplitAt(src[..i + 1], splitIndex, idx, dstA + a, dstB + b)
  {
    PassesStep(src, i);
    SplitStep(Passes(src[..i]), ItemPasses(src[i]), splitIndex, idx);
    PassesSum(dstA, a);
    PassesSum(dstB, b);
    KeepsStep(src, i, Until(splitIndex), idx, dstA, a);
    KeepsStep(src, i, After(splitIndex), idx, dstB, b);
  }

  lemma ManagerIsSplitAt(kind: string, items: seq<Item>, splitIndex: int, idx: nat, dstA: seq<Item>, dstB: seq<Item>)
    requires IsSplitAt(items, splitIndex, idx, dstA, dstB)
    ensures ItemIsSplitAt(Manager(kind, items), splitIndex, idx, [Manager(kind, dstA)], [Manager(kind, dstB)])
  {
    PassesOfOne(Manager(kind, dstA));
    PassesOfOne(Manager(kind, dstB));
    UnderSplit(kind, Passes(items), UpTo(splitIndex, idx, |Passes(items)|));
    ManagerKeeps(kind, items, Until(splitIndex), idx, dstA);
    ManagerKeeps(kind, items, After(splitIndex), idx, dstB);
  }

  lemma PassIsSplitAt(name: string, splitIndex: int, idx: nat)
    ensures ItemIsSplitAt(Pass(name), splitIndex, idx, if idx <= splitIndex then [Pass(name)] else [],
                          if idx <= splitIndex then [] else [Pass(name)])
  {
    PassesOfOne(Pass(name));
    PassKeeps(name, Until(splitIndex), idx);
    PassKeeps(name, After(splitIndex), idx);
  }

  lemma NothingSplit(nothing: seq<Item>, splitIndex: int, idx: nat)
    requires nothing == []
    ensures IsSplitAt(nothing, splitIndex, idx, [], []) && |Passes(nothing)| == 0
  {
  }

  /** The passes up to an index go to the first pipeline, the others to the second; each gets all pass managers. */
  method SplitInt(src: seq<Item>, splitIndex: int, idx: nat)
    returns (dstA: seq<Item>, dstB: seq<Item>, next: nat)
    ensures next == idx + |Passes(src)|
    ensures IsSplitAt(src, splitIndex, idx, dstA, dstB)
    decreases DepthAll(src), 1
  {
    dstA, dstB, next := [], [], idx;
    NothingSplit(src[..0], splitIndex, idx);
    for i := 0 to |src|
      invariant next == idx + |Passes(src[..i])|
      invariant IsSplitAt(src[..i], splitIndex, idx, dstA, dstB)
    {
      assert src[i] in src;
      ghost var before := next;
      var a, b;
      a, b, next := SplitItem(src[i], splitIndex, next);
      SplitNext(src, i, splitIndex, idx, before, dstA, dstB, a, b);
      dstA, dstB := dstA + a, dstB + b;
    }
    assert src[..|src|] == src;
  }

  method SplitItem(s: Item, splitIndex: int, idx: nat) returns (a: seq<Item>, b: seq<Item>, next: nat)
    ensures next == idx + |ItemPasses(s)|
    ensures ItemIsSplitAt(s, splitIndex, idx, a, b)
    decreases Depth(s), 0
  {
    match s
    case Manager(kind, items) =>
      var dstA2, dstB2;
      dstA2, dstB2, next := SplitInt(items, splitIndex, idx);
      a, b := [Manager(kind, dstA2)], [Manager(kind, dstB2)];
      ManagerIsSplitAt(kind, items, splitIndex, idx, dstA2, dstB2);
    case Pass(name) =>
      PassIsSplitAt(name, splitIndex, idx);
      if idx <= splitIndex {
        a, b := [s], [];
      } else {
        a, b := [], [s];
      }
      next := idx + 1;
  }

  /** Splits a pipeline after the pass with the given index: each half has all pass managers, in order and nested
      alike, empty or not, and the passes of that half at their places in them. */
  method Split(pipeObj: seq<Item>, splitIndex: int) returns (listA: seq<Item>, listB: seq<Item>)
    ensures Passes(listA) + Passes(listB) == Passes(pipeObj)
    ensures |Passes(listA)| == if splitIndex < 0 then 0
                               else if splitIndex + 1 < |Passes(pipeObj)| then splitIndex + 1 else |Passes(pipeObj)|
    ensures Trace(listA) == Only(Trace(pipeObj), Until(splitIndex), 0)
    ensures Trace(listB) == Only(Trace(pipeObj), After(splitIndex), 0)
    ensures Managers(Trace(listA)) == Managers(Trace(listB)) == Managers(Trace(pipeObj))
  {
    var next;
    listA, listB, next := SplitInt(pipeObj, splitIndex, 0);
    OnlyKeepsManagers(Trace(pipeObj), Until(splitIndex), 0);
    OnlyKeepsManagers(Trace(pipeObj), After(splitIndex), 0);
  }

  /** All but the element at an index, if it is there. */
  function Except(s: seq<PlacedPass>, k: int): seq<PlacedPass> {
    if 0 <= k < |s| then s[..k] + s[k + 1..] else s
  }

  /** Without the pass at an index, the others are in the same pass managers. */
  ghost predicate IsWithout(src: seq<PlacedPass>, k: int, dst: seq<PlacedPass>) {
    dst == Except(src, k)
  }

  lemma WithoutStep(done: seq<PlacedPass>, more: seq<PlacedPass>, k: int, a: seq<PlacedPass>, b: seq<PlacedPass>)
    requires IsWithout(done, k, a) && IsWithout(more, k - |done|, b)
    ensures IsWithout(done + more, k, a + b)
  {
    if 0 <= k < |done| {
      assert (done + more)[..k] == done[..k] && (done + more)[k + 1..] == done[k + 1..] + more;
    } else if |done| <= k < |done + more| {
      assert (done + more)[..k] == done + more[..k - |done|];
      assert (done + more)[k + 1..] == more[k - |done| + 1..];
    }
  }

  lemma UnderWithout(kind: string, passes: seq<PlacedPass>, k: int, rest: seq<PlacedPass>)
    requires IsWithout(passes, k, rest)
    ensures IsWithout(Under(kind, passes), k, Under(kind, rest))
  {
  }

  method RemoveInt(src: seq<Item>, removeIndex: int, idx: nat) returns (dst: seq<Item>, next: nat)
    ensures next == idx + |Passes(src)|
    ensures IsWithout(Passes(src), removeIndex - idx, Passes(dst))
    ensures Keeps(src, AllBut(removeIndex), idx, dst)
    decreases DepthAll(src), 1
  {
    dst, next := [], idx;
    for i := 0 to |src|
      invariant next == idx + |Passes(src[..i])|
      invariant IsWithout(Passes(src[..i]), removeIndex - idx, Passes(dst))
      invariant Keeps(src[..i], AllBut(removeIndex), idx, dst)
    {
      PassesStep(src, i);
      assert src[i] in src;
      var kept;
      kept, next := RemoveFromItem(src[i], removeIndex, next);
      WithoutStep(Passes(src[..i]), ItemPasses(src[i]), removeIndex - idx, Passes(dst), Passes(kept));
      PassesSum(dst, kept);
      KeepsStep(src, i, AllBut(removeIndex), idx, dst, kept);
      dst := dst + kept;
    }
    assert src[..|src|] == src;
  }

  method RemoveFromItem(s: Item, removeIndex: int, idx: nat) returns (kept: seq<Item>, next: nat)
    ensures next == idx + |ItemPasses(s)|
    ensures IsWithout(ItemPasses(s), removeIndex - idx, Passes(kept))
    ensures |kept| <= 1 && ItemKeeps(s, AllBut(removeIndex), idx, kept)
    decreases Depth(s), 0
  {
    match s
    case Manager(kind, items) =>
      var dst2;
      dst2, next := RemoveInt(items, removeIndex, idx);
      kept := [Manager(kind, dst2)];
      PassesOfOne(kept[0]);
      UnderWithout(kind, Passes(items), removeIndex - idx, Passes(dst2));
      ManagerKeeps(kind, items, AllBut(removeIndex), idx, dst2);
    case Pass(name) =>
      PassesOfOne(s);
      PassKeeps(name, AllBut(removeIndex), idx);
      kept := if idx != removeIndex then [s] else [];
      next := idx + 1;
  }

  /** Removes the pass with the given index; all pass managers stay, and the other passes at their places in them. */
  method Remove(pipeObj: seq<Item>, removeIndex: int) returns (dst: seq<Item>)
    ensures Passes(dst) == Except(Passes(pipeObj), removeIndex)
    ensures Trace(dst) == Only(Trace(pipeObj), AllBut(removeIndex), 0)
    ensures Managers(Trace(dst)) == Managers(Trace(pipeObj))
  {
    var next;
    dst, next := RemoveInt(pipeObj, removeIndex, 0);
    OnlyKeepsManagers(Trace(pipeObj), AllBut(removeIndex), 0);
  }

  /** No pass manager is without passes. */
  predicate NoEmpty(items: seq<Item>) {
    forall x <- items :: NoEmptyIn(x)
  }

  predicate NoEmptyIn(x: Item) {
    match x
    case Pass(_) => true
    case Manager(_, items) => Passes(items) != [] && NoEmpty(items)
  }

  /** Removes pass managers without passes, and nothing else: the passes stay, each in its pass managers, and two of
      them share a pass manager exactly if they did before. A pipeline without empty pass managers stays as it is. */
  method Prune(src: seq<Item>) returns (dst: seq<Item>)
    ensures Passes(dst) == Passes(src) && NoEmpty(dst)
    ensures NoEmpty(src) ==> dst == src
    ensures IsReduced(src, dst)
    ensures Trace(dst) == Reduce([], Trace(src))
    ensures Sharing([], 0, Trace(dst)) == Sharing([], 0, Trace(src))
    decreases DepthAll(src), 1
  {
    dst := [];
    for i := 0 to |src|
      invariant Passes(dst) == Passes(src[..i]) && NoEmpty(dst)
      invariant NoEmpty(src) ==> dst == src[..i]
      invariant IsReduced(src[..i], dst)
    {
      PassesStep(src, i);
      assert src[i] in src;
      var pruned := PruneItem(src[i]);
      PassesSum(dst, pruned);
      ReducedStep(src, i, dst, pruned);
      dst := dst + pruned;
    }
    assert src[..|src|] == src;
    assert Reduce([], Trace(src)) == [] + Trace(dst) == Trace(dst);
    ReducedSharing(Trace(src));
  }

  method PruneItem(s: Item) returns (pruned: seq<Item>)
    ensures Passes(pruned) == ItemPasses(s) && NoEmpty(pruned)
    ensures NoEmptyIn(s) ==> pruned == [s]
    ensures |pruned| <= 1 && ItemIsReduced(s, pruned)
    decreases Depth(s), 0
  {
    match s
    case Manager(kind, items) =>
      pruned := [];
      var count := Count(items);
      if count != 0 {
        var dst2 := Prune(items);
        pruned := [Manager(kind, dst2)];
        PassesOfOne(pruned[0]);
        ManagerIsReduced(kind, items, dst2);
      } else {
        NothingIsLeft(items);
        ManagerIsReduced(kind, items, []);
      }
    case Pass(name) =>
      pruned := [s];
      PassesOfOne(s);
      PassIsReduced(name);
  }
}
