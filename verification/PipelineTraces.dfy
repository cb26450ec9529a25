/** Pipelines as they are run: pass managers that open and close, and passes between them. */
module PipelineTraces {
  import opened PipelineTheory

  datatype Event = Open(kind: string) | Close | Run(name: string)

  /** The events of a pipeline, in order. A pass manager opens and closes even if there is no pass in it. */
  function Trace(items: seq<Item>): seq<Event> {
    if items == [] then [] else
      var n := |items| - 1;
      Trace(items[..n]) + ItemTrace(items[n])
  }

  function ItemTrace(x: Item): seq<Event> {
    match x
    case Pass(name) => [Run(name)]
    case Manager(kind, items) => [Open(kind)] + Trace(items) + [Close]
  }

  lemma TraceStep(items: seq<Item>, i: nat)
    requires i < |items|
    ensures Trace(items[..i + 1]) == Trace(items[..i]) + ItemTrace(items[i])
  {
    assert items[..i + 1][..i] == items[..i];
  }

  lemma TraceAppend(items: seq<Item>, x: Item)
    ensures Trace(items + [x]) == Trace(items) + ItemTrace(x)
  {
    assert (items + [x])[..|items + [x]| - 1] == items;
  }

  lemma TraceOfOne(x: Item)
    ensures Trace([x]) == ItemTrace(x)
  {
    TraceAppend([], x);
    assert [] + [x] == [x];
  }

  /** What is appended is one item, or none. */
  lemma TraceSum(items: seq<Item>, more: seq<Item>)
    requires |more| <= 1
    ensures Trace(items + more) == Trace(items) + Trace(more)
  {
    if more == [] {
      assert items + more == items;
    } else {
      var x := more[0];
      assert more == [x];
      TraceAppend(items, x);
      TraceOfOne(x);
    }
  }

  // ---------------------------------------------------------------------------------------------
  // Events determine the pipeline
  // ---------------------------------------------------------------------------------------------

  /** Nothing, or up to the opening of a pass manager. */
  predicate UpToOpen(t: seq<Event>) {
    t == [] || t[|t| - 1].Open?
  }

  lemma LastEvent(items: seq<Item>)
    requires items != []
    ensures Trace(items) != [] && !Trace(items)[|Trace(items)| - 1].Open?
  {
    assert ItemTrace(items[|items| - 1]) != [];
  }

  lemma LastOfTwo(x: seq<Event>, e: Event, y: seq<Event>, f: Event)
    requires x + [e] == y + [f]
    ensures x == y && e == f
  {
    assert (x + [e])[|x|] == e && (y + [f])[|y|] == f;
    assert (x + [e])[..|x|] == x && (y + [f])[..|y|] == y;
  }

  lemma EmptyTrace(x: seq<Event>, a: seq<Item>, y: seq<Event>, b: seq<Item>)
    requires UpToOpen(x) && UpToOpen(y) && x + Trace(a) == y + Trace(b)
    requires a == [] || (Trace(a) != [] && !Trace(a)[|Trace(a)| - 1].Open?)
    requires b == [] || (Trace(b) != [] && !Trace(b)[|Trace(b)| - 1].Open?)
    requires a == [] || b == []
    ensures x == y && a == b == []
  {
    assert a == [] ==> x + Trace(a) == x;
    assert b == [] ==> y + Trace(b) == y;
  }

  lemma {:induction false} SameTrace(x: seq<Event>, a: seq<Item>, y: seq<Event>, b: seq<Item>)
    requires UpToOpen(x) && UpToOpen(y) && x + Trace(a) == y + Trace(b)
    ensures x == y && a == b
    decreases DepthAll(a), |a|, 2
  {
    if a == [] || b == [] {
      if b != [] {
        LastEvent(b);
      } else if a != [] {
        LastEvent(a);
      }
      EmptyTrace(x, a, y, b);
    } else {
      SameLast(x, a, y, b);
    }
  }

  lemma SplitLast(x: seq<Event>, a: seq<Item>)
    requires a != []
    ensures x + Trace(a) == match a[|a| - 1]
                            case Pass(name) => x + Trace(a[..|a| - 1]) + [Run(name)]
                            case Manager(kind, items) => x + Trace(a[..|a| - 1]) + [Open(kind)] + Trace(items) + [Close]
  {
    var init, last := Trace(a[..|a| - 1]), ItemTrace(a[|a| - 1]);
    assert Trace(a) == init + last;
    match a[|a| - 1]
    case Pass(_) =>
      assert x + (init + last) == x + init + last;
    case Manager(kind, items) =>
      Regroup(x, init, [Open(kind)], Trace(items), [Close]);
  }

  lemma Regroup(a: seq<Event>, b: seq<Event>, c: seq<Event>, d: seq<Event>, e: seq<Event>)
    ensures a + (b + (c + d + e)) == a + b + c + d + e
  {
  }

  lemma {:induction false} SameLast(x: seq<Event>, a: seq<Item>, y: seq<Event>, b: seq<Item>)
    requires a != [] && b != [] && UpToOpen(x) && UpToOpen(y) && x + Trace(a) == y + Trace(b)
    ensures x == y && a == b
    decreases DepthAll(a), |a|, 1
  {
    var v, w := x + Trace(a[..|a| - 1]), y + Trace(b[..|b| - 1]);
    DepthOfInit(a);
    SplitLast(x, a);
    SplitLast(y, b);
    match (a[|a| - 1], b[|b| - 1])
    case (Manager(k, inner), Manager(l, other)) =>
      LastOfTwo(v + [Open(k)] + Trace(inner), Close, w + [Open(l)] + Trace(other), Close);
      SameTrace(v + [Open(k)], inner, w + [Open(l)], other);
      LastOfTwo(v, Open(k), w, Open(l));
      SameInit(x, a, y, b);
    case (Pass(name), Pass(other)) =>
      LastOfTwo(v, Run(name), w, Run(other));
      SameInit(x, a, y, b);
    case (Manager(k, inner), Pass(name)) =>
      LastOfTwo(v + [Open(k)] + Trace(inner), Close, w, Run(name));
    case (Pass(name), Manager(k, inner)) =>
      LastOfTwo(v, Run(name), w + [Open(k)] + Trace(inner), Close);
  }

  lemma {:induction false} SameInit(x: seq<Event>, a: seq<Item>, y: seq<Event>, b: seq<Item>)
    requires a != [] && b != [] && UpToOpen(x) && UpToOpen(y) && a[|a| - 1] == b[|b| - 1]
    requires x + Trace(a[..|a| - 1]) == y + Trace(b[..|b| - 1])
    ensures x == y && a == b
    decreases DepthAll(a), |a|, 0
  {
    DepthOfInit(a);
    SameTrace(x, a[..|a| - 1], y, b[..|b| - 1]);
    assert a == a[..|a| - 1] + [a[|a| - 1]] && b == b[..|b| - 1] + [b[|b| - 1]];
  }

  /** Different pipelines have different events. */
  lemma TraceUnique(a: seq<Item>, b: seq<Item>)
    requires Trace(a) == Trace(b)
    ensures a == b
  {
    assert [] + Trace(a) == Trace(a) && [] + Trace(b) == Trace(b);
    SameTrace([], a, [], b);
  }

  // ---------------------------------------------------------------------------------------------
  // Fewer passes in the same pass managers
  // ---------------------------------------------------------------------------------------------

  function Runs(t: seq<Event>): nat {
    if t == [] then 0 else (if t[0].Run? then 1 else 0) + Runs(t[1..])
  }

  lemma {:induction false} RunsSum(s: seq<Event>, t: seq<Event>)
    ensures Runs(s + t) == Runs(s) + Runs(t)
  {
    if s == [] {
      assert s + t == t;
    } else {
      assert (s + t)[1..] == s[1..] + t;
      RunsSum(s[1..], t);
    }
  }

  lemma {:induction false} RunsOfTrace(items: seq<Item>)
    ensures Runs(Trace(items)) == |Passes(items)|
    decreases DepthAll(items), |items|
  {
    if items != [] {
      var n := |items| - 1;
      DepthOfInit(items);
      RunsOfTrace(items[..n]);
      RunsOfItem(items[n]);
      RunsSum(Trace(items[..n]), ItemTrace(items[n]));
    }
  }

  lemma {:induction false} RunsOfItem(x: Item)
    ensures Runs(ItemTrace(x)) == |ItemPasses(x)|
    decreases Depth(x), 0
  {
    match x
    case Pass(_) =>
    case Manager(kind, items) =>
      RunsOfTrace(items);
      RunsSum([Open(kind)], Trace(items));
      RunsSum([Open(kind)] + Trace(items), [Close]);
  }

  /** Which passes are selected, by their indices. */
  datatype Selection = Until(last: int) | After(last: int) | AllBut(index: int)

  predicate Selects(sel: Selection, i: int) {
    match sel
    case Until(last) => i <= last
    case After(last) => i > last
    case AllBut(index) => i != index
  }

  /** The event itself, unless it is a pass that is not selected. */
  function IfSelected(e: Event, sel: Selection, idx: nat): seq<Event> {
    if e.Run? && !Selects(sel, idx) then [] else [e]
  }

  /** Without the passes that are not selected, where the first pass has index `idx`. */
  function Only(t: seq<Event>, sel: Selection, idx: nat): seq<Event> {
    if t == [] then [] else IfSelected(t[0], sel, idx) + Only(t[1..], sel, if t[0].Run? then idx + 1 else idx)
  }

  lemma Associate(a: seq<Event>, b: seq<Event>, c: seq<Event>)
    ensures a + (b + c) == a + b + c
  {
  }

  lemma SumStep(s: seq<Event>, u: seq<Event>, sel: Selection, idx: nat, next: nat, more: seq<Event>)
    requires s != [] && u != [] && u[0] == s[0] && next == if s[0].Run? then idx + 1 else idx
    requires Only(u[1..], sel, next) == Only(s[1..], sel, next) + more
    ensures Only(u, sel, idx) == Only(s, sel, idx) + more
  {
    Associate(IfSelected(s[0], sel, idx), Only(s[1..], sel, next), more);
  }

  lemma {:induction false} OnlySum(s: seq<Event>, t: seq<Event>, sel: Selection, idx: nat)
    ensures Only(s + t, sel, idx) == Only(s, sel, idx) + Only(t, sel, idx + Runs(s))
  {
    if s == [] {
      assert s + t == t;
    } else {
      var next := if s[0].Run? then idx + 1 else idx;
      assert (s + t)[1..] == s[1..] + t;
      OnlySum(s[1..], t, sel, next);
      SumStep(s, s + t, sel, idx, next, Only(t, sel, idx + Runs(s)));
    }
  }

  /** The events of the pass managers. */
  function Managers(t: seq<Event>): seq<Event> {
    if t == [] then [] else (if t[0].Run? then [] else [t[0]]) + Managers(t[1..])
  }

  /** Selecting passes keeps all pass managers, in order and nested alike. */
  lemma {:induction false} OnlyKeepsManagers(t: seq<Event>, sel: Selection, idx: nat)
    ensures Managers(Only(t, sel, idx)) == Managers(t)
  {
    if t != [] {
      var next := if t[0].Run? then idx + 1 else idx;
      var rest := Only(t[1..], sel, next);
      OnlyKeepsManagers(t[1..], sel, next);
      if t[0].Run? && !Selects(sel, idx) {
        assert Only(t, sel, idx) == [] + rest == rest;
      } else {
        assert Only(t, sel, idx) == [t[0]] + rest;
        assert ([t[0]] + rest)[1..] == rest;
      }
    }
  }

  /** `dst` has the pass managers of `src`, with the selected passes at the places that they had. */
  ghost predicate Keeps(src: seq<Item>, sel: Selection, idx: nat, dst: seq<Item>) {
    Trace(dst) == Only(Trace(src), sel, idx)
  }

  ghost predicate ItemKeeps(x: Item, sel: Selection, idx: nat, dst: seq<Item>) {
    Trace(dst) == Only(ItemTrace(x), sel, idx)
  }

  lemma KeepsStep(src: seq<Item>, i: nat, sel: Selection, idx: nat, dst: seq<Item>, more: seq<Item>)
    requires i < |src| && |more| <= 1
    requires Keeps(src[..i], sel, idx, dst) && ItemKeeps(src[i], sel, idx + |Passes(src[..i])|, more)
    ensures Keeps(src[..i + 1], sel, idx, dst + more)
  {
    TraceStep(src, i);
    TraceSum(dst, more);
    RunsOfTrace(src[..i]);
    OnlySum(Trace(src[..i]), ItemTrace(src[i]), sel, idx);
  }

  lemma ManagerKeeps(kind: string, items: seq<Item>, sel: Selection, idx: nat, dst: seq<Item>)
    requires Keeps(items, sel, idx, dst)
    ensures ItemKeeps(Manager(kind, items), sel, idx, [Manager(kind, dst)])
  {
    TraceOfOne(Manager(kind, dst));
    OnlySum([Open(kind)], Trace(items), sel, idx);
    OnlySum([Open(kind)] + Trace(items), [Close], sel, idx);
    assert [Open(kind)][1..] == [] && [Close][1..] == [];
  }

  lemma PassKeeps(name: string, sel: Selection, idx: nat)
    ensures ItemKeeps(Pass(name), sel, idx, if Selects(sel, idx) then [Pass(name)] else [])
  {
    TraceOfOne(Pass(name));
    assert [Run(name)][1..] == [];
  }

  // ---------------------------------------------------------------------------------------------
  // Without empty pass managers
  // ---------------------------------------------------------------------------------------------

  /** Reads events from left to right: a pass manager that closes when nothing has happened in it is taken back. */
  function Reduce(done: seq<Event>, t: seq<Event>): seq<Event>
    decreases |t|
  {
    if t == [] then done
    else if t[0] == Close && done != [] && done[|done| - 1].Open? then Reduce(done[..|done| - 1], t[1..])
    else Reduce(done + [t[0]], t[1..])
  }

  lemma {:induction false} ReduceSum(done: seq<Event>, s: seq<Event>, t: seq<Event>)
    ensures Reduce(done, s + t) == Reduce(Reduce(done, s), t)
    decreases |s|
  {
    if s == [] {
      assert s + t == t;
    } else {
      assert (s + t)[1..] == s[1..] + t;
      if s[0] == Close && done != [] && done[|done| - 1].Open? {
        ReduceSum(done[..|done| - 1], s[1..], t);
      } else {
        ReduceSum(done + [s[0]], s[1..], t);
      }
    }
  }

  /** Taking out an empty pass manager makes no difference to the result: however empty pass managers are removed one
      after the other, nothing else can be left in the end. */
  lemma EmptyMakesNoDifference(s: seq<Event>, kind: string, t: seq<Event>)
    ensures Reduce([], s + [Open(kind), Close] + t) == Reduce([], s + t)
  {
    var done := Reduce([], s);
    ReduceSum([], s, t);
    ReduceSum([], s, [Open(kind), Close]);
    ReduceSum([], s + [Open(kind), Close], t);
    assert [Open(kind), Close][1..] == [Close] && [Close][1..] == [];
    assert (done + [Open(kind)])[..|done|] == done;
    assert Reduce(done, [Open(kind), Close]) == Reduce(done + [Open(kind)], [Close]) == Reduce(done, []);
  }

  /** A pass with the kinds of the pass managers that it runs in, the outermost first, and the number of them that the
      pass before it has run in. */
  datatype SharedPass = SharedPass(managers: seq<string>, shared: nat, name: string)

  function Min(a: nat, b: nat): nat {
    if a < b then a else b
  }

  /** All passes, when the pass managers `open` are open, and the pass before has run in the first `shared` of them. */
  function Sharing(open: seq<string>, shared: nat, t: seq<Event>): seq<SharedPass>
    decreases |t|
  {
    if t == [] then [] else
      match t[0]
      case Open(kind) => Sharing(open + [kind], shared, t[1..])
      case Close =>
        var rest := if open == [] then [] else open[..|open| - 1];
        Sharing(rest, Min(shared, |rest|), t[1..])
      case Run(name) => [SharedPass(open, shared, name)] + Sharing(open, |open|, t[1..])
  }

  /** The state of `Sharing` after some events. */
  function OpenAfter(open: seq<string>, t: seq<Event>): seq<string>
    decreases |t|
  {
    if t == [] then open else
      match t[0]
      case Open(kind) => OpenAfter(open + [kind], t[1..])
      case Close => OpenAfter(if open == [] then [] else open[..|open| - 1], t[1..])
      case Run(_) => OpenAfter(open, t[1..])
  }

  function SharedAfter(open: seq<string>, shared: nat, t: seq<Event>): (r: nat)
    requires shared <= |open|
    ensures r <= |OpenAfter(open, t)|
    decreases |t|
  {
    if t == [] then shared else
      match t[0]
      case Open(kind) => SharedAfter(open + [kind], shared, t[1..])
      case Close =>
        var rest := if open == [] then [] else open[..|open| - 1];
        SharedAfter(rest, Min(shared, |rest|), t[1..])
      case Run(_) => SharedAfter(open, |open|, t[1..])
  }

  lemma {:induction false} SharingSum(open: seq<string>, shared: nat, s: seq<Event>, t: seq<Event>)
    requires shared <= |open|
    ensures Sharing(open, shared, s + t) ==
            Sharing(open, shared, s) + Sharing(OpenAfter(open, s), SharedAfter(open, shared, s), t)
    decreases |s|
  {
    if s == [] {
      assert s + t == t;
    } else {
      assert (s + t)[1..] == s[1..] + t;
      match s[0] {
        case Open(kind) => SharingSum(open + [kind], shared, s[1..], t);
        case Close =>
          var rest := if open == [] then [] else open[..|open| - 1];
          SharingSum(rest, Min(shared, |rest|), s[1..], t);
        case Run(_) => SharingSum(open, |open|, s[1..], t);
      }
    }
  }

  lemma OpenAndClose(open: seq<string>, shared: nat, kind: string, t: seq<Event>)
    requires shared <= |open|
    ensures Sharing(open, shared, [Open(kind), Close] + t) == Sharing(open, shared, t)
  {
    var u := [Open(kind), Close] + t;
    assert u[1..] == [Close] + t && u[1..][1..] == t;
    assert (open + [kind])[..|open|] == open;
    assert Sharing(open, shared, u) == Sharing(open + [kind], shared, u[1..]) == Sharing(open, shared, t);
  }

  lemma {:induction false} ReduceKeepsSharing(done: seq<Event>, t: seq<Event>)
    ensures Sharing([], 0, Reduce(done, t)) == Sharing([], 0, done + t)
    decreases |t|
  {
    if t == [] {
      assert done + t == done;
    } else if t[0] == Close && done != [] && done[|done| - 1].Open? {
      var init, kind := done[..|done| - 1], done[|done| - 1].kind;
      ReduceKeepsSharing(init, t[1..]);
      assert done + t == init + ([Open(kind), Close] + t[1..]);
      SharingSum([], 0, init, [Open(kind), Close] + t[1..]);
      SharingSum([], 0, init, t[1..]);
      OpenAndClose(OpenAfter([], init), SharedAfter([], 0, init), kind, t[1..]);
    } else {
      ReduceKeepsSharing(done + [t[0]], t[1..]);
      assert done + [t[0]] + t[1..] == done + t;
    }
  }

  /** Reducing takes nothing else away: the passes run in the same pass managers as before, and share them with each
      other exactly if they did before. */
  lemma ReducedSharing(t: seq<Event>)
    ensures Sharing([], 0, Reduce([], t)) == Sharing([], 0, t)
  {
    ReduceKeepsSharing([], t);
    assert [] + t == t;
  }

  /** After any other events, `t` is reduced to `rest`. */
  ghost predicate ReducesTo(t: seq<Event>, rest: seq<Event>) {
    forall done: seq<Event> :: Reduce(done, t) == done + rest
  }

  ghost predicate IsReduced(src: seq<Item>, dst: seq<Item>) {
    ReducesTo(Trace(src), Trace(dst))
  }

  ghost predicate ItemIsReduced(x: Item, dst: seq<Item>) {
    ReducesTo(ItemTrace(x), Trace(dst))
  }

  lemma ReducesSum(s: seq<Event>, a: seq<Event>, t: seq<Event>, b: seq<Event>)
    requires ReducesTo(s, a) && ReducesTo(t, b)
    ensures ReducesTo(s + t, a + b)
  {
    var u := s + t;
    forall done: seq<Event> ensures Reduce(done, u) == done + (a + b) {
      ReduceSum(done, s, t);
      assert done + (a + b) == done + a + b;
    }
  }

  lemma ReducedStep(src: seq<Item>, i: nat, dst: seq<Item>, more: seq<Item>)
    requires i < |src| && |more| <= 1 && IsReduced(src[..i], dst) && ItemIsReduced(src[i], more)
    ensures IsReduced(src[..i + 1], dst + more)
  {
    TraceStep(src, i);
    TraceSum(dst, more);
    ReducesSum(Trace(src[..i]), Trace(dst), ItemTrace(src[i]), Trace(more));
  }

  lemma OneStep(done: seq<Event>, e: Event)
    ensures Reduce(done, [e]) ==
            if e == Close && done != [] && done[|done| - 1].Open? then done[..|done| - 1] else done + [e]
  {
    assert [e][1..] == [];
  }

  lemma ReduceNested(done: seq<Event>, kind: string, t: seq<Event>, rest: seq<Event>)
    requires ReducesTo(t, rest) && (rest == [] || !rest[|rest| - 1].Open?)
    ensures Reduce(done, [Open(kind)] + t + [Close]) ==
            done + if rest == [] then [] else [Open(kind)] + rest + [Close]
  {
    var begun := done + [Open(kind)];
    ReduceSum(done, [Open(kind)], t);
    ReduceSum(done, [Open(kind)] + t, [Close]);
    OneStep(done, Open(kind));
    OneStep(begun + rest, Close);
    if rest == [] {
      assert begun + rest == begun && begun[..|done|] == done == done + [];
    } else {
      assert (begun + rest)[|begun + rest| - 1] == rest[|rest| - 1];
      assert begun + rest + [Close] == done + ([Open(kind)] + rest + [Close]);
    }
  }

  lemma ManagerIsReduced(kind: string, items: seq<Item>, dst: seq<Item>)
    requires IsReduced(items, dst)
    ensures ItemIsReduced(Manager(kind, items), if dst == [] then [] else [Manager(kind, dst)])
  {
    var t, rest := Trace(items), Trace(dst);
    var u := [Open(kind)] + t + [Close];
    if dst != [] {
      LastEvent(dst);
    }
    TraceOfOne(Manager(kind, dst));
    forall done: seq<Event> ensures Reduce(done, u) == done + if rest == [] then [] else [Open(kind)] + rest + [Close] {
      ReduceNested(done, kind, t, rest);
    }
  }

  lemma PassIsReduced(name: string)
    ensures ItemIsReduced(Pass(name), [Pass(name)])
  {
    TraceOfOne(Pass(name));
    var t := [Run(name)];
    forall done: seq<Event> ensures Reduce(done, t) == done + t {
      OneStep(done, Run(name));
    }
  }

  lemma {:induction false} NothingIsLeft(items: seq<Item>)
    requires Passes(items) == []
    ensures IsReduced(items, [])
    decreases DepthAll(items), |items|
  {
    if items == [] {
      forall done: seq<Event> ensures Reduce(done, Trace(items)) == done + Trace([]) {
      }
    } else {
      var n := |items| - 1;
      DepthOfInit(items);
      PassesStep(items, n);
      assert items[..n + 1] == items;
      NothingIsLeft(items[..n]);
      match items[n] {
        case Manager(kind, inner) =>
          NothingIsLeft(inner);
          ManagerIsReduced(kind, inner, []);
        case Pass(_) =>
      }
      ReducedStep(items, n, [], []);
    }
  }
}
