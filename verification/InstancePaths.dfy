/** Paths of instances from the top-level module, and how replacing an instance changes them. */
module InstancePaths {
  import opened UseLists
  import opened InstanceGraphs

  // ---------------------------------------------------------------------------------------------
  // All paths
  // ---------------------------------------------------------------------------------------------

  datatype Ordering = Ordering(g: Graph, order: seq<InstanceGraphNode>)

  /** A graph without cycles, with a post-order of its modules. */
  type Acyclic = a: Ordering | OrdersAll(a.g, a.order)
    ghost witness Ordering(Graph([], {}, map[], map[], map[]), [])

  function AppendEach(paths: seq<seq<nat>>, inst: nat): (r: seq<seq<nat>>)
    ensures |r| == |paths|
  {
    seq(|paths|, i requires 0 <= i < |paths| => paths[i] + [inst])
  }

  /** The paths through a use: those of the module it is in, with the instance appended. In a module that has not been
      defined there is only the empty path. */
  ghost function Extended(g: Graph, r: InstanceRecord, paths: seq<seq<nat>>): seq<seq<nat>>
    requires r in g.instance
  {
    if r.parent in g.defined then AppendEach(paths, g.instance[r]) else [[]]
  }

  /** How many modules may be above `n`. */
  ghost function Height(order: seq<InstanceGraphNode>, n: InstanceGraphNode): nat {
    |order| - IndexOf(order, n)
  }

  /** What the uses of a module are. */
  ghost predicate IsUse(a: Acyclic, n: InstanceGraphNode, r: InstanceRecord) {
    r in a.g.instance && r.target == n && r.parent in a.g.nodes && Height(a.order, r.parent) < Height(a.order, n)
  }

  lemma UseIsHigher(a: Acyclic, n: InstanceGraphNode, k: nat)
    requires n in a.g.nodes && k < |a.g.uses[n]|
    ensures IsUse(a, n, a.g.uses[n][k])
  {
    var r := a.g.uses[n][k];
    assert r in a.g.uses[n];
    RecordGoesDown(a.g, a.order, r);
  }

  /** The paths through each use of a module. */
  ghost function PathsThrough(a: Acyclic, top: InstanceGraphNode?, n: InstanceGraphNode): (r: seq<seq<seq<nat>>>)
    requires n in a.g.nodes
    ensures |r| == |a.g.uses[n]|
    decreases Height(a.order, n), 0
  {
    seq(|a.g.uses[n]|, k requires 0 <= k < |a.g.uses[n]| =>
      UseIsHigher(a, n, k);
      Extended(a.g, a.g.uses[n][k], Paths(a, top, a.g.uses[n][k].parent)))
  }

  /** All paths from the top-level module. */
  ghost function Paths(a: Acyclic, top: InstanceGraphNode?, n: InstanceGraphNode): seq<seq<nat>>
    requires n in a.g.nodes
    decreases Height(a.order, n), 1
  {
    if n == top then [[]] else Concat(PathsThrough(a, top, n))
  }

  lemma PathsThroughUse(a: Acyclic, top: InstanceGraphNode?, n: InstanceGraphNode, k: nat, r: InstanceRecord)
    requires n in a.g.nodes && k < |a.g.uses[n]| && r == a.g.uses[n][k]
    ensures IsUse(a, n, r) && PathsThrough(a, top, n)[k] == Extended(a.g, r, Paths(a, top, r.parent))
  {
    UseIsHigher(a, n, k);
  }

  // ---------------------------------------------------------------------------------------------
  // Concatenation
  // ---------------------------------------------------------------------------------------------

  function Concat<T>(lists: seq<seq<T>>): seq<T> {
    if lists == [] then [] else Concat(lists[..|lists| - 1]) + lists[|lists| - 1]
  }

  lemma ConcatStep<T>(lists: seq<seq<T>>, k: nat)
    requires k < |lists|
    ensures Concat(lists[..k + 1]) == Concat(lists[..k]) + lists[k]
  {
    assert lists[..k + 1][..k] == lists[..k];
  }

  lemma {:induction false} ConcatHas<T>(lists: seq<seq<T>>, k: nat, x: T)
    requires k < |lists| && x in lists[k]
    ensures x in Concat(lists)
  {
    if k < |lists| - 1 {
      ConcatHas(lists[..|lists| - 1], k, x);
    }
  }

  lemma {:induction false} ConcatFrom<T>(lists: seq<seq<T>>, x: T) returns (k: nat)
    requires x in Concat(lists)
    ensures k < |lists| && x in lists[k]
  {
    k := |lists| - 1;
    if x !in lists[k] {
      k := ConcatFrom(lists[..k], x);
    }
  }

  lemma {:induction false} ConcatHasNot<T>(lists: seq<seq<T>>, x: T)
    requires forall k: nat :: k < |lists| ==> x !in lists[k]
    ensures x !in Concat(lists)
  {
    if lists != [] {
      ConcatHasNot(lists[..|lists| - 1], x);
    }
  }

  /** Lists that have no element twice, and none in common. */
  ghost predicate AllDistinct<T>(lists: seq<seq<T>>) {
    && (forall k :: 0 <= k < |lists| ==> Distinct(lists[k]))
    && forall j, k :: 0 <= j < k < |lists| ==> Disjoint(lists[j], lists[k])
  }

  ghost predicate Disjoint<T>(s: seq<T>, t: seq<T>) {
    forall x <- t :: x !in s
  }

  lemma SumDistinct<T>(s: seq<T>, t: seq<T>)
    requires Distinct(s) && Distinct(t) && Disjoint(s, t)
    ensures Distinct(s + t)
  {
    forall i, j | 0 <= i < j < |s + t| ensures (s + t)[i] != (s + t)[j] {
      if i < |s| <= j {
        assert t[j - |s|] in t;
      }
    }
  }

  lemma {:induction false} ConcatDistinct<T>(lists: seq<seq<T>>)
    requires AllDistinct(lists)
    ensures Distinct(Concat(lists))
  {
    if lists != [] {
      var n := |lists| - 1;
      ConcatDistinct(lists[..n]);
      forall x <- lists[n] ensures x !in Concat(lists[..n]) {
        assert forall k: nat :: k < n ==> Disjoint(lists[k], lists[n]);
        ConcatHasNot(lists[..n], x);
      }
      SumDistinct(Concat(lists[..n]), lists[n]);
    }
  }

  // ---------------------------------------------------------------------------------------------
  // What the paths are
  // ---------------------------------------------------------------------------------------------

  /** Each record is in the module that the record before it instantiates, and this module is not at the top. */
  ghost predicate IsChain(g: Graph, top: InstanceGraphNode?, chain: seq<InstanceRecord>) {
    && (forall r <- chain :: r in g.instance && r.target != top)
    && forall i :: 0 < i < |chain| ==> chain[i - 1].target == chain[i].parent && chain[i].parent in g.defined
  }

  /** A chain to `n` from the top-level module, or from a module that has not been defined. */
  ghost predicate LeadsTo(g: Graph, top: InstanceGraphNode?, chain: seq<InstanceRecord>, n: InstanceGraphNode) {
    && IsChain(g, top, chain)
    && if chain == [] then n == top else
         chain[|chain| - 1].target == n && (chain[0].parent == top || chain[0].parent !in g.defined)
  }

  function Instances(g: Graph, chain: seq<InstanceRecord>): (r: seq<nat>)
    requires forall r <- chain :: r in g.instance
    ensures |r| == |chain|
  {
    seq(|chain|, i requires 0 <= i < |chain| => assert chain[i] in chain; g.instance[chain[i]])
  }

  /** The instances of a chain; the first counts only if the module it is in has been defined. */
  ghost function PathOf(g: Graph, chain: seq<InstanceRecord>): seq<nat>
    requires forall r <- chain :: r in g.instance
  {
    Instances(g, if chain != [] && chain[0].parent !in g.defined then chain[1..] else chain)
  }

  lemma LongerChain(g: Graph, top: InstanceGraphNode?, chain: seq<InstanceRecord>, r: InstanceRecord)
    requires r in g.instance && r.target != top && r.parent in g.defined && LeadsTo(g, top, chain, r.parent)
    ensures LeadsTo(g, top, chain + [r], r.target) && PathOf(g, chain + [r]) == PathOf(g, chain) + [g.instance[r]]
  {
    assert chain != [] ==> (chain + [r])[1..] == chain[1..] + [r];
  }

  lemma ShorterChain(g: Graph, top: InstanceGraphNode?, chain: seq<InstanceRecord>, n: InstanceGraphNode,
                     init: seq<InstanceRecord>, r: InstanceRecord)
    requires LeadsTo(g, top, chain, n) && chain == init + [r]
    ensures r in g.instance && r.target == n != top
    ensures r.parent in g.defined ==>
              LeadsTo(g, top, init, r.parent) && PathOf(g, chain) == PathOf(g, init) + [g.instance[r]]
    ensures r.parent !in g.defined ==> PathOf(g, chain) == []
  {
    assert r in chain && (forall q <- init :: q in chain) && forall i :: 0 <= i < |init| ==> init[i] == chain[i];
    if r.parent in g.defined {
      forall i | 0 < i < |init| ensures init[i - 1].target == init[i].parent && init[i].parent in g.defined {
        assert chain[i - 1].target == chain[i].parent && chain[i].parent in g.defined;
      }
      LongerChain(g, top, init, r);
    }
  }

  /** The instances of every chain are one of the paths. */
  lemma {:induction false} ChainIsListed(a: Acyclic, top: InstanceGraphNode?, n: InstanceGraphNode,
                                         chain: seq<InstanceRecord>)
    requires n in a.g.nodes && LeadsTo(a.g, top, chain, n)
    ensures PathOf(a.g, chain) in Paths(a, top, n)
    decreases |chain|, 1
  {
    if chain == [] {
      assert PathOf(a.g, chain) == [];
    } else {
      SplitLast(chain);
      LongerIsListed(a, top, n, chain, chain[..|chain| - 1], chain[|chain| - 1]);
    }
  }

  lemma {:induction false} LongerIsListed(a: Acyclic, top: InstanceGraphNode?, n: InstanceGraphNode,
                                          chain: seq<InstanceRecord>, init: seq<InstanceRecord>, r: InstanceRecord)
    requires n in a.g.nodes && LeadsTo(a.g, top, chain, n) && chain == init + [r]
    ensures PathOf(a.g, chain) in Paths(a, top, n)
    decreases |chain|, 0
  {
    ShorterChain(a.g, top, chain, n, init, r);
    if r.parent in a.g.defined {
      ChainIsListed(a, top, r.parent, init);
      AppendedIsIn(Paths(a, top, r.parent), PathOf(a.g, init), a.g.instance[r]);
    }
    ExtendedIsListed(a, top, r, PathOf(a.g, chain));
  }

  lemma ExtendedIsListed(a: Acyclic, top: InstanceGraphNode?, r: InstanceRecord, path: seq<nat>)
    requires r in a.g.instance && r.target != top && path in Extended(a.g, r, Paths(a, top, r.parent))
    ensures path in Paths(a, top, r.target)
  {
    var k :| 0 <= k < |a.g.uses[r.target]| && a.g.uses[r.target][k] == r;
    PathsThroughUse(a, top, r.target, k, r);
    ConcatHas(PathsThrough(a, top, r.target), k, path);
  }

  lemma AppendedIsIn(paths: seq<seq<nat>>, path: seq<nat>, inst: nat)
    requires path in paths
    ensures path + [inst] in AppendEach(paths, inst)
  {
    var i :| 0 <= i < |paths| && paths[i] == path;
    assert AppendEach(paths, inst)[i] == path + [inst];
  }

  lemma AppendedFrom(paths: seq<seq<nat>>, path: seq<nat>, inst: nat) returns (init: seq<nat>)
    requires path in AppendEach(paths, inst)
    ensures init in paths && path == init + [inst]
  {
    var i :| 0 <= i < |paths| && AppendEach(paths, inst)[i] == path;
    init := paths[i];
  }

  /** Every path is that of a chain. */
  lemma {:induction false} PathHasChain(a: Acyclic, top: InstanceGraphNode?, n: InstanceGraphNode, path: seq<nat>)
    returns (chain: seq<InstanceRecord>)
    requires n in a.g.nodes && path in Paths(a, top, n)
    ensures LeadsTo(a.g, top, chain, n) && PathOf(a.g, chain) == path
    decreases Height(a.order, n)
  {
    if n == top {
      chain := [];
    } else {
      var k := ConcatFrom(PathsThrough(a, top, n), path);
      var r := a.g.uses[n][k];
      PathsThroughUse(a, top, n, k, r);
      if r.parent in a.g.defined {
        var prefix := AppendedFrom(Paths(a, top, r.parent), path, a.g.instance[r]);
        var init := PathHasChain(a, top, r.parent, prefix);
        LongerChain(a.g, top, init, r);
        chain := init + [r];
      } else {
        chain := [r];
      }
    }
  }

  /** The paths are exactly the instances of the chains. */
  lemma PathsAreChains(a: Acyclic, top: InstanceGraphNode?, n: InstanceGraphNode, path: seq<nat>)
    requires n in a.g.nodes
    ensures path in Paths(a, top, n) <==>
            exists chain: seq<InstanceRecord> :: LeadsTo(a.g, top, chain, n) && PathOf(a.g, chain) == path
  {
    if path in Paths(a, top, n) {
      var chain := PathHasChain(a, top, n, path);
    }
    if chain: seq<InstanceRecord> :| LeadsTo(a.g, top, chain, n) && PathOf(a.g, chain) == path {
      ChainIsListed(a, top, n, chain);
    }
  }

  // ---------------------------------------------------------------------------------------------
  // All modules defined
  // ---------------------------------------------------------------------------------------------

  ghost predicate AllDefined(g: Graph) {
    forall r <- g.instance :: r.parent in g.defined
  }

  /** Records of which each is in the module that the one before it instantiates, from `top` to `n`. */
  ghost predicate IsChainFrom(g: Graph, top: InstanceGraphNode, chain: seq<InstanceRecord>, n: InstanceGraphNode) {
    && (forall r <- chain :: r in g.instance)
    && (forall i :: 0 < i < |chain| ==> chain[i - 1].target == chain[i].parent)
    && if chain == [] then n == top else chain[0].parent == top && chain[|chain| - 1].target == n
  }

  lemma {:induction false} ChainGoesDown(a: Acyclic, top: InstanceGraphNode, chain: seq<InstanceRecord>, i: nat)
    requires i < |chain| && chain[0].parent == top && forall r <- chain :: r in a.g.instance
    requires forall j :: 0 < j < |chain| ==> chain[j - 1].target == chain[j].parent
    ensures IndexOf(a.order, chain[i].target) < IndexOf(a.order, top)
  {
    assert chain[i] in chain;
    RecordGoesDown(a.g, a.order, chain[i]);
    if i > 0 {
      ChainGoesDown(a, top, chain, i - 1);
    }
  }

  /** When all modules that have instances are defined, the paths are those of the chains from the top-level module. */
  lemma PathsFromTop(a: Acyclic, top: InstanceGraphNode, n: InstanceGraphNode, path: seq<nat>)
    requires n in a.g.nodes && AllDefined(a.g)
    ensures path in Paths(a, top, n) <==>
            exists chain: seq<InstanceRecord> :: IsChainFrom(a.g, top, chain, n) && Instances(a.g, chain) == path
  {
    if path in Paths(a, top, n) {
      var chain := PathHasChain(a, top, n, path);
      assert chain != [] ==> chain[0] in chain;
      assert IsChainFrom(a.g, top, chain, n);
    }
    if chain: seq<InstanceRecord> :| IsChainFrom(a.g, top, chain, n) && Instances(a.g, chain) == path {
      ChainFromTopLeads(a, top, n, chain);
      ChainIsListed(a, top, n, chain);
    }
  }

  lemma ChainFromTopLeads(a: Acyclic, top: InstanceGraphNode, n: InstanceGraphNode, chain: seq<InstanceRecord>)
    requires AllDefined(a.g) && IsChainFrom(a.g, top, chain, n)
    ensures LeadsTo(a.g, top, chain, n) && PathOf(a.g, chain) == Instances(a.g, chain)
  {
    forall r <- chain ensures r.target != top {
      var i :| 0 <= i < |chain| && chain[i] == r;
      ChainGoesDown(a, top, chain, i);
    }
    forall i | 0 < i < |chain| ensures chain[i].parent in a.g.defined {
      assert chain[i] in chain;
    }
    assert chain != [] ==> chain[0] in chain;
  }

  // ---------------------------------------------------------------------------------------------
  // No path twice
  // ---------------------------------------------------------------------------------------------

  /** No two records are of the same instance operation. */
  ghost predicate HasUniqueInstances(g: Graph) {
    forall q <- g.instance, r <- g.instance :: g.instance[q] == g.instance[r] ==> q == r
  }

  lemma AppendedDistinct(paths: seq<seq<nat>>, inst: nat)
    requires Distinct(paths)
    ensures Distinct(AppendEach(paths, inst))
  {
    var longer := AppendEach(paths, inst);
    forall i, j | 0 <= i < j < |longer| ensures longer[i] != longer[j] {
      assert longer[i][..|paths[i]|] == paths[i] && longer[j][..|paths[j]|] == paths[j];
    }
  }

  lemma AppendedEnds(paths: seq<seq<nat>>, path: seq<nat>, inst: nat)
    requires path in AppendEach(paths, inst)
    ensures path != [] && path[|path| - 1] == inst
  {
    var init := AppendedFrom(paths, path, inst);
  }

  lemma UsesDiffer(g: Graph, n: InstanceGraphNode, j: nat, k: nat)
    requires IsGraph(g) && n in g.nodes && j < k < |g.uses[n]|
    ensures g.uses[n][j] != g.uses[n][k]
  {
  }

  /** Paths through uses by different instance operations are different. */
  lemma UsesDisjoint(g: Graph, q: InstanceRecord, r: InstanceRecord, paths: seq<seq<nat>>, others: seq<seq<nat>>)
    requires q in g.instance && r in g.instance && q != r && HasUniqueInstances(g)
    ensures Disjoint(AppendEach(paths, g.instance[q]), AppendEach(others, g.instance[r]))
  {
    forall path <- AppendEach(others, g.instance[r]) ensures path !in AppendEach(paths, g.instance[q]) {
      AppendedEnds(others, path, g.instance[r]);
      if path in AppendEach(paths, g.instance[q]) {
        AppendedEnds(paths, path, g.instance[q]);
      }
    }
  }

  /** No path is listed twice. */
  lemma {:induction false} PathsDistinct(a: Acyclic, top: InstanceGraphNode?, n: InstanceGraphNode)
    requires n in a.g.nodes && HasUniqueInstances(a.g) && AllDefined(a.g)
    ensures Distinct(Paths(a, top, n))
    decreases Height(a.order, n)
  {
    if n != top {
      var lists, uses := PathsThrough(a, top, n), a.g.uses[n];
      forall k: nat | k < |lists| ensures Distinct(lists[k]) {
        PathsThroughUse(a, top, n, k, uses[k]);
        PathsDistinct(a, top, uses[k].parent);
        AppendedDistinct(Paths(a, top, uses[k].parent), a.g.instance[uses[k]]);
      }
      forall j: nat, k: nat | j < k < |lists| ensures Disjoint(lists[j], lists[k]) {
        PathsThroughUse(a, top, n, j, uses[j]);
        PathsThroughUse(a, top, n, k, uses[k]);
        UsesDiffer(a.g, n, j, k);
        UsesDisjoint(a.g, uses[j], uses[k], Paths(a, top, uses[j].parent), Paths(a, top, uses[k].parent));
      }
      ConcatDistinct(lists);
    }
  }

  // ---------------------------------------------------------------------------------------------
  // Replacing an instance
  // ---------------------------------------------------------------------------------------------

  function Renamed(path: seq<nat>, inst: nat, newInst: nat): (r: seq<nat>)
    ensures |r| == |path|
  {
    seq(|path|, i requires 0 <= i < |path| => if path[i] == inst then newInst else path[i])
  }

  function RenamedAll(paths: seq<seq<nat>>, inst: nat, newInst: nat): (r: seq<seq<nat>>)
    ensures |r| == |paths|
  {
    seq(|paths|, i requires 0 <= i < |paths| => Renamed(paths[i], inst, newInst))
  }

  ghost function Replaced(a: Ordering, r: InstanceRecord, newInst: nat): Ordering {
    a.(g := ReplacedInstance(a.g, r, newInst))
  }

  lemma StillAcyclic(a: Acyclic, r: InstanceRecord, newInst: nat)
    requires r in a.g.instance
    ensures OrdersAll(Replaced(a, r, newInst).g, a.order)
  {
    ReplacedInstanceIsGraph(a.g, r, newInst);
  }

  lemma RenamedAppend(paths: seq<seq<nat>>, last: nat, inst: nat, newInst: nat)
    ensures RenamedAll(AppendEach(paths, last), inst, newInst) ==
            AppendEach(RenamedAll(paths, inst, newInst), if last == inst then newInst else last)
  {
    forall i: nat | i < |paths|
      ensures RenamedAll(AppendEach(paths, last), inst, newInst)[i] ==
              AppendEach(RenamedAll(paths, inst, newInst), if last == inst then newInst else last)[i]
    {
      assert AppendEach(paths, last)[i] == paths[i] + [last];
    }
  }

  lemma {:induction false} RenamedConcat(lists: seq<seq<seq<nat>>>, lists': seq<seq<seq<nat>>>, inst: nat, newInst: nat)
    requires |lists'| == |lists| && forall k: nat :: k < |lists| ==> lists'[k] == RenamedAll(lists[k], inst, newInst)
    ensures Concat(lists') == RenamedAll(Concat(lists), inst, newInst)
  {
    if lists != [] {
      var n := |lists| - 1;
      RenamedConcat(lists[..n], lists'[..n], inst, newInst);
      RenamedSum(Concat(lists[..n]), lists[n], inst, newInst);
    }
  }

  lemma RenamedSum(a: seq<seq<nat>>, b: seq<seq<nat>>, inst: nat, newInst: nat)
    ensures RenamedAll(a + b, inst, newInst) == RenamedAll(a, inst, newInst) + RenamedAll(b, inst, newInst)
  {
  }

  lemma RenamedExtended(g: Graph, r: InstanceRecord, newInst: nat, q: InstanceRecord, paths: seq<seq<nat>>)
    requires HasUniqueInstances(g) && r in g.instance && q in g.instance
    ensures Extended(ReplacedInstance(g, r, newInst), q, RenamedAll(paths, g.instance[r], newInst)) ==
            RenamedAll(Extended(g, q, paths), g.instance[r], newInst)
  {
    RenamedAppend(paths, g.instance[q], g.instance[r], newInst);
    assert RenamedAll([[]], g.instance[r], newInst) == [[]];
  }

  /** All paths after the replacement are those before it, with the instance replaced. */
  lemma {:induction false} ReplacedPaths(a: Acyclic, a': Acyclic, top: InstanceGraphNode?, r: InstanceRecord,
                                         newInst: nat, n: InstanceGraphNode)
    requires n in a.g.nodes && HasUniqueInstances(a.g) && r in a.g.instance && a' == Replaced(a, r, newInst)
    ensures Paths(a', top, n) == RenamedAll(Paths(a, top, n), a.g.instance[r], newInst)
    decreases Height(a.order, n)
  {
    if n == top {
      assert RenamedAll([[]], a.g.instance[r], newInst) == [[]];
    } else {
      var lists, lists' := PathsThrough(a, top, n), PathsThrough(a', top, n);
      forall k: nat | k < |lists| ensures lists'[k] == RenamedAll(lists[k], a.g.instance[r], newInst) {
        var q := a.g.uses[n][k];
        PathsThroughUse(a, top, n, k, q);
        PathsThroughUse(a', top, n, k, q);
        ReplacedPaths(a, a', top, r, newInst, q.parent);
        RenamedExtended(a.g, r, newInst, q, Paths(a, top, q.parent));
      }
      RenamedConcat(lists, lists', a.g.instance[r], newInst);
    }
  }

  // ---------------------------------------------------------------------------------------------
  // An instance is at most once in a path
  // ---------------------------------------------------------------------------------------------

  ghost predicate AtMostOnce(path: seq<nat>, inst: nat) {
    forall i, j :: 0 <= i < j < |path| ==> path[i] != inst || path[j] != inst
  }

  /** A path to a module of the given rank has the instance at most once, and only if what it instantiates has that rank
      at least. */
  ghost predicate OnceAbove(path: seq<nat>, inst: nat, targetRank: nat, rank: nat) {
    AtMostOnce(path, inst) && (inst in path ==> targetRank >= rank)
  }

  ghost predicate AllOnceAbove(paths: seq<seq<nat>>, inst: nat, targetRank: nat, rank: nat) {
    forall i: nat :: i < |paths| ==> OnceAbove(paths[i], inst, targetRank, rank)
  }

  lemma AppendOnce(path: seq<nat>, last: nat, inst: nat)
    requires AtMostOnce(path, inst) && (last == inst ==> inst !in path)
    ensures AtMostOnce(path + [last], inst)
  {
    forall i, j | 0 <= i < j < |path + [last]| ensures (path + [last])[i] != inst || (path + [last])[j] != inst {
      assert (path + [last])[i] == path[i];
      assert path[i] in path;
    }
  }

  lemma AppendedOnce(paths: seq<seq<nat>>, last: nat, inst: nat, targetRank: nat, rank: nat, lastRank: nat)
    requires AllOnceAbove(paths, inst, targetRank, rank) && lastRank < rank && (last == inst ==> targetRank == lastRank)
    ensures AllOnceAbove(AppendEach(paths, last), inst, targetRank, lastRank)
  {
    forall i: nat | i < |paths| ensures OnceAbove(AppendEach(paths, last)[i], inst, targetRank, lastRank) {
      assert OnceAbove(paths[i], inst, targetRank, rank);
      AppendOnce(paths[i], last, inst);
    }
  }

  lemma ExtendedOnce(g: Graph, r: InstanceRecord, q: InstanceRecord, paths: seq<seq<nat>>, targetRank: nat, rank: nat,
                     lastRank: nat)
    requires HasUniqueInstances(g) && r in g.instance && q in g.instance && (q == r ==> targetRank == lastRank)
    requires AllOnceAbove(paths, g.instance[r], targetRank, rank) && lastRank < rank
    ensures AllOnceAbove(Extended(g, q, paths), g.instance[r], targetRank, lastRank)
  {
    if q.parent in g.defined {
      AppendedOnce(paths, g.instance[q], g.instance[r], targetRank, rank, lastRank);
    }
  }

  lemma {:induction false} ConcatOnce(lists: seq<seq<seq<nat>>>, inst: nat, targetRank: nat, rank: nat)
    requires forall k: nat :: k < |lists| ==> AllOnceAbove(lists[k], inst, targetRank, rank)
    ensures AllOnceAbove(Concat(lists), inst, targetRank, rank)
  {
    if lists != [] {
      ConcatOnce(lists[..|lists| - 1], inst, targetRank, rank);
    }
  }

  /** Paths have an instance at most once. */
  lemma {:induction false} PathsOnce(a: Acyclic, top: InstanceGraphNode?, r: InstanceRecord, n: InstanceGraphNode)
    requires n in a.g.nodes && HasUniqueInstances(a.g) && r in a.g.instance
    ensures AllOnceAbove(Paths(a, top, n), a.g.instance[r], IndexOf(a.order, r.target), IndexOf(a.order, n))
    decreases Height(a.order, n)
  {
    if n != top {
      var lists, target, rank := PathsThrough(a, top, n), IndexOf(a.order, r.target), IndexOf(a.order, n);
      forall k: nat | k < |lists| ensures AllOnceAbove(lists[k], a.g.instance[r], target, rank) {
        var q := a.g.uses[n][k];
        PathsThroughUse(a, top, n, k, q);
        PathsOnce(a, top, r, q.parent);
        ExtendedOnce(a.g, r, q, Paths(a, top, q.parent), target, IndexOf(a.order, q.parent), rank);
      }
      ConcatOnce(lists, a.g.instance[r], target, rank);
    }
  }
}
