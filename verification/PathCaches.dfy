/** A cache of the paths to each module, which is updated when an instance is replaced. */
module PathCaches {
  import opened Options
  import opened UseLists
  import opened InstanceGraphs
  import HeapGraphs
  import opened InstanceGraphClass
  import opened InstancePaths

  /** The first occurrence replaced. */
  function ReplacedFirst(path: seq<nat>, inst: nat, newInst: nat): (r: seq<nat>)
    ensures |r| == |path|
  {
    var i := IndexOf(path, inst);
    if i < |path| then path[i := newInst] else path
  }

  lemma {:induction false} FirstIsFirst(path: seq<nat>, inst: nat)
    ensures forall j: nat :: j < IndexOf(path, inst) ==> path[j] != inst
  {
    if path != [] && path[0] != inst {
      FirstIsFirst(path[1..], inst);
      forall j: nat | j < IndexOf(path, inst) ensures path[j] != inst {
        assert j > 0 ==> path[j] == path[1..][j - 1];
      }
    }
  }

  /** Replacing the first occurrence is enough, as there is only one. */
  lemma FirstIsAll(path: seq<nat>, inst: nat, newInst: nat)
    requires AtMostOnce(path, inst)
    ensures ReplacedFirst(path, inst, newInst) == Renamed(path, inst, newInst)
  {
    var i := IndexOf(path, inst);
    FirstIsFirst(path, inst);
    if i < |path| {
          }
  }

  lemma RenamedNothing(paths: seq<seq<nat>>, inst: nat, newInst: nat)
    requires forall path <- paths :: inst !in path
    ensures RenamedAll(paths, inst, newInst) == paths
  {
    forall i: nat | i < |paths| ensures Renamed(paths[i], inst, newInst) == paths[i] {
      assert paths[i] in paths;
    }
  }

  /** Each path list is the list of all paths in the graph as it is now. */
  ghost predicate CacheOk(a: Acyclic, top: InstanceGraphNode?, nodeMap: map<string, InstanceGraphNode>,
                          cache: map<string, seq<seq<nat>>>) {
    forall name <- cache :: name in nodeMap && nodeMap[name] in a.g.nodes && cache[name] == Paths(a, top, nodeMap[name])
  }

  class InstancePathCache {
    const instanceGraph: InstanceGraph
    const top: InstanceGraphNode?
    var absolutePathsCache: map<string, seq<seq<nat>>>

    ghost predicate Valid(a: Acyclic)
      reads this`absolutePathsCache, instanceGraph`nodes, instanceGraph`nodeMap, a.g.nodes, a.g.instance.Keys
    {
      && instanceGraph.nodes == a.g.nodes && NamesOk(a.g.nodes, instanceGraph.nodeMap) && HeapGraphs.HeapOk(a.g)
      && CacheOk(a, top, instanceGraph.nodeMap, absolutePathsCache)
    }

    constructor (instanceGraph: InstanceGraph, top: InstanceGraphNode?, ghost a: Acyclic)
      requires instanceGraph.Valid(a.g)
      ensures Valid(a) && this.instanceGraph == instanceGraph && this.top == top
    {
      this.instanceGraph, this.top := instanceGraph, top;
      absolutePathsCache := map[];
    }

    twostate predicate NodesStay()
      reads instanceGraph`nodes, instanceGraph`nodeMap
    {
      instanceGraph.nodes == old(instanceGraph.nodes) && instanceGraph.nodeMap == old(instanceGraph.nodeMap)
    }

    method Store(ghost g: Graph, name: string, paths: seq<seq<nat>>)
      requires HeapGraphs.HeapOk(g)
      modifies this`absolutePathsCache
      ensures HeapGraphs.HeapOk(g) && NodesStay()
      ensures absolutePathsCache == old(absolutePathsCache)[name := paths]
    {
      absolutePathsCache := absolutePathsCache[name := paths];
    }

    /** All paths to a module, from the cache if they are there. */
    method GetAbsolutePaths(ghost a: Acyclic, name: string) returns (paths: seq<seq<nat>>)
      requires Valid(a) && name in instanceGraph.nodeMap
      modifies this`absolutePathsCache
      ensures Valid(a) && instanceGraph.nodeMap == old(instanceGraph.nodeMap)
      ensures paths == Paths(a, top, instanceGraph.nodeMap[name])
      decreases Height(a.order, instanceGraph.nodeMap[name]), 2
    {
      var node := instanceGraph.nodeMap[name];
      if node == top {
        return [[]];
      }
      if name in absolutePathsCache {
        return absolutePathsCache[name];
      }
      paths := PathsOfUses(a, node);
      Store(a.g, name, paths);
    }

    /** Walks the uses of a module. */
    method PathsOfUses(ghost a: Acyclic, node: InstanceGraphNode) returns (paths: seq<seq<nat>>)
      requires Valid(a) && node in a.g.nodes && node != top
      modifies this`absolutePathsCache
      ensures Valid(a) && instanceGraph.nodeMap == old(instanceGraph.nodeMap)
      ensures paths == Paths(a, top, node)
      decreases Height(a.order, node), 1
    {
      paths := [];
      var current := node.firstUse;
      ghost var uses, k := a.g.uses[node], 0;
      while current != null
        invariant Valid(a) && instanceGraph.nodeMap == old(instanceGraph.nodeMap)
        invariant k <= |uses| && current == At(uses, k) && paths == Concat(PathsThrough(a, top, node)[..k])
        decreases |uses| - k
      {
        var use := current;
        assert HeapGraphs.NodeOk(a.g, node);
        paths := PathsOfUse(a, node, use, k, paths);
        current := use.nextUse;
        k := k + 1;
      }
      assert PathsThrough(a, top, node)[..k] == PathsThrough(a, top, node);
    }

    /** Adds the paths through a use. */
    method PathsOfUse(ghost a: Acyclic, ghost node: InstanceGraphNode, use: InstanceRecord, ghost k: nat,
                      before: seq<seq<nat>>)
      returns (paths: seq<seq<nat>>)
      requires Valid(a) && node in a.g.nodes && k < |a.g.uses[node]| && use == a.g.uses[node][k]
      requires before == Concat(PathsThrough(a, top, node)[..k])
      modifies this`absolutePathsCache
      ensures Valid(a) && instanceGraph.nodeMap == old(instanceGraph.nodeMap)
      ensures paths == Concat(PathsThrough(a, top, node)[..k + 1])
      decreases Height(a.order, node), 0
    {
      PathsThroughUse(a, top, node, k, use);
      ConcatStep(PathsThrough(a, top, node), k);
      assert HeapGraphs.NodeOk(a.g, use.parent);
      if use.parent.definition.Some? {
        var parentPaths := GetAbsolutePaths(a, use.parent.definition.value);
        paths := before + AppendEach(parentPaths, use.instance);
      } else {
        paths := before + [[]];
      }
    }

    /** Replaces an instance in the graph and in all paths of the cache. */
    method ReplaceInstance(ghost a: Acyclic, name: string, oldOp: nat, newOp: nat)
      returns (r: InstanceRecord, ghost a': Acyclic)
      requires Valid(a) && HasUniqueInstances(a.g) && name in instanceGraph.nodeMap
      requires exists q :: q in a.g.uses[instanceGraph.nodeMap[name]] && a.g.instance[q] == oldOp
      modifies this`absolutePathsCache, a.g.instance.Keys`instance
      ensures r in a.g.uses[old(instanceGraph.nodeMap[name])] && a.g.instance[r] == oldOp && a' == Replaced(a, r, newOp)
      ensures Valid(a') && absolutePathsCache.Keys == old(absolutePathsCache.Keys)
      ensures (forall q <- a.g.instance :: a.g.instance[q] != newOp) ==> HasUniqueInstances(a'.g)
    {
      r := instanceGraph.ReplaceInstance(a.g, name, oldOp, newOp);
      StillAcyclic(a, r, newOp);
      a' := Replaced(a, r, newOp);
      UpdateCache(a, a', oldOp, newOp, r);
      if forall q <- a.g.instance :: a.g.instance[q] != newOp {
        StillUnique(a, r, newOp);
      }
    }

    method UpdateCache(ghost a: Acyclic, ghost a': Acyclic, oldOp: nat, newOp: nat, ghost r: InstanceRecord)
      requires HasUniqueInstances(a.g) && r in a.g.instance && a.g.instance[r] == oldOp && a' == Replaced(a, r, newOp)
      requires HeapGraphs.HeapOk(a'.g) && CacheOk(a, top, instanceGraph.nodeMap, absolutePathsCache)
      modifies this`absolutePathsCache
      ensures HeapGraphs.HeapOk(a'.g) && CacheOk(a', top, instanceGraph.nodeMap, absolutePathsCache)
      ensures absolutePathsCache.Keys == old(absolutePathsCache.Keys)
      ensures NodesStay()
    {
      ghost var cache := absolutePathsCache;
      CacheIsOnce(a, top, r, instanceGraph.nodeMap, cache);
      RenameAll(a'.g, oldOp, newOp);
      RenamedCacheIsOk(a, a', top, r, newOp, instanceGraph.nodeMap, cache, absolutePathsCache);
    }

    method RenameAll(ghost g: Graph, oldOp: nat, newOp: nat)
      requires HeapGraphs.HeapOk(g) && forall name <- absolutePathsCache :: AllOnce(absolutePathsCache[name], oldOp)
      modifies this`absolutePathsCache
      ensures HeapGraphs.HeapOk(g) && NodesStay()
      ensures absolutePathsCache.Keys == old(absolutePathsCache.Keys)
      ensures forall name <- absolutePathsCache ::
                absolutePathsCache[name] == RenamedAll(old(absolutePathsCache[name]), oldOp, newOp)
    {
      var updated := UpdatedCache(absolutePathsCache, oldOp, newOp);
      absolutePathsCache := updated;
    }
  }

  // ---------------------------------------------------------------------------------------------
  // Updating path lists
  // ---------------------------------------------------------------------------------------------

  ghost predicate AllOnce(paths: seq<seq<nat>>, inst: nat) {
    forall path <- paths :: AtMostOnce(path, inst)
  }

  /** Updates each path list, in any order. */
  method UpdatedCache(cache: map<string, seq<seq<nat>>>, oldOp: nat, newOp: nat)
    returns (updated: map<string, seq<seq<nat>>>)
    requires forall name <- cache :: AllOnce(cache[name], oldOp)
    ensures updated.Keys == cache.Keys
    ensures forall name <- cache :: updated[name] == RenamedAll(cache[name], oldOp, newOp)
  {
    updated := cache;
    var todo := cache.Keys;
    while todo != {}
      invariant todo <= cache.Keys == updated.Keys
      invariant forall name <- cache ::
                  updated[name] == if name in todo then cache[name] else RenamedAll(cache[name], oldOp, newOp)
      decreases todo
    {
      var name :| name in todo;
      var paths := UpdatedPaths(updated[name], oldOp, newOp);
      updated := updated[name := paths];
      todo := todo - {name};
    }
  }

  method UpdatedPaths(paths: seq<seq<nat>>, oldOp: nat, newOp: nat) returns (updated: seq<seq<nat>>)
    requires AllOnce(paths, oldOp)
    ensures updated == RenamedAll(paths, oldOp, newOp)
  {
    if forall path <- paths :: oldOp !in path {
      RenamedNothing(paths, oldOp, newOp);
      return paths;
    }
    updated := [];
    for i := 0 to |paths|
      invariant |updated| == i && forall j: nat :: j < i ==> updated[j] == RenamedAll(paths, oldOp, newOp)[j]
    {
      assert paths[i] in paths;
      FirstIsAll(paths[i], oldOp, newOp);
      updated := updated + [ReplacedFirst(paths[i], oldOp, newOp)];
    }
  }

  lemma RenamedCacheIsOk(a: Acyclic, a': Acyclic, top: InstanceGraphNode?, r: InstanceRecord, newOp: nat,
                         nodeMap: map<string, InstanceGraphNode>, cache: map<string, seq<seq<nat>>>,
                         cache': map<string, seq<seq<nat>>>)
    requires HasUniqueInstances(a.g) && r in a.g.instance && a' == Replaced(a, r, newOp)
    requires CacheOk(a, top, nodeMap, cache) && cache'.Keys == cache.Keys
    requires forall name <- cache :: cache'[name] == RenamedAll(cache[name], a.g.instance[r], newOp)
    ensures CacheOk(a', top, nodeMap, cache')
  {
    forall name <- cache'
      ensures name in nodeMap && nodeMap[name] in a'.g.nodes && cache'[name] == Paths(a', top, nodeMap[name])
    {
      ReplacedPaths(a, a', top, r, newOp, nodeMap[name]);
    }
  }

  lemma CacheIsOnce(a: Acyclic, top: InstanceGraphNode?, r: InstanceRecord, nodeMap: map<string, InstanceGraphNode>,
                    cache: map<string, seq<seq<nat>>>)
    requires HasUniqueInstances(a.g) && r in a.g.instance && CacheOk(a, top, nodeMap, cache)
    ensures forall name <- cache :: AllOnce(cache[name], a.g.instance[r])
  {
    forall name <- cache ensures AllOnce(cache[name], a.g.instance[r]) {
      CachedOnce(a, top, r, nodeMap[name], cache[name]);
    }
  }

  lemma CachedOnce(a: Acyclic, top: InstanceGraphNode?, r: InstanceRecord, n: InstanceGraphNode,
                   paths: seq<seq<nat>>)
    requires n in a.g.nodes && paths == Paths(a, top, n) && HasUniqueInstances(a.g) && r in a.g.instance
    ensures AllOnce(paths, a.g.instance[r])
  {
    PathsOnce(a, top, r, n);
    forall path <- paths ensures AtMostOnce(path, a.g.instance[r]) {
      var i: nat :| i < |paths| && paths[i] == path;
      assert OnceAbove(paths[i], a.g.instance[r], IndexOf(a.order, r.target), IndexOf(a.order, n));
    }
  }

  lemma StillUnique(a: Acyclic, r: InstanceRecord, newOp: nat)
    requires HasUniqueInstances(a.g) && r in a.g.instance && forall q <- a.g.instance :: a.g.instance[q] != newOp
    ensures HasUniqueInstances(Replaced(a, r, newOp).g)
  {
  }
}
