/** The instance graph as it is updated and searched. */
module InstanceGraphClass {
  import opened Options
  import opened UseLists
  import opened InstanceGraphs
  import HeapGraphs
  import opened CycleSearch

  /** Each node is entered under its name. */
  ghost predicate NamesOk(nodes: seq<InstanceGraphNode>, nodeMap: map<string, InstanceGraphNode>) {
    && (forall name <- nodeMap :: nodeMap[name] in nodes && nodeMap[name].name == name)
    && forall n <- nodes :: n.name in nodeMap && nodeMap[n.name] == n
  }

  lemma NamesWithout(nodes: seq<InstanceGraphNode>, nodeMap: map<string, InstanceGraphNode>, node: InstanceGraphNode)
    requires NamesOk(nodes, nodeMap) && Distinct(nodes) && node in nodes
    ensures NamesOk(Remove(nodes, node), nodeMap - {node.name})
  {
    RemoveIs(nodes, node);
  }

  /** An earlier answer that is still right. */
  ghost predicate StillRight(g: Graph, tops: seq<InstanceGraphNode>) {
    tops != [] && IsInference(g, true, tops)
  }

  lemma AddedModuleStaysRight(g: Graph, tops: seq<InstanceGraphNode>, n: InstanceGraphNode)
    requires IsGraph(g) && n !in g.nodes
    ensures StillRight(g, tops) ==> !StillRight(AddedModule(g, n), tops)
    ensures StillRight(g, tops) ==> !StillRight(DefinedModule(AddedModule(g, n), n), tops)
  {
    if StillRight(g, tops) {
      AddedModuleIsStale(g, tops, n);
      SameRecordsKeepTops(AddedModule(g, n), DefinedModule(AddedModule(g, n), n), true, tops);
    }
  }

  lemma AddedInstanceStaysRight(g: Graph, tops: seq<InstanceGraphNode>, r: InstanceRecord, instance: nat)
    requires IsGraph(g) && r !in g.instance && r.parent in g.nodes && r.target in g.nodes
    ensures r.parent in g.instances && r.target in g.uses
    ensures StillRight(g, tops) ==>
              (StillRight(AddedInstance(g, r, instance), tops) <==>
               r.target !in tops && !Reachable(g, r.target, r.parent))
  {
    if StillRight(g, tops) {
      AddedInstanceKeepsTops(g, tops, r, instance);
    }
  }

  lemma ErasedInstanceStaysRight(g: Graph, tops: seq<InstanceGraphNode>, r: InstanceRecord)
    requires IsGraph(g) && r in g.instance
    ensures r in Listed(g)
    ensures StillRight(g, tops) ==>
              (StillRight(ErasedInstance(g, r), tops) <==> exists q :: q in g.uses[r.target] && q != r)
  {
    if StillRight(g, tops) {
      ErasedInstanceKeepsTops(g, tops, r);
    }
  }

  lemma ErasedModuleStaysRight(g: Graph, tops: seq<InstanceGraphNode>, n: InstanceGraphNode, g': Graph)
    requires IsGraph(g) && n in g.nodes && g.uses[n] == [] && IsWithout(g, n, g')
    ensures StillRight(g, tops) ==> !StillRight(g', tops)
  {
    if StillRight(g, tops) {
      RemoveIs(g.nodes, n);
      ErasedModuleIsStale(g, tops, n, g');
    }
  }

  lemma ReplacedInstanceStaysRight(g: Graph, tops: seq<InstanceGraphNode>, r: InstanceRecord, instance: nat)
    requires r in g.instance
    ensures StillRight(ReplacedInstance(g, r, instance), tops) <==> StillRight(g, tops)
  {
    SameRecordsKeepTops(g, ReplacedInstance(g, r, instance), true, tops);
  }

  ghost predicate AllIn(nodes: seq<InstanceGraphNode>, visited: seq<InstanceGraphNode>) {
    forall n <- nodes :: n in visited
  }

  lemma OneMoreIn(nodes: seq<InstanceGraphNode>, i: nat, visited: seq<InstanceGraphNode>,
                  visited': seq<InstanceGraphNode>)
    requires i < |nodes| && AllIn(nodes[..i], visited) && visited <= visited' && nodes[i] in visited'
    ensures AllIn(nodes[..i + 1], visited')
  {
    assert nodes[..i + 1] == nodes[..i] + [nodes[i]];
  }

  class InstanceGraph {
    var nodes: seq<InstanceGraphNode>
    var nodeMap: map<string, InstanceGraphNode>
    var inferredTopLevelNodes: seq<InstanceGraphNode>

    /** The nodes and records are those of the graph `g`: the use list of each module links exactly the records that
        instantiate it, and shares none with another module. */
    ghost predicate Valid(g: Graph)
      reads this`nodes, this`nodeMap, g.nodes, g.instance.Keys
    {
      nodes == g.nodes && NamesOk(nodes, nodeMap) && IsGraph(g) && HeapGraphs.HeapOk(g)
    }

    constructor ()
      ensures Valid(Graph([], {}, map[], map[], map[])) && inferredTopLevelNodes == []
    {
      nodes, nodeMap, inferredTopLevelNodes := [], map[], [];
    }

    method AddNode(ghost g: Graph, name: string) returns (node: InstanceGraphNode)
      requires Valid(g) && name !in nodeMap
      modifies this`nodes, this`nodeMap
      ensures fresh(node) && node.name == name && node !in g.nodes && Valid(AddedModule(g, node))
      ensures nodeMap == old(nodeMap)[name := node]
    {
      node := HeapGraphs.AddNode(g, name);
      AddedModuleIsGraph(g, node);
      Enter(AddedModule(g, node), node, name);
    }

    method Define(ghost g: Graph, node: InstanceGraphNode, name: string)
      requires Valid(g) && node in g.nodes && name == node.name
      modifies node`definition
      ensures Valid(DefinedModule(g, node))
    {
      DefinedModuleIsGraph(g, node);
      HeapGraphs.Define(g, node, name);
    }

    // The heap after an update

    method AddRecord(ghost g: Graph, parent: InstanceGraphNode, instance: nat, target: InstanceGraphNode)
      returns (record: InstanceRecord)
      requires HeapGraphs.HeapOk(g) && parent in g.nodes && target in g.nodes
      modifies parent`instances, target`firstUse, target`uses, target.uses`prevUse
      ensures fresh(record) && record.parent == parent && record.target == target && record !in g.instance
      ensures HeapGraphs.HeapOk(AddedInstance(g, record, instance)) && nodes == old(nodes) && nodeMap == old(nodeMap)
    {
      record := parent.AddInstance(instance, target);
    }

    method EraseRecord(ghost g: Graph, r: InstanceRecord)
      requires HeapGraphs.HeapOk(g) && r in Listed(g)
      modifies r.target`firstUse, r.target`uses, r.parent`instances, g.instance.Keys`nextUse, g.instance.Keys`prevUse
      ensures HeapGraphs.HeapOk(ErasedInstance(g, r)) && nodes == old(nodes) && nodeMap == old(nodeMap)
    {
      HeapGraphs.EraseInstance(g, r);
    }

    method ReplaceInRecord(ghost g: Graph, r: InstanceRecord, instance: nat)
      requires HeapGraphs.HeapOk(g) && r in g.instance
      modifies r`instance
      ensures HeapGraphs.HeapOk(ReplacedInstance(g, r, instance)) && nodes == old(nodes) && nodeMap == old(nodeMap)
    {
      r.instance := instance;
    }

    method Enter(ghost g: Graph, node: InstanceGraphNode, name: string)
      requires HeapGraphs.HeapOk(g)
      modifies this`nodes, this`nodeMap
      ensures HeapGraphs.HeapOk(g) && nodes == old(nodes) + [node] && nodeMap == old(nodeMap)[name := node]
    {
      nodes := nodes + [node];
      nodeMap := nodeMap[name := node];
    }

    method Forget(ghost g: Graph, node: InstanceGraphNode, name: string)
      requires HeapGraphs.HeapOk(g)
      modifies this`nodes, this`nodeMap
      ensures HeapGraphs.HeapOk(g) && nodes == Remove(old(nodes), node) && nodeMap == old(nodeMap) - {name}
    {
      nodeMap := nodeMap - {name};
      nodes := Remove(nodes, node);
    }

    method FindRecord(ghost g: Graph, node: InstanceGraphNode, inst: nat) returns (r: InstanceRecord)
      requires HeapGraphs.HeapOk(g) && node in g.nodes && exists q :: q in g.uses[node] && g.instance[q] == inst
      ensures r in g.uses[node] && g.instance[r] == inst
      ensures HeapGraphs.HeapOk(g) && nodes == old(nodes) && nodeMap == old(nodeMap)
    {
      r := HeapGraphs.FindRecord(g, node, inst);
    }

    method KeepAnswer(ghost g: Graph, tops: seq<InstanceGraphNode>)
      requires HeapGraphs.HeapOk(g)
      modifies this`inferredTopLevelNodes
      ensures HeapGraphs.HeapOk(g) && nodes == old(nodes) && nodeMap == old(nodeMap) && inferredTopLevelNodes == tops
    {
      inferredTopLevelNodes := tops;
    }

    // Updates

    method AddModule(ghost g: Graph, name: string) returns (node: InstanceGraphNode)
      requires Valid(g) && name !in nodeMap
      modifies this`nodes, this`nodeMap
      ensures fresh(node) && node.name == name && node !in g.nodes
      ensures Valid(DefinedModule(AddedModule(g, node), node)) && nodeMap == old(nodeMap)[name := node]
      ensures StillRight(g, old(inferredTopLevelNodes)) ==>
                !StillRight(DefinedModule(AddedModule(g, node), node), old(inferredTopLevelNodes))
    {
      node := AddNode(g, name);
      AddedModuleStaysRight(g, old(inferredTopLevelNodes), node);
      Define(AddedModule(g, node), node, name);
    }

    method AddInstance(ghost g: Graph, parent: InstanceGraphNode, instance: nat, target: InstanceGraphNode)
      returns (record: InstanceRecord)
      requires Valid(g) && parent in g.nodes && target in g.nodes
      modifies parent`instances, target`firstUse, target`uses, target.uses`prevUse
      ensures fresh(record) && record.parent == parent && record.target == target && record !in g.instance
      ensures parent in g.instances && target in g.uses && Valid(AddedInstance(g, record, instance))
      ensures StillRight(g, old(inferredTopLevelNodes)) ==>
                (StillRight(AddedInstance(g, record, instance), old(inferredTopLevelNodes)) <==>
                 target !in old(inferredTopLevelNodes) && !Reachable(g, target, parent))
    {
      record := AddRecord(g, parent, instance, target);
      AddedInstanceIsGraph(g, record, instance);
      AddedInstanceStaysRight(g, old(inferredTopLevelNodes), record, instance);
    }

    method EraseInstance(ghost g: Graph, r: InstanceRecord)
      requires Valid(g) && r in g.instance
      modifies r.target`firstUse, r.target`uses, r.parent`instances, g.instance.Keys`nextUse, g.instance.Keys`prevUse
      ensures r in Listed(g) && Valid(ErasedInstance(g, r))
      ensures StillRight(g, old(inferredTopLevelNodes)) ==>
                (StillRight(ErasedInstance(g, r), old(inferredTopLevelNodes)) <==>
                 exists q :: q in g.uses[r.target] && q != r)
    {
      ErasedInstanceIsGraph(g, r);
      ErasedInstanceStaysRight(g, inferredTopLevelNodes, r);
      EraseRecord(g, r);
    }

    /** A use of the module becomes the use by another instance operation. */
    method ReplaceInstance(ghost g: Graph, name: string, inst: nat, newInst: nat) returns (r: InstanceRecord)
      requires Valid(g) && name in nodeMap && exists q :: q in g.uses[nodeMap[name]] && g.instance[q] == inst
      modifies g.instance.Keys`instance
      ensures r in g.uses[old(nodeMap[name])] && g.instance[r] == inst
      ensures Valid(ReplacedInstance(g, r, newInst))
      ensures StillRight(ReplacedInstance(g, r, newInst), old(inferredTopLevelNodes)) <==>
              StillRight(g, old(inferredTopLevelNodes))
    {
      var node := nodeMap[name];
      r := FindRecord(g, node, inst);
      ReplacedInstanceStaysRight(g, old(inferredTopLevelNodes), r, newInst);
      SetInstance(g, r, newInst);
    }

    method SetInstance(ghost g: Graph, r: InstanceRecord, newInst: nat)
      requires Valid(g) && r in g.instance
      modifies r`instance
      ensures Valid(ReplacedInstance(g, r, newInst))
    {
      ReplacedInstanceIsGraph(g, r, newInst);
      ReplaceInRecord(g, r, newInst);
    }

    /** Erases a module that nothing instantiates, with all instances in it. */
    method Erase(ghost g: Graph, node: InstanceGraphNode) returns (ghost g': Graph)
      requires Valid(g) && node in g.defined && g.uses[node] == []
      modifies this`nodes, this`nodeMap, node`instances, g.nodes`firstUse, g.nodes`uses
      modifies g.instance.Keys`nextUse, g.instance.Keys`prevUse
      ensures Valid(g') && IsWithout(g, node, g')
      ensures StillRight(g, old(inferredTopLevelNodes)) ==> !StillRight(g', old(inferredTopLevelNodes))
    {
      ghost var h := EraseInstances(g, node);
      WithoutModule(g, node, h);
      NamesWithout(nodes, nodeMap, node);
      HeapGraphs.ErasedModuleInHeap(h, node);
      g' := ErasedModule(h, node);
      assert HeapGraphs.NodeOk(h, node);
      ErasedModuleStaysRight(g, old(inferredTopLevelNodes), node, g');
      Forget(g', node, node.definition.value);
    }

    method EraseInstances(ghost g: Graph, node: InstanceGraphNode) returns (ghost h: Graph)
      requires Valid(g) && node in g.nodes
      modifies node`instances, g.nodes`firstUse, g.nodes`uses, g.instance.Keys`nextUse, g.instance.Keys`prevUse
      ensures Valid(h) && LostRecordsIn(g, node, h) && node in h.instances && h.instances[node] == []
    {
      h := g;
      while node.instances != []
        invariant Valid(h) && LostRecordsIn(g, node, h) && node in h.instances && h.instances[node] == node.instances
        decreases |node.instances|
      {
        h := EraseFirst(g, node, h);
      }
    }

    method EraseFirst(ghost g: Graph, node: InstanceGraphNode, ghost h: Graph) returns (ghost h': Graph)
      requires Valid(h) && LostRecordsIn(g, node, h) && node in g.nodes && node in h.instances
      requires node.instances == h.instances[node] != []
      modifies node`instances, g.nodes`firstUse, g.nodes`uses, g.instance.Keys`nextUse, g.instance.Keys`prevUse
      ensures Valid(h') && LostRecordsIn(g, node, h') && node in h'.instances
      ensures node.instances == h'.instances[node] == old(node.instances)[1..]
    {
      var r := node.instances[0];
      LostOneMore(g, node, h, r);
      EraseInstance(h, r);
      h' := ErasedInstance(h, r);
    }

    /** Fails if and only if there is a cycle, with a trace that ends in a module it has been at before. Otherwise these
        are exactly the modules that nothing instantiates, and every module is reachable from them. An earlier answer is
        kept: the answer is then right if and only if that is. */
    method GetInferredTopLevelNodes(ghost g: Graph)
      returns (ok: bool, tops: seq<InstanceGraphNode>, cycleTrace: seq<InstanceGraphNode>)
      requires Valid(g) && g.nodes != []
      modifies this`inferredTopLevelNodes
      ensures old(inferredTopLevelNodes) != [] ==> ok && tops == old(inferredTopLevelNodes)
      ensures IsInference(g, ok, tops) <==>
              old(inferredTopLevelNodes) == [] || StillRight(g, old(inferredTopLevelNodes))
      ensures !ok ==> IsCycleTrace(g, cycleTrace)
      ensures ok && IsInference(g, ok, tops) ==> tops != [] && forall n <- g.nodes :: ReachedFrom(g, tops, n)
      ensures inferredTopLevelNodes == (if ok then tops else []) && Valid(g)
    {
      cycleTrace := [];
      if inferredTopLevelNodes == [] {
        ok, tops, cycleTrace := FindTopLevelNodes(g);
        KeepAnswer(g, if ok then tops else []);
      } else {
        ok, tops := true, inferredTopLevelNodes;
        if StillRight(g, tops) {
          ghost var order := AcyclicHasOrder(g);
          AllReachedFrom(g, order, tops);
        }
      }
    }

    method FindTopLevelNodes(ghost g: Graph)
      returns (ok: bool, tops: seq<InstanceGraphNode>, cycleTrace: seq<InstanceGraphNode>)
      requires Valid(g) && g.nodes != []
      ensures IsInference(g, ok, tops) && (!ok ==> IsCycleTrace(g, cycleTrace))
      ensures ok ==> tops != [] && forall n <- g.nodes :: ReachedFrom(g, tops, n)
      ensures Valid(g)
    {
      var visited, candidates := [], nodes;
      var cyclic, i := false, 0;
      cycleTrace := [];
      NothingVisited(g);
      while i < |nodes| && !cyclic
        invariant HeapGraphs.HeapOk(g) && nodes == g.nodes && nodeMap == old(nodeMap)
        invariant i <= |nodes| && (cyclic ==> IsCycleTrace(g, cycleTrace))
        invariant !cyclic ==> SearchOk(g, [], visited, {}, candidates) && AllIn(nodes[..i], visited)
        decreases |nodes| - i, !cyclic
      {
        var node := nodes[i];
        ghost var before := visited;
        cyclic, cycleTrace, visited, candidates := CycleUtil(g, node, [], visited, {}, candidates);
        if !cyclic {
          OneMoreIn(nodes, i, before, visited);
          i := i + 1;
        }
      }
      ok, tops := !cyclic, candidates;
      if cyclic {
        TraceHasCycle(g, cycleTrace);
      } else {
        assert nodes[..i] == g.nodes;
        RootsFound(g, visited, candidates);
        AllReachedFrom(g, visited, tops);
        PostOrderIsAcyclic(g, visited);
      }
    }
  }

  lemma NothingVisited(g: Graph)
    requires IsGraph(g)
    ensures SearchOk(g, [], [], {}, g.nodes)
  {
  }

  lemma AllReachedFrom(g: Graph, order: seq<InstanceGraphNode>, tops: seq<InstanceGraphNode>)
    requires OrdersAll(g, order) && AreRoots(g, tops) && g.nodes != []
    ensures tops != [] && forall n <- g.nodes :: ReachedFrom(g, tops, n)
  {
    forall n <- g.nodes ensures tops != [] && ReachedFrom(g, tops, n) {
      RootsReachAll(g, order, tops, n);
    }
    assert g.nodes[0] in g.nodes;
  }
}
