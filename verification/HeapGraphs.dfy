/** A graph in the heap: each node holds its records, and links its uses. */
module HeapGraphs {
  import opened Options
  import opened UseLists
  import opened InstanceGraphs

  /** The node holds what the graph says, and links exactly its uses. */
  ghost predicate NodeOk(g: Graph, n: InstanceGraphNode)
    requires n in g.instances && n in g.uses
    reads n, g.uses[n]
  {
    && n.instances == g.instances[n] && n.uses == g.uses[n] && n.Valid()
    && n.definition == if n in g.defined then Some(n.name) else None
  }

  ghost predicate HeapOk(g: Graph)
    reads g.nodes, g.instance.Keys
  {
    && (forall n <- g.nodes ::
          n in g.instances && n in g.uses && (forall r <- g.uses[n] :: r in g.instance) && NodeOk(g, n))
    && forall r <- g.instance :: r.instance == g.instance[r]
  }

  method AddNode(ghost g: Graph, ghost name: string) returns (node: InstanceGraphNode)
    requires HeapOk(g)
    ensures fresh(node) && node.name == name && node !in g.nodes && HeapOk(AddedModule(g, node))
  {
    node := new InstanceGraphNode(name);
  }

  method Define(ghost g: Graph, node: InstanceGraphNode, name: string)
    requires HeapOk(g) && node in g.nodes && name == node.name
    modifies node`definition
    ensures HeapOk(DefinedModule(g, node))
  {
    node.definition := Some(name);
  }

  method EraseInstance(ghost g: Graph, r: InstanceRecord)
    requires HeapOk(g) && r in Listed(g)
    modifies r.target`firstUse, r.target`uses, r.parent`instances, r.target.uses`nextUse, r.target.uses`prevUse
    ensures HeapOk(ErasedInstance(g, r))
  {
    ghost var uses := g.uses[r.target];
    RemovedAreFewer(uses, r);
    r.Erase();
  }

  /** The first use of a module by the given instance operation. */
  method FindRecord(ghost g: Graph, node: InstanceGraphNode, inst: nat) returns (r: InstanceRecord?)
    requires HeapOk(g) && node in g.nodes
    ensures HeapOk(g)
    ensures r == null ==> forall q <- g.uses[node] :: g.instance[q] != inst
    ensures r != null ==> r in g.uses[node] && g.instance[r] == inst
  {
    r := node.FindUse(inst);
  }

  lemma ErasedModuleInHeap(g: Graph, n: InstanceGraphNode)
    requires HeapOk(g) && Distinct(g.nodes)
    ensures HeapOk(ErasedModule(g, n))
  {
    RemoveIs(g.nodes, n);
  }
}
