/** The search for cycles and for the modules at the top, along the instances that the nodes hold. */
module CycleSearch {
  import opened Options
  import opened UseLists
  import opened InstanceGraphs
  import HeapGraphs

  // ---------------------------------------------------------------------------------------------
  // Searching for cycles
  // ---------------------------------------------------------------------------------------------

  lemma RecordIsEdge(g: Graph, n: InstanceGraphNode, r: InstanceRecord)
    requires IsGraph(g) && n in g.nodes && r in g.instances[n]
    ensures r in g.instance && r.target in g.nodes && HasEdge(g, n, r.target)
  {
  }

  /** What the modules visited instantiate is no candidate any more, and only what is instantiated is not. */
  ghost predicate CandidatesOk(g: Graph, visited: seq<InstanceGraphNode>, candidates: seq<InstanceGraphNode>) {
    && (forall c <- candidates :: c in g.nodes) && Distinct(candidates)
    && (forall r <- g.instance :: r.parent in visited ==> r.target !in candidates)
    && forall n <- g.nodes :: n !in candidates ==> !IsRoot(g, n)
  }

  /** The search is at the end of `trace`; the modules in it are marked, those visited are in post-order. */
  ghost predicate SearchOk(g: Graph, trace: seq<InstanceGraphNode>, visited: seq<InstanceGraphNode>,
                           marked: set<InstanceGraphNode>, candidates: seq<InstanceGraphNode>) {
    && IsPostOrder(g, visited) && (forall v <- visited :: v !in marked)
    && marked == (set v <- trace) && (trace != [] ==> IsPath(g, trace))
    && CandidatesOk(g, visited, candidates)
  }

  lemma CandidateRemoved(g: Graph, visited: seq<InstanceGraphNode>, candidates: seq<InstanceGraphNode>,
                         r: InstanceRecord)
    requires CandidatesOk(g, visited, candidates) && r in g.instance
    ensures CandidatesOk(g, visited, Remove(candidates, r.target)) && r.target !in Remove(candidates, r.target)
    ensures Subset(Remove(candidates, r.target), candidates)
  {
    RemoveIs(candidates, r.target);
  }

  ghost predicate Subset<T>(a: seq<T>, b: seq<T>) {
    forall x <- a :: x in b
  }

  /** All that the given records instantiate has been visited. */
  ghost predicate TargetsVisited(records: seq<InstanceRecord>, visited: seq<InstanceGraphNode>,
                                 candidates: seq<InstanceGraphNode>) {
    forall r <- records :: r.target in visited && r.target !in candidates
  }

  lemma NodeVisited(g: Graph, node: InstanceGraphNode, visited: seq<InstanceGraphNode>,
                    candidates: seq<InstanceGraphNode>)
    requires IsGraph(g) && node in g.nodes && node !in visited && IsPostOrder(g, visited)
    requires TargetsVisited(g.instances[node], visited, candidates) && CandidatesOk(g, visited, candidates)
    ensures IsPostOrder(g, visited + [node]) && CandidatesOk(g, visited + [node], candidates)
  {
    LastIsNext(g, visited, node);
  }

  lemma RootsFound(g: Graph, visited: seq<InstanceGraphNode>, candidates: seq<InstanceGraphNode>)
    requires IsGraph(g) && CandidatesOk(g, visited, candidates) && forall n <- g.nodes :: n in visited
    ensures AreRoots(g, candidates)
  {
    forall n <- candidates ensures IsRoot(g, n) {
      assert forall r <- g.instance :: r.parent in g.nodes;
    }
  }

  ghost predicate ReachedFrom(g: Graph, tops: seq<InstanceGraphNode>, n: InstanceGraphNode) {
    exists top :: top in tops && Reachable(g, top, n)
  }

  lemma RootsReachAll(g: Graph, order: seq<InstanceGraphNode>, tops: seq<InstanceGraphNode>, n: InstanceGraphNode)
    requires OrdersAll(g, order) && AreRoots(g, tops) && n in g.nodes
    ensures tops != [] && ReachedFrom(g, tops, n)
  {
    var top := ReachedFromRoot(g, order, n);
  }

  lemma MoreVisited(records: seq<InstanceRecord>, i: nat, visited: seq<InstanceGraphNode>,
                    candidates: seq<InstanceGraphNode>, visited': seq<InstanceGraphNode>,
                    candidates': seq<InstanceGraphNode>)
    requires i < |records| && TargetsVisited(records[..i], visited, candidates)
    requires visited <= visited' && Subset(candidates', candidates)
    requires records[i].target in visited' && records[i].target !in candidates'
    ensures TargetsVisited(records[..i + 1], visited', candidates')
  {
    assert records[..i + 1] == records[..i] + [records[i]];
  }

  /** Visits a module and all that it instantiates; true if a cycle is found. */
  method CycleUtil(ghost g: Wellformed, node: InstanceGraphNode, trace0: seq<InstanceGraphNode>,
                   visited0: seq<InstanceGraphNode>, marked: set<InstanceGraphNode>,
                   candidates0: seq<InstanceGraphNode>)
    returns (cyclic: bool, cycleTrace: seq<InstanceGraphNode>, visited: seq<InstanceGraphNode>,
             candidates: seq<InstanceGraphNode>)
    requires HeapGraphs.HeapOk(g) && node in g.nodes && SearchOk(g, trace0, visited0, marked, candidates0)
    requires trace0 != [] ==> HasEdge(g, trace0[|trace0| - 1], node)
    ensures HeapGraphs.HeapOk(g) && (cyclic ==> IsCycleTrace(g, cycleTrace))
    ensures !cyclic ==> SearchOk(g, trace0, visited, marked, candidates) && visited0 <= visited && node in visited
    ensures !cyclic ==> Subset(candidates, candidates0)
    decreases (set n | n in g.nodes) - marked, 1
  {
    visited, candidates := visited0, candidates0;
    cyclic, cycleTrace := false, [];
    if node !in visited {
      var trace := trace0 + [node];
      ExtendedTrace(g, trace0, node);
      if node in marked {
        MarkedClosesCycle(g, trace0, node);
        cyclic, cycleTrace := true, trace;
      } else {
        cyclic, cycleTrace, visited, candidates := VisitNode(g, node, trace0, visited, marked, candidates);
      }
    }
  }

  method VisitNode(ghost g: Wellformed, node: InstanceGraphNode, trace0: seq<InstanceGraphNode>,
                   visited0: seq<InstanceGraphNode>, marked: set<InstanceGraphNode>,
                   candidates0: seq<InstanceGraphNode>)
    returns (cyclic: bool, cycleTrace: seq<InstanceGraphNode>, visited: seq<InstanceGraphNode>,
             candidates: seq<InstanceGraphNode>)
    requires HeapGraphs.HeapOk(g) && node in g.nodes && SearchOk(g, trace0, visited0, marked, candidates0)
    requires node !in visited0 && node !in marked && IsPath(g, trace0 + [node])
    ensures HeapGraphs.HeapOk(g) && (cyclic ==> IsCycleTrace(g, cycleTrace))
    ensures !cyclic ==> SearchOk(g, trace0, visited, marked, candidates) && visited0 <= visited && node in visited
    ensures !cyclic ==> Subset(candidates, candidates0)
    decreases (set n | n in g.nodes) - marked, 0
  {
    cyclic, cycleTrace, visited, candidates :=
      VisitUses(g, node, trace0 + [node], visited0, marked + {node}, candidates0);
    if !cyclic {
      NodeVisited(g, node, visited, candidates);
      visited := visited + [node];
    }
  }

  method VisitUses(ghost g: Wellformed, node: InstanceGraphNode, trace: seq<InstanceGraphNode>,
                   visited0: seq<InstanceGraphNode>, marked: set<InstanceGraphNode>,
                   candidates0: seq<InstanceGraphNode>)
    returns (cyclic: bool, cycleTrace: seq<InstanceGraphNode>, visited: seq<InstanceGraphNode>,
             candidates: seq<InstanceGraphNode>)
    requires HeapGraphs.HeapOk(g) && node in g.nodes && SearchOk(g, trace, visited0, marked, candidates0)
    requires trace != [] && trace[|trace| - 1] == node
    ensures HeapGraphs.HeapOk(g) && (cyclic ==> IsCycleTrace(g, cycleTrace))
    ensures !cyclic ==> SearchOk(g, trace, visited, marked, candidates) && visited0 <= visited
    ensures !cyclic ==> TargetsVisited(g.instances[node], visited, candidates) && Subset(candidates, candidates0)
    decreases (set n | n in g.nodes) - marked, 3
  {
    visited, candidates := visited0, candidates0;
    cyclic, cycleTrace := false, [];
    var i := 0;
    while i < |node.instances| && !cyclic
      invariant HeapGraphs.HeapOk(g) && i <= |node.instances| && (cyclic ==> IsCycleTrace(g, cycleTrace))
      invariant !cyclic ==> SearchOk(g, trace, visited, marked, candidates)
      invariant !cyclic ==> visited0 <= visited && Subset(candidates, candidates0)
      invariant !cyclic ==> TargetsVisited(node.instances[..i], visited, candidates)
      decreases |node.instances| - i, !cyclic
    {
      var use := node.instances[i];
      ghost var visited1, candidates1 := visited, candidates;
      cyclic, cycleTrace, visited, candidates := VisitUse(g, node, use, trace, visited, marked, candidates);
      if !cyclic {
        MoreVisited(node.instances, i, visited1, candidates1, visited, candidates);
        i := i + 1;
      }
    }
  }

  method VisitUse(ghost g: Wellformed, ghost node: InstanceGraphNode, use: InstanceRecord,
                  trace: seq<InstanceGraphNode>, visited0: seq<InstanceGraphNode>, marked: set<InstanceGraphNode>,
                  candidates0: seq<InstanceGraphNode>)
    returns (cyclic: bool, cycleTrace: seq<InstanceGraphNode>, visited: seq<InstanceGraphNode>,
             candidates: seq<InstanceGraphNode>)
    requires HeapGraphs.HeapOk(g) && node in g.nodes && use in g.instances[node]
    requires SearchOk(g, trace, visited0, marked, candidates0) && trace != [] && trace[|trace| - 1] == node
    ensures HeapGraphs.HeapOk(g) && (cyclic ==> IsCycleTrace(g, cycleTrace))
    ensures !cyclic ==> SearchOk(g, trace, visited, marked, candidates) && visited0 <= visited
    ensures !cyclic ==> Subset(candidates, candidates0)
    ensures !cyclic ==> use.target in visited && use.target !in candidates
    decreases (set n | n in g.nodes) - marked, 2
  {
    RecordIsEdge(g, node, use);
    CandidateRemoved(g, visited0, candidates0, use);
    candidates := Remove(candidates0, use.target);
    cyclic, cycleTrace, visited, candidates := CycleUtil(g, use.target, trace, visited0, marked, candidates);
  }
}
