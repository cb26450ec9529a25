/** The instance graph as a value: modules (nodes), the records of instances in them, and the uses of each module. */
module InstanceGraphs {
  import opened UseLists

  /** What the nodes and records of a graph hold. Records are listed by the module they are in, and in the use list of
      the module they instantiate; not all modules need have been defined. */
  datatype Graph = Graph(
    nodes: seq<InstanceGraphNode>,
    defined: set<InstanceGraphNode>,
    instances: map<InstanceGraphNode, seq<InstanceRecord>>,
    uses: map<InstanceGraphNode, seq<InstanceRecord>>,
    instance: map<InstanceRecord, nat>)

  ghost predicate OwnedOk(g: Graph) {
    && (forall n <- g.nodes :: n in g.instances && Distinct(g.instances[n])
                               && forall r <- g.instances[n] :: r in g.instance && r.parent == n)
    && forall r <- g.instance :: r.parent in g.instances && r in g.instances[r.parent]
  }

  /** The use list of each module is exactly the set of records that instantiate it. */
  ghost predicate UsedOk(g: Graph) {
    && (forall n <- g.nodes :: n in g.uses && Distinct(g.uses[n])
                               && forall r <- g.uses[n] :: r in g.instance && r.target == n)
    && forall r <- g.instance :: r.target in g.uses && r in g.uses[r.target]
  }

  ghost predicate IsGraph(g: Graph) {
    && Distinct(g.nodes) && OwnedOk(g) && UsedOk(g)
    && (forall r <- g.instance :: r.parent in g.nodes && r.target in g.nodes)
    && (forall n <- g.defined :: n in g.nodes)
    && (forall n <- g.instances :: n in g.nodes) && forall n <- g.uses :: n in g.nodes
  }

  type Wellformed = g: Graph | IsGraph(g) ghost witness Graph([], {}, map[], map[], map[])

  /** The records that are in the lists of two modules. */
  ghost function Listed(g: Graph): set<InstanceRecord> {
    set r | r in g.instance && r.parent in g.nodes && r.parent in g.instances && r in g.instances[r.parent]
            && r.target in g.nodes && r.target in g.uses && r in g.uses[r.target]
  }

  // ---------------------------------------------------------------------------------------------
  // Updates
  // ---------------------------------------------------------------------------------------------

  ghost function AddedModule(g: Graph, n: InstanceGraphNode): Graph {
    g.(nodes := g.nodes + [n], instances := g.instances[n := []], uses := g.uses[n := []])
  }

  lemma AddedModuleIsGraph(g: Graph, n: InstanceGraphNode)
    requires IsGraph(g) && n !in g.nodes
    ensures IsGraph(AddedModule(g, n))
  {
    var g' := AddedModule(g, n);
    assert OwnedOk(g');
    assert UsedOk(g');
  }

  ghost function DefinedModule(g: Graph, n: InstanceGraphNode): Graph {
    g.(defined := g.defined + {n})
  }

  lemma DefinedModuleIsGraph(g: Graph, n: InstanceGraphNode)
    requires IsGraph(g) && n in g.nodes
    ensures IsGraph(DefinedModule(g, n))
  {
    assert OwnedOk(DefinedModule(g, n)) && UsedOk(DefinedModule(g, n));
  }

  /** A new record is the last in its module, and the first in the uses of the module it instantiates. */
  ghost function AddedInstance(g: Graph, r: InstanceRecord, instance: nat): Graph
    requires r.parent in g.instances && r.target in g.uses
  {
    g.(instance := g.instance[r := instance],
       instances := g.instances[r.parent := g.instances[r.parent] + [r]],
       uses := g.uses[r.target := [r] + g.uses[r.target]])
  }

  lemma AddedInstanceIsGraph(g: Graph, r: InstanceRecord, instance: nat)
    requires IsGraph(g) && r !in g.instance && r.parent in g.nodes && r.target in g.nodes
    ensures r.parent in g.instances && r.target in g.uses && IsGraph(AddedInstance(g, r, instance))
  {
    AddedIsOwned(g, r, instance);
    AddedIsUsed(g, r, instance);
  }

  lemma AddedIsOwned(g: Graph, r: InstanceRecord, instance: nat)
    requires OwnedOk(g) && r.parent in g.nodes && r !in g.instance && r.target in g.uses
    ensures OwnedOk(AddedInstance(g, r, instance))
  {
    var g' := AddedInstance(g, r, instance);
    forall n <- g.nodes
      ensures n in g'.instances && Distinct(g'.instances[n])
      ensures forall q <- g'.instances[n] :: q in g'.instance && q.parent == n
    {
      assert forall q <- g.instances[n] :: q != r;
    }
  }

  lemma AddedIsUsed(g: Graph, r: InstanceRecord, instance: nat)
    requires UsedOk(g) && r.target in g.nodes && r !in g.instance && r.parent in g.instances
    ensures UsedOk(AddedInstance(g, r, instance))
  {
    var g' := AddedInstance(g, r, instance);
    forall n <- g.nodes
      ensures n in g'.uses && Distinct(g'.uses[n])
      ensures forall q <- g'.uses[n] :: q in g'.instance && q.target == n
    {
      assert forall q <- g.uses[n] :: q != r;
    }
  }

  ghost function ErasedInstance(g: Graph, r: InstanceRecord): Graph
    requires r in Listed(g)
  {
    g.(instance := g.instance - {r},
       instances := g.instances[r.parent := Remove(g.instances[r.parent], r)],
       uses := g.uses[r.target := Remove(g.uses[r.target], r)])
  }

  lemma ErasedInstanceIsGraph(g: Graph, r: InstanceRecord)
    requires IsGraph(g) && r in g.instance
    ensures r in Listed(g) && IsGraph(ErasedInstance(g, r))
  {
    ErasedIsOwned(g, r);
    ErasedIsUsed(g, r);
  }

  lemma ErasedIsOwned(g: Graph, r: InstanceRecord)
    requires OwnedOk(g) && r in Listed(g)
    ensures OwnedOk(ErasedInstance(g, r))
  {
    var g' := ErasedInstance(g, r);
    forall n <- g.nodes
      ensures n in g'.instances && Distinct(g'.instances[n])
      ensures forall q <- g'.instances[n] :: q in g'.instance && q.parent == n
    {
      RemoveIs(g.instances[n], r);
    }
    RemoveIs(g.instances[r.parent], r);
  }

  lemma ErasedIsUsed(g: Graph, r: InstanceRecord)
    requires UsedOk(g) && r in Listed(g)
    ensures UsedOk(ErasedInstance(g, r))
  {
    var g' := ErasedInstance(g, r);
    forall n <- g.nodes
      ensures n in g'.uses && Distinct(g'.uses[n])
      ensures forall q <- g'.uses[n] :: q in g'.instance && q.target == n
    {
      RemoveIs(g.uses[n], r);
    }
    RemoveIs(g.uses[r.target], r);
  }

  ghost function ErasedModule(g: Graph, n: InstanceGraphNode): Graph {
    Graph(Remove(g.nodes, n), g.defined - {n}, g.instances - {n}, g.uses - {n}, g.instance)
  }

  lemma ErasedModuleIsGraph(g: Graph, n: InstanceGraphNode)
    requires IsGraph(g) && n in g.nodes && g.uses[n] == [] && g.instances[n] == []
    ensures IsGraph(ErasedModule(g, n))
  {
    var g' := ErasedModule(g, n);
    RemoveIs(g.nodes, n);
    forall r <- g'.instance ensures r.parent in g'.nodes && r.target in g'.nodes {
      assert r in g.instances[r.parent] && r in g.uses[r.target];
    }
    assert OwnedOk(g');
    assert UsedOk(g');
  }

  /** The same but for some records in the module `n`. */
  ghost predicate LostRecordsIn(g: Graph, n: InstanceGraphNode, g': Graph) {
    && g'.nodes == g.nodes && g'.defined == g.defined
    && (forall r <- g'.instance :: r in g.instance && g'.instance[r] == g.instance[r])
    && forall r <- g.instance :: r.parent != n ==> r in g'.instance
  }

  lemma LostOneMore(g: Graph, n: InstanceGraphNode, g': Graph, r: InstanceRecord)
    requires IsGraph(g') && LostRecordsIn(g, n, g') && n in g.nodes && n in g'.instances && g'.instances[n] != []
    requires r == g'.instances[n][0]
    ensures r.parent == n && r in g'.instance && r in Listed(g')
    ensures r.target in g.nodes && forall q <- g'.uses[r.target] :: q in g.instance
    ensures LostRecordsIn(g, n, ErasedInstance(g', r))
    ensures ErasedInstance(g', r).instances[n] == g'.instances[n][1..]
  {
    assert r in g'.instances[n];
  }

  /** The graph without the module `n`, and with exactly the records of the other modules. */
  ghost predicate IsWithout(g: Graph, n: InstanceGraphNode, g': Graph) {
    && g'.nodes == Remove(g.nodes, n) && g'.defined == g.defined - {n}
    && (forall r <- g'.instance :: r in g.instance && g'.instance[r] == g.instance[r])
    && (forall r <- g'.instance :: r.parent != n) && forall r <- g.instance :: r.parent != n ==> r in g'.instance
  }

  lemma WithoutModule(g: Graph, n: InstanceGraphNode, g': Graph)
    requires IsGraph(g) && IsGraph(g') && n in g.nodes && g.uses[n] == []
    requires LostRecordsIn(g, n, g') && g'.instances[n] == []
    ensures g'.uses[n] == [] && IsGraph(ErasedModule(g', n)) && IsWithout(g, n, ErasedModule(g', n))
  {
    HasFirst(g'.uses[n]);
    ErasedModuleIsGraph(g', n);
  }

  /** Another instance operation takes the place of one: no list changes. */
  ghost function ReplacedInstance(g: Graph, r: InstanceRecord, instance: nat): Graph {
    g.(instance := g.instance[r := instance])
  }

  lemma ReplacedInstanceIsGraph(g: Graph, r: InstanceRecord, instance: nat)
    requires IsGraph(g) && r in g.instance
    ensures IsGraph(ReplacedInstance(g, r, instance))
  {
    var g' := ReplacedInstance(g, r, instance);
    assert OwnedOk(g');
    assert UsedOk(g');
  }

  // ---------------------------------------------------------------------------------------------
  // Edges and paths
  // ---------------------------------------------------------------------------------------------

  /** `n` instantiates `t`. */
  ghost predicate HasEdge(g: Graph, n: InstanceGraphNode, t: InstanceGraphNode) {
    exists r :: r in g.instance && r.parent == n && r.target == t
  }

  /** `t` is reached from `n` through `k` instances. */
  ghost predicate Walk(g: Graph, n: InstanceGraphNode, t: InstanceGraphNode, k: nat) {
    if k == 0 then n == t else exists r :: r in g.instance && r.parent == n && Walk(g, r.target, t, k - 1)
  }

  ghost predicate Reachable(g: Graph, n: InstanceGraphNode, t: InstanceGraphNode) {
    exists k: nat :: Walk(g, n, t, k)
  }

  ghost predicate HasCycle(g: Graph) {
    exists n, k: nat :: n in g.nodes && k > 0 && Walk(g, n, n, k)
  }

  lemma {:induction false} WalksJoin(g: Graph, n: InstanceGraphNode, m: InstanceGraphNode, t: InstanceGraphNode,
                                     i: nat, j: nat)
    requires Walk(g, n, m, i) && Walk(g, m, t, j)
    ensures Walk(g, n, t, i + j)
  {
    if i > 0 {
      var r :| r in g.instance && r.parent == n && Walk(g, r.target, m, i - 1);
      WalksJoin(g, r.target, m, t, i - 1, j);
    }
  }

  lemma EdgeIsWalk(g: Graph, n: InstanceGraphNode, t: InstanceGraphNode)
    requires HasEdge(g, n, t)
    ensures Walk(g, n, t, 1)
  {
    var r :| r in g.instance && r.parent == n && r.target == t;
    assert Walk(g, r.target, t, 0);
  }

  ghost predicate IsPath(g: Graph, path: seq<InstanceGraphNode>) {
    path != [] && forall i: nat :: i + 1 < |path| ==> HasEdge(g, path[i], path[i + 1])
  }

  lemma {:induction false} PathIsWalk(g: Graph, path: seq<InstanceGraphNode>, i: nat, j: nat)
    requires IsPath(g, path) && i <= j < |path|
    ensures Walk(g, path[i], path[j], j - i)
    decreases j - i
  {
    if i < j {
      assert HasEdge(g, path[i], path[i + 1]);
      EdgeIsWalk(g, path[i], path[i + 1]);
      PathIsWalk(g, path, i + 1, j);
      WalksJoin(g, path[i], path[i + 1], path[j], 1, j - i - 1);
    }
  }

  /** A path that ends in a module it has been at before. */
  ghost predicate IsCycleTrace(g: Graph, trace: seq<InstanceGraphNode>) {
    |trace| > 1 && IsPath(g, trace) && trace[|trace| - 1] in trace[..|trace| - 1]
  }

  lemma TraceHasCycle(g: Graph, trace: seq<InstanceGraphNode>)
    requires IsGraph(g) && IsCycleTrace(g, trace)
    ensures HasCycle(g)
  {
    var n := |trace| - 1;
    var i :| 0 <= i < n && trace[..n][i] == trace[n];
    assert HasEdge(g, trace[i], trace[i + 1]);
    PathIsWalk(g, trace, i, n);
  }

  lemma MarkedClosesCycle(g: Graph, trace: seq<InstanceGraphNode>, node: InstanceGraphNode)
    requires IsPath(g, trace + [node]) && node in trace
    ensures IsCycleTrace(g, trace + [node])
  {
    assert (trace + [node])[..|trace|] == trace;
  }

  lemma ExtendedTrace(g: Graph, trace: seq<InstanceGraphNode>, node: InstanceGraphNode)
    requires trace != [] ==> IsPath(g, trace) && HasEdge(g, trace[|trace| - 1], node)
    ensures IsPath(g, trace + [node])
  {
    var path := trace + [node];
    forall i: nat | i + 1 < |path| ensures HasEdge(g, path[i], path[i + 1]) {
      if i + 1 < |trace| {
        assert HasEdge(g, trace[i], trace[i + 1]);
      }
    }
  }

  // ---------------------------------------------------------------------------------------------
  // Post-order
  // ---------------------------------------------------------------------------------------------

  /** Every module comes after the modules it instantiates. */
  ghost predicate IsPostOrder(g: Graph, order: seq<InstanceGraphNode>) {
    && Distinct(order)
    && forall i: nat, r :: i < |order| && r in g.instance && r.parent == order[i] ==> r.target in order[..i]
  }

  /** A post-order of all modules. */
  ghost predicate OrdersAll(g: Graph, order: seq<InstanceGraphNode>) {
    IsGraph(g) && IsPostOrder(g, order) && forall n <- g.nodes :: n in order
  }

  function IndexOf<T(==)>(s: seq<T>, x: T): (i: nat)
    ensures i <= |s| && (x in s ==> i < |s|) && (i < |s| ==> s[i] == x)
  {
    if s == [] || s[0] == x then 0 else 1 + IndexOf(s[1..], x)
  }

  lemma RecordGoesDown(g: Graph, order: seq<InstanceGraphNode>, r: InstanceRecord)
    requires IsPostOrder(g, order) && r in g.instance && r.parent in order
    ensures r.target in order && IndexOf(order, r.target) < IndexOf(order, r.parent)
  {
    var i := IndexOf(order, r.parent);
    assert r.target in order[..i];
    var j :| 0 <= j < i && order[j] == r.target;
  }

  lemma {:induction false} WalkGoesDown(g: Graph, order: seq<InstanceGraphNode>, n: InstanceGraphNode,
                                        t: InstanceGraphNode, k: nat)
    requires IsPostOrder(g, order) && Walk(g, n, t, k) && n in order
    ensures t in order && IndexOf(order, t) + k <= IndexOf(order, n)
  {
    if k > 0 {
      var r :| r in g.instance && r.parent == n && Walk(g, r.target, t, k - 1);
      RecordGoesDown(g, order, r);
      WalkGoesDown(g, order, r.target, t, k - 1);
    }
  }

  /** A post-order of all modules shows that there is no cycle. */
  lemma PostOrderIsAcyclic(g: Graph, order: seq<InstanceGraphNode>)
    requires OrdersAll(g, order)
    ensures !HasCycle(g)
  {
    if n, k: nat :| n in g.nodes && k > 0 && Walk(g, n, n, k) {
      WalkGoesDown(g, order, n, n, k);
    }
  }

  /** Following instances between modules still to be ordered ends: here is one that instantiates none of them. */
  lemma {:induction false} FindLast(g: Graph, rest: set<InstanceGraphNode>, trace: seq<InstanceGraphNode>)
    returns (n: InstanceGraphNode)
    requires IsGraph(g) && !HasCycle(g) && IsPath(g, trace) && Distinct(trace)
    requires (forall v <- trace :: v in rest) && (forall v <- rest :: v in g.nodes)
    ensures n in rest && forall t <- rest :: !HasEdge(g, n, t)
    decreases rest - (set v <- trace)
  {
    n := trace[|trace| - 1];
    if t :| t in rest && HasEdge(g, n, t) {
      ExtendedTrace(g, trace, t);
      if t in trace {
        assert (trace + [t])[..|trace|] == trace;
        TraceHasCycle(g, trace + [t]);
        assert false;
      } else {
        assert t in rest - (set v <- trace) && t in (set v <- trace + [t]);
        n := FindLast(g, rest, trace + [t]);
      }
    }
  }

  /** The modules of an acyclic graph have a post-order. */
  lemma {:induction false} ExtendOrder(g: Graph, order: seq<InstanceGraphNode>, rest: set<InstanceGraphNode>)
    returns (all: seq<InstanceGraphNode>)
    requires IsGraph(g) && !HasCycle(g) && IsPostOrder(g, order) && (forall n <- rest :: n in g.nodes && n !in order)
    requires forall n <- g.nodes :: n in order || n in rest
    ensures OrdersAll(g, all)
    decreases |rest|
  {
    if rest == {} {
      all := order;
    } else {
      var first :| first in rest;
      assert IsPath(g, [first]);
      var n := FindLast(g, rest, [first]);
      assert forall r <- g.instance :: r.parent == n ==> HasEdge(g, n, r.target);
      LastIsNext(g, order, n);
      all := ExtendOrder(g, order + [n], rest - {n});
    }
  }

  lemma LastIsNext(g: Graph, order: seq<InstanceGraphNode>, n: InstanceGraphNode)
    requires IsPostOrder(g, order) && n !in order && forall r <- g.instance :: r.parent == n ==> r.target in order
    ensures IsPostOrder(g, order + [n])
  {
    var order' := order + [n];
    forall i: nat, r | i < |order'| && r in g.instance && r.parent == order'[i] ensures r.target in order'[..i] {
      if i < |order| {
        assert order'[..i] == order[..i] && order'[i] == order[i];
      } else {
        assert order'[..i] == order;
      }
    }
  }

  lemma AcyclicHasOrder(g: Graph) returns (order: seq<InstanceGraphNode>)
    requires IsGraph(g) && !HasCycle(g)
    ensures OrdersAll(g, order)
  {
    order := ExtendOrder(g, [], set n <- g.nodes);
  }

  // ---------------------------------------------------------------------------------------------
  // Top-level modules
  // ---------------------------------------------------------------------------------------------

  /** Nothing instantiates `n`. */
  ghost predicate IsRoot(g: Graph, n: InstanceGraphNode) {
    n in g.nodes && forall r <- g.instance :: r.target != n
  }

  /** Exactly the modules that nothing instantiates. */
  ghost predicate AreRoots(g: Graph, tops: seq<InstanceGraphNode>) {
    Distinct(tops) && (forall n <- tops :: IsRoot(g, n)) && forall n <- g.nodes :: IsRoot(g, n) ==> n in tops
  }

  /** Every module is reachable from one that nothing instantiates. */
  lemma {:induction false} ReachedFromRoot(g: Graph, order: seq<InstanceGraphNode>, n: InstanceGraphNode)
    returns (root: InstanceGraphNode)
    requires OrdersAll(g, order) && n in g.nodes
    ensures IsRoot(g, root) && Reachable(g, root, n)
    decreases |order| - IndexOf(order, n)
  {
    if r :| r in g.instance && r.target == n {
      assert HasEdge(g, r.parent, n);
      RecordGoesDown(g, order, r);
      EdgeIsWalk(g, r.parent, n);
      root := ReachedFromRoot(g, order, r.parent);
      var k: nat :| Walk(g, root, r.parent, k);
      WalksJoin(g, root, r.parent, n, k, 1);
    } else {
      root := n;
      assert Walk(g, n, n, 0);
    }
  }

  /** The answer to which modules are at the top: on an acyclic graph those that nothing instantiates. */
  ghost predicate IsInference(g: Graph, ok: bool, tops: seq<InstanceGraphNode>) {
    (ok <==> !HasCycle(g)) && (ok ==> AreRoots(g, tops))
  }

  // ---------------------------------------------------------------------------------------------
  // When the answer stays right
  // ---------------------------------------------------------------------------------------------

  /** Never when a module is added. */
  lemma AddedModuleIsStale(g: Graph, tops: seq<InstanceGraphNode>, n: InstanceGraphNode)
    requires IsGraph(g) && n !in g.nodes && AreRoots(g, tops)
    ensures !AreRoots(AddedModule(g, n), tops)
  {
    var g' := AddedModule(g, n);
    assert IsRoot(g', n);
    assert n in tops ==> IsRoot(g, n);
  }

  /** Never when a module that nothing instantiates is erased. */
  lemma ErasedModuleIsStale(g: Graph, tops: seq<InstanceGraphNode>, n: InstanceGraphNode, g': Graph)
    requires IsGraph(g) && n in g.nodes && g.uses[n] == [] && AreRoots(g, tops) && n !in g'.nodes
    ensures !AreRoots(g', tops)
  {
    assert IsRoot(g, n);
    assert !IsRoot(g', n);
  }

  /** When an instance is added, if and only if it instantiates no module at the top and closes no cycle. */
  lemma AddedInstanceKeepsTops(g: Graph, tops: seq<InstanceGraphNode>, r: InstanceRecord, instance: nat)
    requires IsGraph(g) && r !in g.instance && r.parent in g.nodes && r.target in g.nodes && AreRoots(g, tops)
    ensures r.parent in g.instances && r.target in g.uses
    ensures AreRoots(AddedInstance(g, r, instance), tops) <==> r.target !in tops
    ensures IsInference(AddedInstance(g, r, instance), true, tops) <==>
            !HasCycle(g) && r.target !in tops && !Reachable(g, r.target, r.parent)
  {
    var g' := AddedInstance(g, r, instance);
    assert forall n <- g.nodes :: IsRoot(g', n) <==> IsRoot(g, n) && n != r.target;
    AddedInstanceClosesCycle(g, r, instance);
  }

  lemma AddedInstanceClosesCycle(g: Graph, r: InstanceRecord, instance: nat)
    requires IsGraph(g) && r !in g.instance && r.parent in g.nodes && r.target in g.nodes
    ensures r.parent in g.instances && r.target in g.uses
    ensures HasCycle(AddedInstance(g, r, instance)) <==> HasCycle(g) || Reachable(g, r.target, r.parent)
  {
    var g' := AddedInstance(g, r, instance);
    if n, k: nat :| n in g.nodes && k > 0 && Walk(g, n, n, k) {
      WalkStays(g, g', n, n, k);
    }
    if k: nat :| Walk(g, r.target, r.parent, k) {
      WalkStays(g, g', r.target, r.parent, k);
      assert r in g'.instance && r.parent == r.parent && Walk(g', r.target, r.parent, k);
      assert Walk(g', r.parent, r.parent, k + 1);
    }
    if n, k: nat :| n in g'.nodes && k > 0 && Walk(g', n, n, k) {
      WalkThrough(g, g', r, n, n, k);
      if i: nat, j: nat :| Walk(g, r.target, n, i) && Walk(g, n, r.parent, j) {
        WalksJoin(g, r.target, n, r.parent, i, j);
      }
    }
  }

  lemma {:induction false} WalkStays(g: Graph, g': Graph, n: InstanceGraphNode, t: InstanceGraphNode, k: nat)
    requires Walk(g, n, t, k) && forall r <- g.instance :: r in g'.instance
    ensures Walk(g', n, t, k)
  {
    if k > 0 {
      var r :| r in g.instance && r.parent == n && Walk(g, r.target, t, k - 1);
      WalkStays(g, g', r.target, t, k - 1);
    }
  }

  /** A walk in the graph with a new record is one without, or goes through the record. */
  lemma {:induction false} WalkThrough(g: Graph, g': Graph, r: InstanceRecord, n: InstanceGraphNode,
                                       t: InstanceGraphNode, k: nat)
    requires Walk(g', n, t, k) && forall q <- g'.instance :: q in g.instance || q == r
    ensures Walk(g, n, t, k) || (Reachable(g, n, r.parent) && Reachable(g, r.target, t))
  {
    if k > 0 {
      var q :| q in g'.instance && q.parent == n && Walk(g', q.target, t, k - 1);
      WalkThrough(g, g', r, q.target, t, k - 1);
      if q == r {
        assert Walk(g, n, r.parent, 0);
      } else if j: nat :| Walk(g, q.target, r.parent, j) {
        assert Walk(g, n, r.parent, j + 1);
      }
    }
  }

  /** When an instance is erased, if and only if there is another one of the same module. */
  lemma ErasedInstanceKeepsTops(g: Graph, tops: seq<InstanceGraphNode>, r: InstanceRecord)
    requires IsGraph(g) && r in g.instance && AreRoots(g, tops) && !HasCycle(g)
    ensures r in Listed(g)
    ensures IsInference(ErasedInstance(g, r), true, tops) <==> exists q :: q in g.uses[r.target] && q != r
  {
    var g' := ErasedInstance(g, r);
    ErasedKeepsRoots(g, tops, r);
    if n, k: nat :| n in g'.nodes && k > 0 && Walk(g', n, n, k) {
      WalkStays(g', g, n, n, k);
    }
  }

  lemma ErasedKeepsRoots(g: Graph, tops: seq<InstanceGraphNode>, r: InstanceRecord)
    requires IsGraph(g) && r in g.instance && AreRoots(g, tops)
    ensures r in Listed(g)
    ensures AreRoots(ErasedInstance(g, r), tops) <==> exists q :: q in g.uses[r.target] && q != r
  {
    ErasedRoots(g, r);
    OtherRoots(g, ErasedInstance(g, r), r.target, tops);
  }

  /** With the same roots but for one module, that was none, the answer stays right if it is none. */
  lemma OtherRoots(g: Graph, g': Graph, n: InstanceGraphNode, tops: seq<InstanceGraphNode>)
    requires g'.nodes == g.nodes && n in g.nodes && AreRoots(g, tops) && !IsRoot(g, n)
    requires forall m <- g.nodes :: m != n ==> (IsRoot(g', m) <==> IsRoot(g, m))
    ensures AreRoots(g', tops) <==> !IsRoot(g', n)
  {
  }

  lemma ErasedRoots(g: Graph, r: InstanceRecord)
    requires IsGraph(g) && r in g.instance
    ensures r in Listed(g)
    ensures !IsRoot(g, r.target) && ErasedInstance(g, r).nodes == g.nodes
    ensures IsRoot(ErasedInstance(g, r), r.target) <==> forall q <- g.uses[r.target] :: q == r
    ensures forall n <- g.nodes :: n != r.target ==> (IsRoot(ErasedInstance(g, r), n) <==> IsRoot(g, n))
  {
  }

  /** Always when an instance operation is replaced, or a module defined: nothing is instantiated elsewhere. */
  lemma SameRecordsKeepTops(g: Graph, g': Graph, ok: bool, tops: seq<InstanceGraphNode>)
    requires g'.nodes == g.nodes && g'.instance.Keys == g.instance.Keys
    ensures IsInference(g', ok, tops) <==> IsInference(g, ok, tops)
  {
    assert forall r :: r in g.instance <==> r in g'.instance;
    assert forall n <- g.nodes :: IsRoot(g', n) <==> IsRoot(g, n);
    assert AreRoots(g', tops) <==> AreRoots(g, tops);
    if n, k: nat :| n in g.nodes && k > 0 && Walk(g, n, n, k) {
      WalkStays(g, g', n, n, k);
    }
    if n, k: nat :| n in g'.nodes && k > 0 && Walk(g', n, n, k) {
      WalkStays(g', g, n, n, k);
    }
  }
}
