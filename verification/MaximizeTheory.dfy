/** Replacing the uses of one value outside of its block by block arguments, and what that keeps. */
module MaximizeTheory {
  import opened ControlFlow

  // ---------------------------------------------------------------------------------------------
  // The rewritten region
  // ---------------------------------------------------------------------------------------------

  function ReplaceAll(vs: seq<Value>, v: Value, w: Value): (r: seq<Value>)
    ensures |r| == |vs|
  {
    seq(|vs|, i requires 0 <= i < |vs| => if vs[i] == v then w else vs[i])
  }

  function ReplaceInEdges(edges: seq<Edge>, v: Value, w: Value): (r: seq<Edge>)
    ensures |r| == |edges|
  {
    seq(|edges|, e requires 0 <= e < |edges| => edges[e].(args := ReplaceAll(edges[e].args, v, w)))
  }

  function ReplaceInOp(op: Op, v: Value, w: Value): Op {
    op.(operands := ReplaceAll(op.operands, v, w), edges := ReplaceInEdges(op.edges, v, w))
  }

  function ReplaceInOps(ops: seq<Op>, v: Value, w: Value): (r: seq<Op>)
    ensures |r| == |ops|
  {
    seq(|ops|, k requires 0 <= k < |ops| => ReplaceInOp(ops[k], v, w))
  }

  function ReplaceInBlock(block: Block, v: Value, w: Value): Block {
    block.(ops := ReplaceInOps(block.ops, v, w), term := ReplaceInOp(block.term, v, w))
  }

  /** The value is passed along the edges of block `p` that are in `passed`. */
  function ExtendEdges(edges: seq<Edge>, p: nat, v: Value, passed: set<(nat, nat)>): (r: seq<Edge>)
    ensures |r| == |edges|
  {
    seq(|edges|, e requires 0 <= e < |edges| =>
      if (p, edges[e].target) in passed then edges[e].(args := edges[e].args + [v]) else edges[e])
  }

  function ExtendBlock(block: Block, b: nat, v: Value, done: set<nat>, passed: set<(nat, nat)>): Block {
    block.(numArgs := block.numArgs + (if b in done then 1 else 0),
           term := block.term.(edges := ExtendEdges(block.term.edges, b, v, passed)))
  }

  /** Blocks in `done` have an argument for the value, and edges in `passed` pass it. */
  function Extended(f: seq<Block>, v: Value, done: set<nat>, passed: set<(nat, nat)>): (r: seq<Block>)
    ensures |r| == |f|
  {
    seq(|f|, b requires 0 <= b < |f| => ExtendBlock(f[b], b, v, done, passed))
  }

  /** Uses of the value in the blocks in `done` are replaced by their arguments. */
  function Replaced(f: seq<Block>, g: seq<Block>, v: Value, done: set<nat>): (r: seq<Block>)
    requires |g| == |f|
    ensures |r| == |f|
  {
    seq(|f|, b requires 0 <= b < |f| => if b in done then ReplaceInBlock(g[b], v, Arg(b, f[b].numArgs)) else g[b])
  }

  function Rewritten(f: seq<Block>, v: Value, done: set<nat>, passed: set<(nat, nat)>): seq<Block> {
    Replaced(f, Extended(f, v, done, passed), v, done)
  }

  /** The blocks that need the value passed to them: it is used there, or in a block that can be reached from there
      without going through the block that defines it. */
  ghost predicate Needs(f: seq<Block>, v: Value, b: nat) {
    exists path :: NeedsAlong(f, v, path) && path[0] == b
  }

  ghost predicate NeedsAlong(f: seq<Block>, v: Value, path: seq<nat>) {
    && IsPath(f, path) && v.block !in path
    && path[|path| - 1] < |f| && BlockUses(f[path[|path| - 1]], v)
  }

  /** Exactly the blocks that need the value have got an argument for it, and exactly the edges to them pass it. */
  ghost predicate IsComplete(f: seq<Block>, v: Value, done: set<nat>, passed: set<(nat, nat)>) {
    && (forall b: nat :: b in done <==> b < |f| && Needs(f, v, b))
    && (forall p: nat, b: nat :: (p, b) in passed <==> HasEdge(f, p, b) && b in done)
  }

  // ---------------------------------------------------------------------------------------------
  // The blocks that need the value
  // ---------------------------------------------------------------------------------------------

  lemma UserNeeds(f: seq<Block>, v: Value, b: nat)
    requires b < |f| && BlockUses(f[b], v) && b != v.block
    ensures Needs(f, v, b)
  {
    assert NeedsAlong(f, v, [b]);
  }

  lemma PredecessorNeeds(f: seq<Block>, v: Value, p: nat, b: nat)
    requires HasEdge(f, p, b) && p != v.block && Needs(f, v, b)
    ensures Needs(f, v, p)
  {
    var path :| NeedsAlong(f, v, path) && path[0] == b;
    assert NeedsAlong(f, v, [p] + path);
  }

  lemma DefinerDoesNotNeed(f: seq<Block>, v: Value)
    ensures !Needs(f, v, v.block)
  {
  }

  /** A set that has the users and their predecessors has all blocks that need the value. */
  lemma {:induction false} NeedsIsLeast(f: seq<Block>, v: Value, done: set<nat>, path: seq<nat>)
    requires NeedsAlong(f, v, path)
    requires forall b: nat :: b < |f| && b != v.block && BlockUses(f[b], v) ==> b in done
    requires forall p: nat, b: nat :: HasEdge(f, p, b) && b in done && p != v.block ==> p in done
    ensures path[0] in done
    decreases |path|
  {
    if |path| > 1 {
      var rest := path[1..];
      forall i: nat | i + 1 < |rest| ensures HasEdge(f, rest[i], rest[i + 1]) {
        assert HasEdge(f, path[i + 1], path[i + 1 + 1]);
      }
      NeedsIsLeast(f, v, done, rest);
      assert HasEdge(f, path[0], path[0 + 1]);
    }
  }

  lemma DefinerIsOnPath(f: seq<Block>, v: Value, path: seq<nat>)
    requires RespectsDominance(f) && IsPath(f, path) && path[0] == 0
    requires path[|path| - 1] < |f| && BlockUses(f[path[|path| - 1]], v)
    ensures v.block in path
  {
    assert Dominates(f, v.block, path[|path| - 1]);
  }

  /** The entry block never gets another argument. */
  lemma EntryDoesNotNeed(f: seq<Block>, v: Value)
    requires RespectsDominance(f)
    ensures !Needs(f, v, 0)
  {
    if path :| NeedsAlong(f, v, path) && path[0] == 0 {
      DefinerIsOnPath(f, v, path);
    }
  }

  // ---------------------------------------------------------------------------------------------
  // Uses after rewriting
  // ---------------------------------------------------------------------------------------------

  lemma ReplaceUses(op: Op, v: Value, w: Value, u: Value)
    requires v != w
    ensures OpUses(ReplaceInOp(op, v, w), u) <==>
            if u == v then false else if u == w then OpUses(op, v) || OpUses(op, w) else OpUses(op, u)
  {
    var op' := ReplaceInOp(op, v, w);
    ReplaceMembers(op.operands, v, w, u);
    forall e: nat | e < |op.edges|
      ensures u in op'.edges[e].args <==>
              if u == v then false
              else if u == w then v in op.edges[e].args || w in op.edges[e].args else u in op.edges[e].args
    {
      ReplaceMembers(op.edges[e].args, v, w, u);
    }
  }

  lemma ReplaceMembers(vs: seq<Value>, v: Value, w: Value, u: Value)
    requires v != w
    ensures u in ReplaceAll(vs, v, w) <==>
            if u == v then false else if u == w then v in vs || w in vs else u in vs
  {
    var r := ReplaceAll(vs, v, w);
    if u != v && u != w && u in vs {
      var i :| 0 <= i < |vs| && vs[i] == u;
      assert r[i] == u;
    }
    if u == w && v in vs {
      var i :| 0 <= i < |vs| && vs[i] == v;
      assert r[i] == w;
    }
    if u == w && w in vs {
      var i :| 0 <= i < |vs| && vs[i] == w;
      assert r[i] == w;
    }
  }

  lemma ReplaceBlockUses(block: Block, v: Value, w: Value, u: Value)
    requires v != w
    ensures BlockUses(ReplaceInBlock(block, v, w), u) <==>
            if u == v then false else if u == w then BlockUses(block, v) || BlockUses(block, w) else BlockUses(block, u)
  {
    var block' := ReplaceInBlock(block, v, w);
    ReplaceUses(block.term, v, w, u);
    forall k: nat | k < |block.ops|
      ensures OpUses(block'.ops[k], u) <==>
              if u == v then false
              else if u == w then OpUses(block.ops[k], v) || OpUses(block.ops[k], w) else OpUses(block.ops[k], u)
    {
      ReplaceUses(block.ops[k], v, w, u);
    }
  }

  lemma ExtendUses(block: Block, b: nat, v: Value, done: set<nat>, passed: set<(nat, nat)>, u: Value)
    ensures BlockUses(ExtendBlock(block, b, v, done, passed), u) <==>
            BlockUses(block, u)
            || (u == v && exists e: nat :: e < |block.term.edges| && (b, block.term.edges[e].target) in passed)
  {
    var term, term' := block.term, ExtendBlock(block, b, v, done, passed).term;
    forall e: nat | e < |term.edges|
      ensures u in term'.edges[e].args <==>
              u in term.edges[e].args || (u == v && (b, term.edges[e].target) in passed)
    {
    }
  }

  lemma RewrittenBlock(f: seq<Block>, v: Value, done: set<nat>, passed: set<(nat, nat)>, b: nat)
    requires b < |f|
    ensures |Rewritten(f, v, done, passed)| == |f|
    ensures Rewritten(f, v, done, passed)[b] ==
            var block := ExtendBlock(f[b], b, v, done, passed);
            if b in done then ReplaceInBlock(block, v, Arg(b, f[b].numArgs)) else block
  {
  }

  /** What a block uses after rewriting. */
  lemma RewrittenUses(f: seq<Block>, v: Value, done: set<nat>, passed: set<(nat, nat)>, b: nat, u: Value)
    requires IsWellFormed(f) && IsComplete(f, v, done, passed) && b < |f|
    requires BlockUses(Rewritten(f, v, done, passed)[b], u)
    ensures (u == v && b == v.block) || (u == Arg(b, f[b].numArgs) && b in done) || (u != v && BlockUses(f[b], u))
  {
    var w := Arg(b, f[b].numArgs);
    RewrittenBlock(f, v, done, passed, b);
    ExtendUses(f[b], b, v, done, passed, u);
    if b in done {
      DefinerDoesNotNeed(f, v);
      NewIsNotUsed(f, v, done, passed, b);
      ReplaceBlockUses(ExtendBlock(f[b], b, v, done, passed), v, w, u);
    } else if u == v && b != v.block {
      if BlockUses(f[b], v) {
        UserNeeds(f, v, b);
      } else {
        var e: nat :| e < |f[b].term.edges| && (b, f[b].term.edges[e].target) in passed;
        PredecessorNeeds(f, v, b, f[b].term.edges[e].target);
      }
    }
  }

  /** The new argument was not used before. */
  lemma NewIsNotUsed(f: seq<Block>, v: Value, done: set<nat>, passed: set<(nat, nat)>, b: nat)
    requires IsWellFormed(f) && b < |f|
    ensures !BlockUses(f[b], Arg(b, f[b].numArgs))
  {
    var w := Arg(b, f[b].numArgs);
    assert BlockUses(f[b], w) ==> Exists(f, w);
  }

  /** Afterwards, the value is only used in the block that defines it. */
  lemma RewrittenIsLocal(f: seq<Block>, v: Value, done: set<nat>, passed: set<(nat, nat)>)
    requires IsWellFormed(f) && IsComplete(f, v, done, passed)
    ensures IsLocal(Rewritten(f, v, done, passed), v)
  {
    var g := Rewritten(f, v, done, passed);
    forall b: nat | b < |g| && BlockUses(g[b], v) ensures b == v.block {
      RewrittenUses(f, v, done, passed, b, v);
    }
  }

  /** Values stay local, and new values are local. */
  lemma LocalStays(f: seq<Block>, v: Value, done: set<nat>, passed: set<(nat, nat)>, u: Value)
    requires IsWellFormed(f) && IsComplete(f, v, done, passed) && (IsLocal(f, u) || !Exists(f, u))
    ensures IsLocal(Rewritten(f, v, done, passed), u)
  {
    var g := Rewritten(f, v, done, passed);
    forall b: nat | b < |g| && BlockUses(g[b], u) ensures b == u.block {
      RewrittenUses(f, v, done, passed, b, u);
      if u != v && BlockUses(f[b], u) {
        assert Exists(f, u);
      }
    }
  }

  lemma RewrittenEdges(f: seq<Block>, v: Value, done: set<nat>, passed: set<(nat, nat)>, b: nat)
    requires b < |f|
    ensures var g := Rewritten(f, v, done, passed);
            && |g| == |f| && g[b].numArgs == f[b].numArgs + (if b in done then 1 else 0)
            && |g[b].term.edges| == |f[b].term.edges|
            && g[b].term.isBranch == f[b].term.isBranch
            && forall e: nat :: e < |f[b].term.edges| ==>
                 var edge, edge' := f[b].term.edges[e], g[b].term.edges[e];
                 && edge'.target == edge.target
                 && |edge'.args| == |edge.args| + if (b, edge.target) in passed then 1 else 0
  {
    RewrittenBlock(f, v, done, passed, b);
  }

  lemma SameGraph(f: seq<Block>, v: Value, done: set<nat>, passed: set<(nat, nat)>, p: nat, b: nat)
    ensures |Rewritten(f, v, done, passed)| == |f|
    ensures HasEdge(Rewritten(f, v, done, passed), p, b) <==> HasEdge(f, p, b)
  {
    var g := Rewritten(f, v, done, passed);
    if p < |f| {
      RewrittenEdges(f, v, done, passed, p);
      if e: nat :| e < |f[p].term.edges| && f[p].term.edges[e].target == b {
        assert g[p].term.edges[e].target == b;
      }
    }
  }

  lemma DominanceStays(f: seq<Block>, v: Value, done: set<nat>, passed: set<(nat, nat)>)
    requires IsWellFormed(f) && IsComplete(f, v, done, passed) && RespectsDominance(f)
    ensures RespectsDominance(Rewritten(f, v, done, passed))
  {
    var g := Rewritten(f, v, done, passed);
    forall b: nat, u: Value | b < |g| && BlockUses(g[b], u) ensures Dominates(g, u.block, b) {
      RewrittenUses(f, v, done, passed, b, u);
      forall path | IsPath(g, path) && path[0] == 0 && path[|path| - 1] == b ensures u.block in path {
        if u.block != b {
          assert Dominates(f, u.block, b);
          forall i: nat | i + 1 < |path| ensures HasEdge(f, path[i], path[i + 1]) {
            SameGraph(f, v, done, passed, path[i], path[i + 1]);
          }
          assert IsPath(f, path);
        }
      }
    }
  }

  /** Every edge still passes as many values as the block has arguments, however many edges lead to it. */
  lemma WellFormedStays(f: seq<Block>, v: Value, done: set<nat>, passed: set<(nat, nat)>)
    requires IsWellFormed(f) && IsComplete(f, v, done, passed) && Exists(f, v)
    ensures IsWellFormed(Rewritten(f, v, done, passed))
  {
    var g := Rewritten(f, v, done, passed);
    forall b: nat, u: Value | b < |g| && BlockUses(g[b], u) ensures Exists(g, u) {
      RewrittenUses(f, v, done, passed, b, u);
      if u == v || BlockUses(f[b], u) {
        assert Exists(f, u);
        ExistsStays(f, v, done, passed, u);
      } else {
        RewrittenEdges(f, v, done, passed, b);
      }
    }
    forall b: nat, e: nat | b < |g| && e < |g[b].term.edges| ensures EdgeOk(g, g[b].term.edges[e]) {
      RewrittenEdges(f, v, done, passed, b);
      var edge := f[b].term.edges[e];
      assert EdgeOk(f, edge);
      RewrittenEdges(f, v, done, passed, edge.target);
      assert HasEdge(f, b, edge.target);
    }
  }

  lemma ExistsStays(f: seq<Block>, v: Value, done: set<nat>, passed: set<(nat, nat)>, u: Value)
    requires Exists(f, u)
    ensures Exists(Rewritten(f, v, done, passed), u)
  {
    RewrittenEdges(f, v, done, passed, u.block);
    RewrittenBlock(f, v, done, passed, u.block);
  }
}
