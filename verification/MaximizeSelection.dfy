/** What happens to the values that are not rewritten: nothing. */
module MaximizeSelection {
  import opened ControlFlow
  import opened MaximizeTheory

  /** `u` is at the same places as before, and at no new one. */
  predicate SamePlaces(before: seq<Value>, after: seq<Value>, u: Value) {
    && |before| <= |after|
    && (forall i: nat :: i < |before| ==> (after[i] == u <==> before[i] == u))
    && (forall i: nat :: |before| <= i < |after| ==> after[i] != u)
  }

  ghost predicate SamePlacesInOp(op: Op, op': Op, u: Value) {
    && |op'.operands| == |op.operands| && SamePlaces(op.operands, op'.operands, u)
    && |op'.edges| == |op.edges|
    && forall e: nat :: e < |op.edges| ==>
         op'.edges[e].target == op.edges[e].target && SamePlaces(op.edges[e].args, op'.edges[e].args, u)
  }

  ghost predicate SamePlacesInBlock(block: Block, block': Block, u: Value) {
    && SamePlacesInOp(block.term, block'.term, u)
    && |block'.ops| == |block.ops|
    && forall k: nat :: k < |block.ops| ==> SamePlacesInOp(block.ops[k], block'.ops[k], u)
  }

  /** Each operand that was `u` still is, no other operand has become `u`, and no edge passes it on. */
  ghost predicate IsUntouched(f: seq<Block>, g: seq<Block>, u: Value) {
    |g| == |f| && forall b: nat :: b < |f| ==> SamePlacesInBlock(f[b], g[b], u)
  }

  ghost predicate AllUntouched(f: seq<Block>, g: seq<Block>, selected: Value -> bool) {
    forall u: Value :: Exists(f, u) && !selected(u) ==> IsUntouched(f, g, u)
  }

  ghost predicate AllLocal(f: seq<Block>, selected: Value -> bool) {
    forall u: Value :: Exists(f, u) && selected(u) ==> IsLocal(f, u)
  }

  /** Values that are not selected are not touched, and if all that are selected are local, nothing is. */
  ghost predicate OnlySelected(f: seq<Block>, g: seq<Block>, selected: Value -> bool) {
    AllUntouched(f, g, selected) && (AllLocal(f, selected) ==> g == f)
  }

  ghost predicate StillExist(f: seq<Block>, g: seq<Block>) {
    forall u: Value :: Exists(f, u) ==> Exists(g, u)
  }

  lemma BlockTransitive(a: Block, b: Block, c: Block, u: Value)
    requires SamePlacesInBlock(a, b, u) && SamePlacesInBlock(b, c, u)
    ensures SamePlacesInBlock(a, c, u)
  {
    OpTransitive(a.term, b.term, c.term, u);
    forall k: nat | k < |a.ops| ensures SamePlacesInOp(a.ops[k], c.ops[k], u) {
      OpTransitive(a.ops[k], b.ops[k], c.ops[k], u);
    }
  }

  lemma OpTransitive(a: Op, b: Op, c: Op, u: Value)
    requires SamePlacesInOp(a, b, u) && SamePlacesInOp(b, c, u)
    ensures SamePlacesInOp(a, c, u)
  {
  }

  lemma NothingTouched(f: seq<Block>, selected: Value -> bool)
    ensures OnlySelected(f, f, selected)
  {
  }

  lemma OnlySelectedTransitive(f: seq<Block>, g: seq<Block>, h: seq<Block>, selected: Value -> bool)
    requires OnlySelected(f, g, selected) && OnlySelected(g, h, selected) && StillExist(f, g)
    ensures OnlySelected(f, h, selected)
  {
    forall u: Value | Exists(f, u) && !selected(u) ensures IsUntouched(f, h, u) {
      assert IsUntouched(f, g, u) && IsUntouched(g, h, u);
      forall b: nat | b < |f| ensures SamePlacesInBlock(f[b], h[b], u) {
        BlockTransitive(f[b], g[b], h[b], u);
      }
    }
  }

  /** A further step, which may select less. */
  lemma OnlySelectedStep(f: seq<Block>, g: seq<Block>, h: seq<Block>, less: Value -> bool, selected: Value -> bool)
    requires OnlySelected(f, g, selected) && OnlySelected(g, h, less) && StillExist(f, g)
    requires forall u :: less(u) ==> selected(u)
    ensures OnlySelected(f, h, selected)
  {
    MoreSelected(g, h, less, selected);
    OnlySelectedTransitive(f, g, h, selected);
  }

  lemma MoreSelected(f: seq<Block>, g: seq<Block>, selected: Value -> bool, more: Value -> bool)
    requires OnlySelected(f, g, selected) && forall u :: selected(u) ==> more(u)
    ensures OnlySelected(f, g, more)
  {
  }

  function One(v: Value): Value -> bool {
    u => u == v
  }

  lemma ExtendedOp(op: Op, b: nat, v: Value, passed: set<(nat, nat)>, u: Value)
    requires u != v
    ensures SamePlacesInOp(op, op.(edges := ExtendEdges(op.edges, b, v, passed)), u)
  {
  }

  lemma ReplacedOp(op: Op, v: Value, w: Value, u: Value)
    requires u != v && u != w
    ensures SamePlacesInOp(op, ReplaceInOp(op, v, w), u)
  {
  }

  lemma UntouchedByRewriting(f: seq<Block>, v: Value, done: set<nat>, passed: set<(nat, nat)>, u: Value)
    requires Exists(f, u) && u != v
    ensures IsUntouched(f, Rewritten(f, v, done, passed), u)
  {
    forall b: nat | b < |f| ensures SamePlacesInBlock(f[b], Rewritten(f, v, done, passed)[b], u) {
      var w := Arg(b, f[b].numArgs);
      var block := ExtendBlock(f[b], b, v, done, passed);
      RewrittenBlock(f, v, done, passed, b);
      ExtendedOp(f[b].term, b, v, passed, u);
      assert SamePlacesInBlock(f[b], block, u);
      if b in done {
        ReplacedOp(block.term, v, w, u);
        forall k: nat | k < |block.ops| ensures SamePlacesInOp(block.ops[k], ReplaceInBlock(block, v, w).ops[k], u) {
          ReplacedOp(block.ops[k], v, w, u);
        }
        BlockTransitive(f[b], block, ReplaceInBlock(block, v, w), u);
      }
    }
  }

  lemma LocalIsNotNeeded(f: seq<Block>, v: Value, b: nat)
    requires IsLocal(f, v)
    ensures !Needs(f, v, b)
  {
  }

  /** A value that is local is needed nowhere else, so that nothing changes. */
  lemma LocalIsLeft(f: seq<Block>, v: Value, done: set<nat>, passed: set<(nat, nat)>)
    requires IsComplete(f, v, done, passed) && IsLocal(f, v)
    ensures Rewritten(f, v, done, passed) == f
  {
    assert forall b: nat :: b !in done by {
      forall b: nat ensures !Needs(f, v, b) {
        LocalIsNotNeeded(f, v, b);
      }
    }
    assert forall p: nat, b: nat :: (p, b) !in passed;
    forall b: nat | b < |f| ensures Rewritten(f, v, done, passed)[b] == f[b] {
      RewrittenBlock(f, v, done, passed, b);
      assert ExtendEdges(f[b].term.edges, b, v, passed) == f[b].term.edges;
    }
  }

  /** Rewriting for one value touches no other. */
  lemma RewritingTouchesOne(f: seq<Block>, v: Value, done: set<nat>, passed: set<(nat, nat)>)
    requires IsComplete(f, v, done, passed) && Exists(f, v)
    ensures OnlySelected(f, Rewritten(f, v, done, passed), One(v))
  {
    var g := Rewritten(f, v, done, passed);
    forall u: Value | Exists(f, u) && !One(v)(u) ensures IsUntouched(f, g, u) {
      UntouchedByRewriting(f, v, done, passed, u);
    }
    if AllLocal(f, One(v)) {
      assert One(v)(v);
      LocalIsLeft(f, v, done, passed);
    }
  }
}
