/** The intrusive doubly linked list of the uses of a module, through the records of its instances. */
module UseLists {
  import opened Options

  ghost predicate Distinct<T>(s: seq<T>) {
    forall i, j :: 0 <= i < j < |s| ==> s[i] != s[j]
  }

  lemma HasFirst<T>(s: seq<T>)
    ensures s != [] ==> exists x :: x in s
  {
    if s != [] {
      assert s[0] in s;
    }
  }

  lemma SplitLast<T>(s: seq<T>)
    requires s != []
    ensures s == s[..|s| - 1] + [s[|s| - 1]]
  {
  }

  /** Without the first occurrence of an element. */
  function Remove<T(==)>(s: seq<T>, x: T): seq<T> {
    if s == [] then [] else if s[0] == x then s[1..] else [s[0]] + Remove(s[1..], x)
  }

  lemma {:induction false} RemoveAt<T>(s: seq<T>, i: nat)
    requires i < |s| && s[i] !in s[..i]
    ensures Remove(s, s[i]) == s[..i] + s[i + 1..]
  {
    if i > 0 {
      assert s[0] == s[..i][0];
      assert s[1..][..i - 1] == s[..i][1..];
      RemoveAt(s[1..], i - 1);
    }
  }

  lemma NotBefore<T>(s: seq<T>, i: nat)
    requires i < |s| && Distinct(s)
    ensures s[i] !in s[..i]
  {
  }

  ghost predicate SameBut<T>(s: seq<T>, x: T, rest: seq<T>) {
    && Distinct(rest) && (forall y <- rest :: y in s && y != x)
    && forall y <- s :: y != x ==> y in rest
  }

  lemma RemoveIs<T>(s: seq<T>, x: T)
    requires Distinct(s)
    ensures SameBut(s, x, Remove(s, x))
  {
    if i :| 0 <= i < |s| && s[i] == x {
      NotBefore(s, i);
      RemoveAt(s, i);
      forall y <- s | y != x ensures y in Remove(s, x) {
        var k :| 0 <= k < |s| && s[k] == y;
        assert Remove(s, x)[if k < i then k else k - 1] == y;
      }
    } else {
      RemoveNothing(s, x);
    }
  }

  ghost predicate Fewer<T>(s: seq<T>, x: T, rest: seq<T>) {
    forall y <- rest :: y in s && y != x
  }

  lemma RemovedAreFewer<T>(s: seq<T>, x: T)
    requires Distinct(s)
    ensures Fewer(s, x, Remove(s, x))
  {
    RemoveIs(s, x);
  }

  lemma {:induction false} RemoveNothing<T>(s: seq<T>, x: T)
    requires x !in s
    ensures Remove(s, x) == s
  {
    if s != [] {
      RemoveNothing(s[1..], x);
    }
  }

  /** The element at `i`, or null if there is none. */
  ghost function At(uses: seq<InstanceRecord>, i: int): InstanceRecord? {
    if 0 <= i < |uses| then uses[i] else null
  }

  ghost predicate Links(uses: seq<InstanceRecord>)
    reads uses
  {
    && Distinct(uses)
    && forall i {:trigger uses[i].nextUse} {:trigger uses[i].prevUse} :: 0 <= i < |uses| ==>
         uses[i].nextUse == At(uses, i + 1) && uses[i].prevUse == At(uses, i - 1)
  }

  class InstanceRecord {
    const parent: InstanceGraphNode
    const target: InstanceGraphNode
    var instance: nat
    var nextUse: InstanceRecord?
    var prevUse: InstanceRecord?

    constructor (parent: InstanceGraphNode, instance: nat, target: InstanceGraphNode)
      ensures this.parent == parent && this.instance == instance && this.target == target
      ensures nextUse == null && prevUse == null
    {
      this.parent, this.instance, this.target := parent, instance, target;
      nextUse, prevUse := null, null;
    }

    /** Removes the record from its module, and from the use list of its target. */
    method Erase()
      requires target.Valid() && this in target.uses
      requires this in parent.instances
      modifies target`firstUse, target`uses, parent`instances, target.uses`nextUse, target.uses`prevUse
      ensures target.Valid() && target.uses == Remove(old(target.uses), this)
      ensures parent.instances == Remove(old(parent.instances), this)
      ensures forall m: InstanceGraphNode :: m != target && old(allocated(m) && m.Valid()) ==> m.Valid()
    {
      Unlink();
      parent.RemoveInstance(this);
    }

    method Unlink()
      requires target.Valid() && this in target.uses
      modifies target`firstUse, target`uses, target.uses`nextUse, target.uses`prevUse
      ensures target.Valid() && target.uses == Remove(old(target.uses), this)
      ensures forall m: InstanceGraphNode :: m != target && old(allocated(m) && m.Valid()) ==> m.Valid()
    {
      ghost var uses := target.uses;
      ghost var i: nat :| i < |uses| && uses[i] == this;
      LinkPastThis(uses, i);
      UnlinkedOk(uses, i);
      RemoveIs(uses, this);
      target.uses := Remove(uses, this);
      forall m: InstanceGraphNode | m != target && old(allocated(m) && m.Valid()) ensures m.Valid() {
        assert forall r <- m.uses :: r.target == m && r !in uses;
        assert forall r <- m.uses :: r.nextUse == old(r.nextUse) && r.prevUse == old(r.prevUse);
      }
    }

    method LinkPastThis(ghost uses: seq<InstanceRecord>, ghost i: nat)
      requires i < |uses| && uses[i] == this && Links(uses) && target.firstUse == uses[0]
      modifies target`firstUse, uses`nextUse, uses`prevUse
      ensures target.firstUse == At(uses, if i == 0 then 1 else 0)
      ensures forall k: nat :: k < |uses| && k != i ==> LinkedPast(uses, i, k)
    {
      if prevUse != null {
        assert prevUse == uses[i - 1];
        prevUse.nextUse := nextUse;
      } else {
        target.firstUse := nextUse;
      }
      if nextUse != null {
        assert nextUse == uses[i + 1];
        nextUse.prevUse := prevUse;
      }
    }
  }

  /** What the links of element `k` are when its neighbour `i` has been unlinked. */
  ghost predicate LinkedPast(uses: seq<InstanceRecord>, i: nat, k: nat)
    requires k < |uses|
    reads uses[k]
  {
    && uses[k].nextUse == At(uses, if k + 1 == i then i + 1 else k + 1)
    && uses[k].prevUse == At(uses, if k == i + 1 then i - 1 else k - 1)
  }

  /** With the neighbours of an element linked to each other, the rest is linked. */
  lemma UnlinkedOk(uses: seq<InstanceRecord>, i: nat)
    requires i < |uses| && Distinct(uses)
    requires forall k: nat :: k < |uses| && k != i ==> LinkedPast(uses, i, k)
    ensures Links(Remove(uses, uses[i]))
    ensures At(Remove(uses, uses[i]), 0) == At(uses, if i == 0 then 1 else 0)
  {
    NotBefore(uses, i);
    RemoveAt(uses, i);
    RestIsLinked(uses, i, uses[..i] + uses[i + 1..]);
  }

  lemma RestIsLinked(uses: seq<InstanceRecord>, i: nat, rest: seq<InstanceRecord>)
    requires i < |uses| && Distinct(uses) && rest == uses[..i] + uses[i + 1..]
    requires forall k: nat :: k < |uses| && k != i ==> LinkedPast(uses, i, k)
    ensures Links(rest)
  {
    forall k: nat | k < |rest|
      ensures rest[k].nextUse == At(rest, k + 1) && rest[k].prevUse == At(rest, k - 1)
    {
      var j := if k < i then k else k + 1;
      assert rest[k] == uses[j] && LinkedPast(uses, i, j);
    }
  }

  class InstanceGraphNode {
    // The name under which the node is entered in the graph.
    ghost const name: string
    // The module, by its name, once it has been defined.
    var definition: Option<string>
    var instances: seq<InstanceRecord>
    var firstUse: InstanceRecord?
    // The records of the list that begins with `firstUse`.
    ghost var uses: seq<InstanceRecord>

    constructor (ghost name: string)
      ensures this.name == name && definition == None && instances == [] && uses == [] && Valid()
    {
      this.name := name;
      definition, instances, firstUse, uses := None, [], null, [];
    }

    ghost predicate Valid()
      reads this`firstUse, this`uses, uses
    {
      firstUse == At(uses, 0) && Links(uses) && forall r <- uses :: r.target == this
    }

    method RecordUse(record: InstanceRecord)
      requires Valid() && record !in uses && record.target == this && record.prevUse == null
      modifies this`firstUse, this`uses, uses`prevUse, record`nextUse
      ensures Valid() && uses == [record] + old(uses)
      ensures forall m: InstanceGraphNode :: m != this && old(allocated(m) && m.Valid()) ==> m.Valid()
    {
      record.nextUse := firstUse;
      if firstUse != null {
        firstUse.prevUse := record;
      }
      firstUse := record;
      uses := [record] + uses;
      forall m: InstanceGraphNode | m != this && old(allocated(m) && m.Valid()) ensures m.Valid() {
        assert forall r <- m.uses :: r.target == m && r !in uses;
        assert forall r <- m.uses :: r.nextUse == old(r.nextUse) && r.prevUse == old(r.prevUse);
      }
    }

    method RemoveInstance(record: InstanceRecord)
      requires record in instances
      modifies this`instances
      ensures instances == Remove(old(instances), record)
    {
      ghost var at :| 0 <= at < |instances| && instances[at] == record;
      var i := 0;
      while instances[i] != record
        invariant 0 <= i <= at && record !in instances[..i]
        decreases at - i
      {
        i := i + 1;
      }
      RemoveAt(instances, i);
      instances := instances[..i] + instances[i + 1..];
    }

    method AddInstance(instance: nat, target: InstanceGraphNode) returns (record: InstanceRecord)
      requires target.Valid() && forall r <- target.uses :: allocated(r)
      modifies this`instances, target`firstUse, target`uses, target.uses`prevUse
      ensures fresh(record) && record.parent == this && record.target == target && record.instance == instance
      ensures instances == old(instances) + [record]
      ensures target.Valid() && target.uses == [record] + old(target.uses)
      ensures forall m: InstanceGraphNode :: m != target && old(allocated(m) && m.Valid()) ==> m.Valid()
    {
      record := new InstanceRecord(this, instance, target);
      target.RecordUse(record);
      instances := instances + [record];
    }

    /** Walks the use list. */
    method Uses() returns (r: seq<InstanceRecord>)
      requires Valid()
      ensures r == uses
    {
      r := [];
      var current := firstUse;
      ghost var i := 0;
      while current != null
        invariant 0 <= i <= |uses| && current == At(uses, i) && r == uses[..i]
        decreases |uses| - i
      {
        assert current == uses[i];
        r := r + [current];
        current := current.nextUse;
        i := i + 1;
      }
      assert i == |uses|;
    }

    /** The first use by the given instance operation. */
    method FindUse(inst: nat) returns (r: InstanceRecord?)
      requires Valid()
      ensures r != null ==> r in uses && r.instance == inst
      ensures r == null ==> forall q <- uses :: q.instance != inst
    {
      r := firstUse;
      ghost var i := 0;
      while r != null && r.instance != inst
        invariant 0 <= i <= |uses| && r == At(uses, i) && forall q <- uses[..i] :: q.instance != inst
        decreases |uses| - i
      {
        assert r == uses[i];
        r := r.nextUse;
        i := i + 1;
      }
      assert r == null ==> uses[..i] == uses;
      if r != null {
        assert r == uses[i];
      }
    }
  }
}
