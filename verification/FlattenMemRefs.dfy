/** Flattening the indices of a multi-dimensional memory, and memories that are accessed through flat indices. */
module FlattenMemRefs {
  import opened Arithmetic

  ghost predicate InBounds(indices: seq<nat>, shape: seq<nat>) {
    |indices| == |shape| && forall i :: 0 <= i < |shape| ==> indices[i] < shape[i]
  }

  function NumElements(shape: seq<nat>): nat {
    if shape == [] then 1 else NumElements(shape[..|shape| - 1]) * shape[|shape| - 1]
  }

  /** Each index counts for the product of all dimensions before it. */
  function Flat(indices: seq<nat>, shape: seq<nat>): nat
    requires |indices| == |shape|
  {
    if indices == [] then 0 else
      var n := |indices| - 1;
      Flat(indices[..n], shape[..n]) + indices[n] * NumElements(shape[..n])
  }

  /** The indices of an element. */
  function Unflat(k: nat, shape: seq<nat>): (indices: seq<nat>)
    requires k < NumElements(shape)
    ensures |indices| == |shape|
  {
    if shape == [] then [] else
      var n := |shape| - 1;
      var below := NumElements(shape[..n]);
      PositiveFactor(below, shape[n]);
      DivModOf(k, below);
      Unflat(k % below, shape[..n]) + [k / below]
  }

  lemma PositiveFactor(a: nat, b: nat)
    requires a * b > 0
    ensures a > 0 && b > 0
  {
    assert a == 0 || b == 0 ==> a * b == 0;
  }

  lemma {:induction false} FlatIsInRange(indices: seq<nat>, shape: seq<nat>)
    requires InBounds(indices, shape)
    ensures Flat(indices, shape) < NumElements(shape)
  {
    if indices != [] {
      var n := |indices| - 1;
      FlatIsInRange(indices[..n], shape[..n]);
      ProductOrder(indices[n], shape[n], NumElements(shape[..n]));
    }
  }

  /** Different indices have different flat indices. */
  lemma {:induction false} UnflatOfFlat(indices: seq<nat>, shape: seq<nat>)
    requires InBounds(indices, shape)
    ensures Flat(indices, shape) < NumElements(shape)
    ensures Unflat(Flat(indices, shape), shape) == indices
  {
    FlatIsInRange(indices, shape);
    if indices != [] {
      var n := |indices| - 1;
      UnflatOfFlat(indices[..n], shape[..n]);
      DivModIs(Flat(indices, shape), indices[n], Flat(indices[..n], shape[..n]), NumElements(shape[..n]));
      assert indices == indices[..n] + [indices[n]];
    }
  }

  /** Every flat index is that of some indices. */
  lemma {:induction false} FlatOfUnflat(k: nat, shape: seq<nat>)
    requires k < NumElements(shape)
    ensures InBounds(Unflat(k, shape), shape) && Flat(Unflat(k, shape), shape) == k
  {
    if shape != [] {
      var n := |shape| - 1;
      var below := NumElements(shape[..n]);
      PositiveFactor(below, shape[n]);
      DivModOf(k, below);
      FlatOfUnflat(k % below, shape[..n]);
      QuotientBelow(k, below, shape[n]);
      var rest, indices := Unflat(k % below, shape[..n]), Unflat(k, shape);
      assert indices[..n] == rest && indices[n] == k / below;
      assert forall i :: 0 <= i < n ==> indices[i] == rest[i] && shape[..n][i] == shape[i];
    }
  }

  lemma QuotientBelow(k: nat, below: nat, size: nat)
    requires below > 0 && k < below * size
    ensures k / below < size
  {
    DivModOf(k, below);
    if k / below >= size {
      if k / below > size {
        ProductOrder(size, k / below, below);
      }
    }
  }

  // ---------------------------------------------------------------------------------------------
  // Computing the index
  // ---------------------------------------------------------------------------------------------

  predicate IsPowerOf2(x: nat) {
    x > 0 && (x == 1 || (x % 2 == 0 && IsPowerOf2(x / 2)))
  }

  function Log2(x: nat): nat
    requires x > 0
  {
    if x == 1 then 0 else 1 + Log2(x / 2)
  }

  function ShiftLeft(x: nat, n: nat): nat {
    if n == 0 then x else ShiftLeft(x, n - 1) * 2
  }

  lemma {:induction false} PowerOfLog(x: nat)
    requires IsPowerOf2(x)
    ensures Pow2(Log2(x)) == x
  {
    if x > 1 {
      PowerOfLog(x / 2);
    }
  }

  lemma {:induction false} ShiftIsProduct(x: nat, n: nat)
    ensures ShiftLeft(x, n) == x * Pow2(n)
  {
    if n > 0 {
      ShiftIsProduct(x, n - 1);
      assert x * (2 * Pow2(n - 1)) == x * Pow2(n - 1) * 2;
    }
  }

  lemma FlatStep(indices: seq<nat>, shape: seq<nat>, k: nat)
    requires |indices| == |shape| && k < |indices|
    ensures Flat(indices[..k + 1], shape[..k + 1]) ==
            Flat(indices[..k], shape[..k]) + indices[k] * NumElements(shape[..k])
  {
    assert indices[..k + 1][..k] == indices[..k] && shape[..k + 1][..k] == shape[..k];
  }

  lemma NumElementsStep(shape: seq<nat>, i: nat)
    requires i < |shape|
    ensures NumElements(shape[..i + 1]) == NumElements(shape[..i]) * shape[i]
  {
    assert shape[..i + 1][..i] == shape[..i];
  }

  /** The index that is computed by the operations generated, with shifts where a factor is a power of two. */
  method FlattenIndices(indices: seq<nat>, shape: seq<nat>) returns (finalIdx: nat)
    requires |indices| == |shape|
    ensures finalIdx == Flat(indices, shape)
  {
    if indices == [] {
      return 0;
    }
    finalIdx := indices[0];
    FlatStep(indices, shape, 0);
    for k := 1 to |indices|
      invariant finalIdx == Flat(indices[..k], shape[..k])
    {
      var partialIdx := indices[k];
      var indexMulFactor := 1;
      for i := 0 to k
        invariant indexMulFactor == NumElements(shape[..i])
      {
        NumElementsStep(shape, i);
        indexMulFactor := indexMulFactor * shape[i];
      }
      if IsPowerOf2(indexMulFactor) {
        PowerOfLog(indexMulFactor);
        ShiftIsProduct(partialIdx, Log2(indexMulFactor));
        partialIdx := ShiftLeft(partialIdx, Log2(indexMulFactor));
      } else {
        partialIdx := partialIdx * indexMulFactor;
      }
      FlatStep(indices, shape, k);
      finalIdx := finalIdx + partialIdx;
    }
    assert indices[..|indices|] == indices && shape[..|shape|] == shape;
  }

  // ---------------------------------------------------------------------------------------------
  // Memories
  // ---------------------------------------------------------------------------------------------

  datatype Access = Load(indices: seq<nat>) | Store(indices: seq<nat>, value: int)

  ghost predicate AllInBounds(accesses: seq<Access>, shape: seq<nat>) {
    forall a <- accesses :: InBounds(a.indices, shape)
  }

  /** The values loaded by the first `n` accesses, and the memory after them. */
  function Execute(accesses: seq<Access>, n: nat, memory: map<seq<nat>, int>): (r: (seq<int>, map<seq<nat>, int>))
    requires n <= |accesses|
  {
    if n == 0 then ([], memory) else
      var (loaded, before) := Execute(accesses, n - 1, memory);
      match accesses[n - 1]
      case Load(indices) => (loaded + [if indices in before then before[indices] else 0], before)
      case Store(indices, value) => (loaded, before[indices := value])
  }

  /** The same with a flat memory. */
  function ExecuteFlat(accesses: seq<Access>, shape: seq<nat>, n: nat, memory: seq<int>): (r: (seq<int>, seq<int>))
    requires n <= |accesses| && |memory| == NumElements(shape) && AllInBounds(accesses, shape)
    ensures |r.1| == |memory|
  {
    if n == 0 then ([], memory) else
      var (loaded, before) := ExecuteFlat(accesses, shape, n - 1, memory);
      assert accesses[n - 1] in accesses;
      FlatIsInRange(accesses[n - 1].indices, shape);
      match accesses[n - 1]
      case Load(indices) => (loaded + [before[Flat(indices, shape)]], before)
      case Store(indices, value) => (loaded, before[Flat(indices, shape) := value])
  }

  /** The flat memory holds each element at its flat index. */
  ghost predicate Holds(memory: map<seq<nat>, int>, flat: seq<int>, shape: seq<nat>) {
    && |flat| == NumElements(shape)
    && forall k: nat :: k < |flat| ==>
         var indices := Unflat(k, shape); flat[k] == if indices in memory then memory[indices] else 0
  }

  lemma StoreHolds(memory: map<seq<nat>, int>, flat: seq<int>, shape: seq<nat>, indices: seq<nat>, value: int)
    requires Holds(memory, flat, shape) && InBounds(indices, shape)
    ensures Flat(indices, shape) < |flat|
    ensures Holds(memory[indices := value], flat[Flat(indices, shape) := value], shape)
  {
    UnflatOfFlat(indices, shape);
    forall k: nat | k < |flat| && k != Flat(indices, shape) ensures Unflat(k, shape) != indices {
      FlatOfUnflat(k, shape);
    }
  }

  /** Any sequence of loads and stores loads the same values. */
  lemma {:induction false} FlatMemoryIsEquivalent(accesses: seq<Access>, shape: seq<nat>, n: nat,
                                                   memory: map<seq<nat>, int>, flat: seq<int>)
    requires n <= |accesses| && AllInBounds(accesses, shape) && Holds(memory, flat, shape)
    ensures Execute(accesses, n, memory).0 == ExecuteFlat(accesses, shape, n, flat).0
    ensures Holds(Execute(accesses, n, memory).1, ExecuteFlat(accesses, shape, n, flat).1, shape)
  {
    if n > 0 {
      FlatMemoryIsEquivalent(accesses, shape, n - 1, memory, flat);
      var (loaded, before) := Execute(accesses, n - 1, memory);
      var (loaded', before') := ExecuteFlat(accesses, shape, n - 1, flat);
      assert accesses[n - 1] in accesses;
      UnflatOfFlat(accesses[n - 1].indices, shape);
      match accesses[n - 1]
      case Load(_) =>
      case Store(indices, value) => StoreHolds(before, before', shape, indices, value);
    }
  }
}
