/** What the chain-breaking pass records: the delays of the longest unbroken chains, unless it lowers one. */
module ChainDelays {
  import opened Options
  import opened Problems
  import opened Topological
  import opened ChainingTheory

  /** A chain that starts at `u`, comes in through one of the first `k` dependences of `v`, and has been broken nowhere
      before `v` has the delay `d` at `v`. */
  ghost predicate IsChain(prob: Problem, cycleTime: real, v: nat, k: nat, u: nat, d: real)
    requires prob.WellFormed() && prob.CheckChaining() && v < prob.Size() && k <= |prob.dependences[v]|
    decreases v
  {
    || (u == v && d == 0.0)
    || exists j: nat :: j < k && ComesIn(prob, cycleTime, v, j, u, d)
  }

  /** The chain is extended by the source of the dependence, or starts there if that takes more than a cycle. */
  ghost predicate ComesIn(prob: Problem, cycleTime: real, v: nat, j: nat, u: nat, d: real)
    requires prob.WellFormed() && prob.CheckChaining() && v < prob.Size() && j < |prob.dependences[v]|
    decreases v, 0
  {
    var dep := prob.dependences[v][j];
    var c := dep.src;
    !dep.auxiliary && c < v &&
    if prob.Latency(c) > 0 then u == c && d == prob.Outgoing(c)
    else u in Kept(prob, cycleTime, c, ChainsAt(prob, cycleTime, c))
         && IsChain(prob, cycleTime, c, |prob.dependences[c]|, u, d - prob.Outgoing(c))
  }

  ghost predicate RecordsChains(prob: Problem, cycleTime: real, v: nat, k: nat)
    requires prob.WellFormed() && prob.CheckChaining() && v < prob.Size() && k <= |prob.dependences[v]|
  {
    forall u: nat :: u in KnownChains(prob, cycleTime, v, k) ==>
      IsChain(prob, cycleTime, v, k, u, KnownChains(prob, cycleTime, v, k)[u])
      && KnownChains(prob, cycleTime, v, k)[u] >= 0.0
  }

  lemma FirstChain(prob: Problem, cycleTime: real, v: nat)
    requires prob.WellFormed() && prob.CheckChaining() && InTopologicalOrder(prob) && v < prob.Size()
    ensures RecordsChains(prob, cycleTime, v, 0)
  {
    BreakRunHandles(prob, cycleTime, v);
  }

  lemma ComesInIsChain(prob: Problem, cycleTime: real, v: nat, k: nat, u: nat, d: real)
    requires prob.WellFormed() && prob.CheckChaining() && v < prob.Size() && k < |prob.dependences[v]|
    requires IsChain(prob, cycleTime, v, k, u, d) || ComesIn(prob, cycleTime, v, k, u, d)
    ensures IsChain(prob, cycleTime, v, k + 1, u, d)
  {
    if !ComesIn(prob, cycleTime, v, k, u, d) && !(u == v && d == 0.0) {
      var j: nat :| j < k && ComesIn(prob, cycleTime, v, j, u, d);
      assert j < k + 1;
    }
  }

  /** What one more dependence does to the delay from `u`. */
  lemma KnownStep(prob: Problem, cycleTime: real, v: nat, k: nat, u: nat)
    requires prob.WellFormed() && prob.CheckChaining() && InTopologicalOrder(prob)
    requires v < prob.Size() && k < |prob.dependences[v]| && u in KnownChains(prob, cycleTime, v, k + 1)
    ensures var known, d := KnownChains(prob, cycleTime, v, k), KnownChains(prob, cycleTime, v, k + 1)[u];
            var dep := prob.dependences[v][k];
            var c := dep.src;
            || (u in known && d == known[u])
            || (!dep.auxiliary && c < v && prob.Latency(c) > 0 && u == c && d == prob.Outgoing(c))
            || (!dep.auxiliary && c < v && prob.Latency(c) == 0
                && u in Kept(prob, cycleTime, c, ChainsAt(prob, cycleTime, c))
                && (d == ChainsAt(prob, cycleTime, c)[u] + prob.Outgoing(c)
                    || (d == 0.0 && ChainsAt(prob, cycleTime, c)[u] + prob.Outgoing(c) < 0.0)))
  {
    BreakRunHandles(prob, cycleTime, v);
    ChainsKnown(prob, BreakRun(prob, cycleTime, v).chains, v, k);
    var dep := prob.dependences[v][k];
    if !dep.auxiliary {
      BreakRunRecords(prob, cycleTime, dep.src, v);
    }
  }

  /** Every delay recorded is that of a chain. */
  lemma {:induction false} RecordedAreChains(prob: Problem, cycleTime: real, v: nat, k: nat)
    requires prob.WellFormed() && prob.CheckChaining() && InTopologicalOrder(prob)
    requires v < prob.Size() && k <= |prob.dependences[v]|
    ensures RecordsChains(prob, cycleTime, v, k)
    decreases v, k
  {
    if k == 0 {
      FirstChain(prob, cycleTime, v);
    } else {
      RecordedAreChains(prob, cycleTime, v, k - 1);
      var dep := prob.dependences[v][k - 1];
      if !dep.auxiliary {
        RecordedAreChains(prob, cycleTime, dep.src, |prob.dependences[dep.src]|);
      }
      forall u: nat | u in KnownChains(prob, cycleTime, v, k)
        ensures IsChain(prob, cycleTime, v, k, u, KnownChains(prob, cycleTime, v, k)[u])
        ensures KnownChains(prob, cycleTime, v, k)[u] >= 0.0
      {
        MoreIsChain(prob, cycleTime, v, k - 1, u);
      }
    }
  }

  lemma MoreIsChain(prob: Problem, cycleTime: real, v: nat, k: nat, u: nat)
    requires prob.WellFormed() && prob.CheckChaining() && InTopologicalOrder(prob)
    requires v < prob.Size() && k < |prob.dependences[v]| && u in KnownChains(prob, cycleTime, v, k + 1)
    requires RecordsChains(prob, cycleTime, v, k)
    requires var dep := prob.dependences[v][k];
             !dep.auxiliary ==> RecordsChains(prob, cycleTime, dep.src, |prob.dependences[dep.src]|)
    ensures IsChain(prob, cycleTime, v, k + 1, u, KnownChains(prob, cycleTime, v, k + 1)[u])
    ensures KnownChains(prob, cycleTime, v, k + 1)[u] >= 0.0
  {
    KnownStep(prob, cycleTime, v, k, u);
    var dep := prob.dependences[v][k];
    assert prob.CheckDelays(prob.linked[dep.src].value);
    assert dep.src < v && u in ChainsAt(prob, cycleTime, dep.src) ==>
      ChainsAt(prob, cycleTime, dep.src) == KnownChains(prob, cycleTime, dep.src, |prob.dependences[dep.src]|);
    ComesInIsChain(prob, cycleTime, v, k, u, KnownChains(prob, cycleTime, v, k + 1)[u]);
  }

  /** Every chain through the first `k` dependences is recorded with at least its delay. */
  ghost predicate IsLongest(prob: Problem, cycleTime: real, v: nat, k: nat)
    requires prob.WellFormed() && prob.CheckChaining() && v < prob.Size() && k <= |prob.dependences[v]|
  {
    forall u: nat, d: real :: IsChain(prob, cycleTime, v, k, u, d) ==>
      u in KnownChains(prob, cycleTime, v, k) && KnownChains(prob, cycleTime, v, k)[u] >= d
  }

  lemma {:induction false} ChainIsRecorded(prob: Problem, cycleTime: real, v: nat, k: nat, u: nat, d: real)
    requires prob.WellFormed() && prob.CheckChaining() && InTopologicalOrder(prob) && NeverLowers(prob, cycleTime)
    requires v < prob.Size() && k <= |prob.dependences[v]| && IsChain(prob, cycleTime, v, k, u, d)
    ensures u in KnownChains(prob, cycleTime, v, k) && KnownChains(prob, cycleTime, v, k)[u] >= d
    decreases v
  {
    if u == v && d == 0.0 {
      OwnChain(prob, cycleTime, v, k);
    } else {
      var j: nat :| j < k && ComesIn(prob, cycleTime, v, j, u, d);
      var c := prob.dependences[v][j].src;
      if prob.Latency(c) > 0 {
        OverwrittenChain(prob, cycleTime, v, j);
      } else {
        ChainIsRecorded(prob, cycleTime, c, |prob.dependences[c]|, u, d - prob.Outgoing(c));
        ExtendedChain(prob, cycleTime, v, j, u);
      }
      ChainStays(prob, cycleTime, v, j + 1, k, u);
    }
  }

  /** An overwrite that lowers a delay loses a chain. */
  lemma LoweredIsLost(prob: Problem, cycleTime: real, v: nat, k: nat) returns (d: real)
    requires prob.WellFormed() && prob.CheckChaining() && InTopologicalOrder(prob)
    requires v < prob.Size() && k < |prob.dependences[v]| && Lowers(prob, cycleTime, v, k)
    ensures var u := prob.dependences[v][k].src;
            && IsChain(prob, cycleTime, v, k + 1, u, d)
            && u in KnownChains(prob, cycleTime, v, k + 1) && KnownChains(prob, cycleTime, v, k + 1)[u] < d
  {
    var u := prob.dependences[v][k].src;
    d := KnownChains(prob, cycleTime, v, k)[u];
    RecordedAreChains(prob, cycleTime, v, k);
    ComesInIsChain(prob, cycleTime, v, k, u, d);
    OverwrittenChain(prob, cycleTime, v, k);
  }

  /** At every operation, after each of its dependences, the delays recorded are those of the longest chains if and only
      if no dependence lowers one. */
  lemma LongestIffNeverLowers(prob: Problem, cycleTime: real)
    requires prob.WellFormed() && prob.CheckChaining() && InTopologicalOrder(prob)
    ensures (forall v: nat, k: nat :: v < prob.Size() && k <= |prob.dependences[v]| ==>
               IsLongest(prob, cycleTime, v, k))
            <==> NeverLowers(prob, cycleTime)
  {
    if NeverLowers(prob, cycleTime) {
      forall v: nat, k: nat | v < prob.Size() && k <= |prob.dependences[v]| ensures IsLongest(prob, cycleTime, v, k) {
        forall u: nat, d: real | IsChain(prob, cycleTime, v, k, u, d)
          ensures u in KnownChains(prob, cycleTime, v, k) && KnownChains(prob, cycleTime, v, k)[u] >= d
        {
          ChainIsRecorded(prob, cycleTime, v, k, u, d);
        }
      }
    } else {
      var v: nat, k: nat :| v < prob.Size() && k < |prob.dependences[v]| && Lowers(prob, cycleTime, v, k);
      var d := LoweredIsLost(prob, cycleTime, v, k);
      assert !IsLongest(prob, cycleTime, v, k + 1);
    }
  }

  // ---------------------------------------------------------------------------------------------
  // A condition on the problem alone
  // ---------------------------------------------------------------------------------------------

  /** No operation uses a multi-cycle result directly after using it through combinational operations. */
  ghost predicate NoDoubleUse(prob: Problem)
    requires prob.WellFormed() && prob.Check()
  {
    forall v, k, j :: 0 <= v < prob.Size() && 0 <= k < j < |prob.dependences[v]| ==>
      NoDoubleUseAt(prob, prob.dependences[v][k], prob.dependences[v][j])
  }

  ghost predicate NoDoubleUseAt(prob: Problem, first: Dependence, second: Dependence)
    requires prob.WellFormed() && prob.Check() && first.src < prob.Size() && second.src < prob.Size()
  {
    !first.auxiliary && !second.auxiliary && prob.Latency(first.src) == 0 && prob.Latency(second.src) > 0 ==>
      !Feeds(prob, second.src, first.src)
  }

  /** What is known of a multi-cycle operation that feeds no combinational predecessor is its own delay. */
  lemma {:induction false} KnownIsOwnDelay(prob: Problem, cycleTime: real, v: nat, k: nat, u: nat)
    requires prob.WellFormed() && prob.CheckChaining() && InTopologicalOrder(prob)
    requires v < prob.Size() && k <= |prob.dependences[v]| && u < v && prob.Latency(u) > 0
    requires forall j: nat ::
               j < k && !prob.dependences[v][j].auxiliary && prob.Latency(prob.dependences[v][j].src) == 0 ==>
                 !Feeds(prob, u, prob.dependences[v][j].src)
    requires u in KnownChains(prob, cycleTime, v, k)
    ensures KnownChains(prob, cycleTime, v, k)[u] == prob.Outgoing(u)
  {
    if k == 0 {
      BreakRunHandles(prob, cycleTime, v);
    } else {
      KnownStep(prob, cycleTime, v, k - 1, u);
      var c := prob.dependences[v][k - 1].src;
      ChainsFeed(prob, cycleTime, c, |prob.dependences[c]|);
      if u in KnownChains(prob, cycleTime, v, k - 1) {
        KnownIsOwnDelay(prob, cycleTime, v, k - 1, u);
      }
    }
  }

  lemma NoDoubleUseNeverLowers(prob: Problem, cycleTime: real)
    requires prob.WellFormed() && prob.CheckChaining() && InTopologicalOrder(prob) && NoDoubleUse(prob)
    ensures NeverLowers(prob, cycleTime)
  {
    forall v: nat, k: nat | v < prob.Size() && k < |prob.dependences[v]| ensures !Lowers(prob, cycleTime, v, k) {
      var u := prob.dependences[v][k].src;
      if Overwrites(prob, prob.dependences[v][k], u) && u in KnownChains(prob, cycleTime, v, k) {
        forall j: nat | j < k && !prob.dependences[v][j].auxiliary && prob.Latency(prob.dependences[v][j].src) == 0
          ensures !Feeds(prob, u, prob.dependences[v][j].src)
        {
          assert NoDoubleUseAt(prob, prob.dependences[v][j], prob.dependences[v][k]);
        }
        KnownIsOwnDelay(prob, cycleTime, v, k, u);
      }
    }
  }
}
