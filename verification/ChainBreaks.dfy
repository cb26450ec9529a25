/** Which chains are broken: only those that exceed the cycle time, and all of them unless a delay is lowered. */
module ChainBreaks {
  import opened Options
  import opened Problems
  import opened Topological
  import opened ChainingTheory
  import opened ChainDelays

  /** The chain-breaking dependences of the problem, where the pass that computes them succeeds. */
  function Breaks(prob: Problem, cycleTime: real): set<(nat, nat)>
    requires prob.WellFormed() && prob.CheckChaining()
  {
    Drive(prob, BreakChains(cycleTime), State(map[], map[], map[], {}), AllOperations(prob)).0.breaks
  }

  // ---------------------------------------------------------------------------------------------
  // In topological order
  // ---------------------------------------------------------------------------------------------

  /** The delay recorded for the chain from `u` to `v` exceeds the cycle time. */
  ghost predicate Exceeds(prob: Problem, cycleTime: real, u: nat, v: nat)
    requires prob.WellFormed() && prob.CheckChaining() && v < prob.Size()
  {
    u in ChainsAt(prob, cycleTime, v) && ChainsAt(prob, cycleTime, v)[u] + prob.Incoming(v) > cycleTime
  }

  lemma {:induction false} BreaksOfRun(prob: Problem, cycleTime: real, m: nat, u: nat, v: nat)
    requires prob.WellFormed() && prob.CheckChaining() && InTopologicalOrder(prob) && m <= prob.Size()
    ensures (u, v) in BreakRun(prob, cycleTime, m).breaks <==> v < m && Exceeds(prob, cycleTime, u, v)
  {
    if m > 0 {
      BreaksOfRun(prob, cycleTime, m - 1, u, v);
      BreakRunHandles(prob, cycleTime, m - 1);
      ChainsKnown(prob, BreakRun(prob, cycleTime, m - 1).chains, m - 1, |prob.dependences[m - 1]|);
    }
  }

  lemma BreaksIff(prob: Problem, cycleTime: real, u: nat, v: nat)
    requires prob.WellFormed() && prob.CheckChaining() && InTopologicalOrder(prob)
    ensures (u, v) in Breaks(prob, cycleTime) <==> v < prob.Size() && Exceeds(prob, cycleTime, u, v)
  {
    DriveIsBreakRun(prob, cycleTime);
    BreaksOfRun(prob, cycleTime, prob.Size(), u, v);
  }

  /** Only chains that exceed the cycle time are broken. */
  lemma BreaksAreChains(prob: Problem, cycleTime: real, u: nat, v: nat) returns (d: real)
    requires prob.WellFormed() && prob.CheckChaining() && InTopologicalOrder(prob)
    requires (u, v) in Breaks(prob, cycleTime)
    ensures v < prob.Size() && IsChain(prob, cycleTime, v, |prob.dependences[v]|, u, d)
    ensures d + prob.Incoming(v) > cycleTime
  {
    BreaksIff(prob, cycleTime, u, v);
    RecordedAreChains(prob, cycleTime, v, |prob.dependences[v]|);
    assert ChainsAt(prob, cycleTime, v) == KnownChains(prob, cycleTime, v, |prob.dependences[v]|);
    d := ChainsAt(prob, cycleTime, v)[u];
  }

  // ---------------------------------------------------------------------------------------------
  // Chains without the records of the pass
  // ---------------------------------------------------------------------------------------------

  /** There is enough of the cycle time left for `v` after these delays. */
  ghost predicate Fit(prob: Problem, cycleTime: real, delays: iset<real>, v: nat)
    requires prob.WellFormed() && prob.CheckChaining() && v < prob.Size()
  {
    forall d: real :: d in delays ==> d + prob.Incoming(v) <= cycleTime
  }

  /** The delays of all chains from `u` to `v` that have not been broken before `v`. */
  ghost function UnbrokenDelays(prob: Problem, cycleTime: real, u: nat, v: nat): iset<real>
    requires prob.WellFormed() && prob.CheckChaining() && v < prob.Size()
    decreases v, 2
  {
    iset d: real | IsUnbroken(prob, cycleTime, u, v, d)
  }

  ghost predicate IsUnbroken(prob: Problem, cycleTime: real, u: nat, v: nat, d: real)
    requires prob.WellFormed() && prob.CheckChaining() && v < prob.Size()
    decreases v, 1
  {
    || (u == v && d == 0.0)
    || exists j: nat :: j < |prob.dependences[v]| && !prob.dependences[v][j].auxiliary &&
         var c := prob.dependences[v][j].src;
         c < v && Extends(prob, cycleTime, c, u, UnbrokenDelays(prob, cycleTime, u, c), d)
  }

  /** A chain that goes on through `c`. A multi-cycle operation starts a chain; a combinational one extends those that
      reach it, unless one of them is too long for it. */
  ghost predicate Extends(prob: Problem, cycleTime: real, c: nat, u: nat, delays: iset<real>, d: real)
    requires prob.WellFormed() && prob.CheckChaining() && c < prob.Size()
  {
    if prob.Latency(c) > 0 then u == c && d == prob.Outgoing(c)
    else Fit(prob, cycleTime, delays, c) && d - prob.Outgoing(c) in delays
  }

  /** Some chain from `u` to `v` does not leave enough of the cycle time for `v`. */
  ghost predicate TooLong(prob: Problem, cycleTime: real, u: nat, v: nat)
    requires prob.WellFormed() && prob.CheckChaining() && v < prob.Size()
  {
    !Fit(prob, cycleTime, UnbrokenDelays(prob, cycleTime, u, v), v)
  }

  /** The records of the pass say the same as the definition. */
  lemma {:induction false} RecordsAreRight(prob: Problem, cycleTime: real, u: nat, v: nat)
    requires prob.WellFormed() && prob.CheckChaining() && InTopologicalOrder(prob) && NeverLowers(prob, cycleTime)
    requires v < prob.Size()
    ensures forall d: real ::
              d in UnbrokenDelays(prob, cycleTime, u, v) <==> IsChain(prob, cycleTime, v, |prob.dependences[v]|, u, d)
    decreases v, 0
  {
    var n := |prob.dependences[v]|;
    forall d: real, j: nat | j < n && !prob.dependences[v][j].auxiliary
      ensures var c := prob.dependences[v][j].src;
              c < v && (Extends(prob, cycleTime, c, u, UnbrokenDelays(prob, cycleTime, u, c), d) <==>
                        ComesIn(prob, cycleTime, v, j, u, d))
    {
      var c := prob.dependences[v][j].src;
      RecordsAreRight(prob, cycleTime, u, c);
      TooLongIffExceeds(prob, cycleTime, u, c);
      if IsChain(prob, cycleTime, c, |prob.dependences[c]|, u, d - prob.Outgoing(c)) {
        ChainIsRecorded(prob, cycleTime, c, |prob.dependences[c]|, u, d - prob.Outgoing(c));
      }
    }
    forall d: real ensures d in UnbrokenDelays(prob, cycleTime, u, v) <==> IsChain(prob, cycleTime, v, n, u, d) {
      UnbrokenMeans(prob, cycleTime, u, v, d);
    }
  }

  lemma UnbrokenMeans(prob: Problem, cycleTime: real, u: nat, v: nat, d: real)
    requires prob.WellFormed() && prob.CheckChaining() && v < prob.Size()
    ensures d in UnbrokenDelays(prob, cycleTime, u, v) <==>
              || (u == v && d == 0.0)
              || exists j: nat :: j < |prob.dependences[v]| && !prob.dependences[v][j].auxiliary &&
                   var c := prob.dependences[v][j].src;
                   c < v && Extends(prob, cycleTime, c, u, UnbrokenDelays(prob, cycleTime, u, c), d)
  {
    assert d in UnbrokenDelays(prob, cycleTime, u, v) <==> IsUnbroken(prob, cycleTime, u, v, d);
  }

  lemma {:induction false} TooLongIffExceeds(prob: Problem, cycleTime: real, u: nat, v: nat)
    requires prob.WellFormed() && prob.CheckChaining() && InTopologicalOrder(prob) && NeverLowers(prob, cycleTime)
    requires v < prob.Size()
    ensures TooLong(prob, cycleTime, u, v) <==> Exceeds(prob, cycleTime, u, v)
    decreases v, 1
  {
    var n := |prob.dependences[v]|;
    RecordsAreRight(prob, cycleTime, u, v);
    RecordedAreChains(prob, cycleTime, v, n);
    assert ChainsAt(prob, cycleTime, v) == KnownChains(prob, cycleTime, v, n);
    if TooLong(prob, cycleTime, u, v) {
      var d: real :| d in UnbrokenDelays(prob, cycleTime, u, v) && d + prob.Incoming(v) > cycleTime;
      ChainIsRecorded(prob, cycleTime, v, n, u, d);
    }
  }

  /** Exactly the chains that are too long are broken, unless a dependence lowers the delay of one. */
  lemma BreaksIffTooLong(prob: Problem, cycleTime: real, u: nat, v: nat)
    requires prob.WellFormed() && prob.CheckChaining() && InTopologicalOrder(prob) && NeverLowers(prob, cycleTime)
    ensures (u, v) in Breaks(prob, cycleTime) <==> v < prob.Size() && TooLong(prob, cycleTime, u, v)
  {
    BreaksIff(prob, cycleTime, u, v);
    if v < prob.Size() {
      TooLongIffExceeds(prob, cycleTime, u, v);
    }
  }

  /** Operations on a chain that is too long are in different cycles. */
  ghost predicate KeepsApart(prob: Problem, cycleTime: real, startTime: map<nat, nat>)
    requires prob.WellFormed() && prob.CheckChaining() && prob.Started(startTime)
  {
    forall u: nat, v: nat :: u < prob.Size() && v < prob.Size() && TooLong(prob, cycleTime, u, v) ==>
      startTime[u] + prob.Latency(u) < startTime[v]
  }

  lemma RespectsIffKeepsApart(prob: Problem, cycleTime: real, startTime: map<nat, nat>)
    requires prob.WellFormed() && prob.CheckChaining() && InTopologicalOrder(prob) && NeverLowers(prob, cycleTime)
    requires prob.Started(startTime)
    ensures RespectsBreaks(prob, startTime, Breaks(prob, cycleTime)) <==> KeepsApart(prob, cycleTime, startTime)
  {
    var breaks := Breaks(prob, cycleTime);
    forall u: nat, v: nat ensures (u, v) in breaks <==> v < prob.Size() && TooLong(prob, cycleTime, u, v) {
      BreaksIffTooLong(prob, cycleTime, u, v);
    }
  }

  // ---------------------------------------------------------------------------------------------
  // In any order
  // ---------------------------------------------------------------------------------------------

  /** A path of `n` dependences from `u` to `v` through combinational operations, and its delay. */
  ghost predicate IsCombPath(prob: Problem, u: nat, v: nat, d: real, n: nat)
    requires prob.WellFormed() && prob.CheckChaining() && v < prob.Size()
    decreases n
  {
    if n == 0 then u == v && d == 0.0 else
      exists j: nat :: j < |prob.dependences[v]| && !prob.dependences[v][j].auxiliary &&
        var c := prob.dependences[v][j].src;
        if prob.Latency(c) > 0 then n == 1 && u == c && d == prob.Outgoing(c)
        else IsCombPath(prob, u, c, d - prob.Outgoing(c), n - 1)
  }

  ghost predicate HasCombPath(prob: Problem, u: nat, v: nat, d: real)
    requires prob.WellFormed() && prob.CheckChaining() && v < prob.Size()
  {
    exists n: nat :: IsCombPath(prob, u, v, d, n)
  }

  ghost predicate AllPathsFit(prob: Problem, cycleTime: real)
    requires prob.WellFormed() && prob.CheckChaining()
  {
    forall u: nat, v: nat, d: real :: v < prob.Size() && HasCombPath(prob, u, v, d) ==>
      d + prob.Incoming(v) <= cycleTime
  }

  ghost predicate ArePaths(prob: Problem, v: nat, chains: map<nat, real>)
    requires prob.WellFormed() && prob.CheckChaining() && v < prob.Size()
  {
    forall u: nat :: u in chains ==> chains[u] >= 0.0 && HasCombPath(prob, u, v, chains[u])
  }

  ghost predicate BreakExceeds(prob: Problem, cycleTime: real, u: nat, v: nat)
    requires prob.WellFormed() && prob.CheckChaining()
  {
    v < prob.Size() && exists d: real :: HasCombPath(prob, u, v, d) && d + prob.Incoming(v) > cycleTime
  }

  ghost predicate RecordsPaths(prob: Problem, cycleTime: real, st: State)
    requires prob.WellFormed() && prob.CheckChaining()
  {
    && (forall v: nat :: v in st.chains ==> v < prob.Size() && ArePaths(prob, v, st.chains[v]))
    && forall u: nat, v: nat :: (u, v) in st.breaks ==> BreakExceeds(prob, cycleTime, u, v)
  }

  lemma PathThrough(prob: Problem, u: nat, v: nat, j: nat, d: real, longer: real)
    requires prob.WellFormed() && prob.CheckChaining() && v < prob.Size() && j < |prob.dependences[v]|
    requires !prob.dependences[v][j].auxiliary && prob.Latency(prob.dependences[v][j].src) == 0
    requires HasCombPath(prob, u, prob.dependences[v][j].src, d)
    requires longer == d + prob.Outgoing(prob.dependences[v][j].src)
    ensures HasCombPath(prob, u, v, longer)
  {
    var c := prob.dependences[v][j].src;
    var n: nat :| IsCombPath(prob, u, c, d, n);
    assert longer - prob.Outgoing(c) == d;
    assert IsCombPath(prob, u, v, longer, n + 1);
  }

  lemma PathsThrough(prob: Problem, v: nat, j: nat, known: map<nat, real>, incoming: map<nat, real>)
    requires prob.WellFormed() && prob.CheckChaining() && v < prob.Size() && j < |prob.dependences[v]|
    requires !prob.dependences[v][j].auxiliary && prob.Latency(prob.dependences[v][j].src) == 0
    requires ArePaths(prob, v, known) && ArePaths(prob, prob.dependences[v][j].src, incoming)
    ensures ArePaths(prob, v, Extend(known, incoming, prob.Outgoing(prob.dependences[v][j].src)))
  {
    var delay := prob.Outgoing(prob.dependences[v][j].src);
    var extended := Extend(known, incoming, delay);
    forall u: nat | u in extended ensures extended[u] >= 0.0 && HasCombPath(prob, u, v, extended[u]) {
      if u in incoming {
        PathThrough(prob, u, v, j, incoming[u], incoming[u] + delay);
      }
    }
  }

  lemma {:induction false} IncomingArePaths(prob: Problem, cycleTime: real, st: State, op: nat, k: nat)
    requires prob.WellFormed() && prob.CheckChaining() && op < prob.Size() && k <= |prob.dependences[op]|
    requires RecordsPaths(prob, cycleTime, st)
    ensures ArePaths(prob, op, IncomingChains(prob, st.chains, op, k).0)
  {
    if k == 0 {
      assert IsCombPath(prob, op, op, 0.0, 0);
    } else {
      var (known, ok) := IncomingChains(prob, st.chains, op, k - 1);
      var dep := prob.dependences[op][k - 1];
      IncomingArePaths(prob, cycleTime, st, op, k - 1);
      if ok && !dep.auxiliary && (dep.src == op || dep.src in st.chains) {
        if prob.Latency(dep.src) > 0 {
          assert IsCombPath(prob, dep.src, op, prob.Outgoing(dep.src), 1);
        } else {
          PathsThrough(prob, op, k - 1, known, if dep.src == op then known else st.chains[dep.src]);
        }
      }
    }
  }

  lemma StepRecordsPaths(prob: Problem, cycleTime: real, st: State, op: nat)
    requires prob.WellFormed() && prob.CheckChaining() && op < prob.Size() && RecordsPaths(prob, cycleTime, st)
    ensures RecordsPaths(prob, cycleTime, BreakStep(prob, cycleTime, st, op).0)
  {
    IncomingArePaths(prob, cycleTime, st, op, |prob.dependences[op]|);
  }

  lemma {:induction false} AttemptRecordsPaths(prob: Problem, cycleTime: real, st: State, ops: seq<nat>)
    requires Suits(prob, BreakChains(cycleTime), st) && Registered(prob, ops) && RecordsPaths(prob, cycleTime, st)
    ensures RecordsPaths(prob, cycleTime, Attempt(prob, BreakChains(cycleTime), st, ops).0)
    decreases |ops|
  {
    if ops != [] {
      StepRecordsPaths(prob, cycleTime, st, ops[0]);
      AttemptRecordsPaths(prob, cycleTime, BreakStep(prob, cycleTime, st, ops[0]).0, ops[1..]);
    }
  }

  lemma {:induction false} DriveRecordsPaths(prob: Problem, cycleTime: real, st: State, ops: seq<nat>)
    requires Suits(prob, BreakChains(cycleTime), st) && Registered(prob, ops) && RecordsPaths(prob, cycleTime, st)
    ensures RecordsPaths(prob, cycleTime, Drive(prob, BreakChains(cycleTime), st, ops).0)
    decreases |ops|
  {
    if ops != [] {
      AttemptRecordsPaths(prob, cycleTime, st, ops);
      var (st1, failed) := Attempt(prob, BreakChains(cycleTime), st, ops);
      if |failed| != |ops| {
        DriveRecordsPaths(prob, cycleTime, st1, failed);
      }
    }
  }

  /** Whatever the order of the operations, even if values are passed around in a cycle: only where a path through
      combinational operations exceeds the cycle time there is a break, and there is none if all paths fit. */
  lemma BreaksArePaths(prob: Problem, cycleTime: real)
    requires prob.WellFormed() && prob.CheckChaining()
    ensures forall u: nat, v: nat :: (u, v) in Breaks(prob, cycleTime) ==> BreakExceeds(prob, cycleTime, u, v)
    ensures AllPathsFit(prob, cycleTime) ==> Breaks(prob, cycleTime) == {}
  {
    DriveRecordsPaths(prob, cycleTime, State(map[], map[], map[], {}), AllOperations(prob));
    if AllPathsFit(prob, cycleTime) {
      forall b: (nat, nat) ensures b !in Breaks(prob, cycleTime) {
        NoneExceeds(prob, cycleTime, b.0, b.1);
        assert b == (b.0, b.1);
      }
    }
  }

  lemma NoneExceeds(prob: Problem, cycleTime: real, u: nat, v: nat)
    requires prob.WellFormed() && prob.CheckChaining() && AllPathsFit(prob, cycleTime)
    ensures !BreakExceeds(prob, cycleTime, u, v)
  {
  }
}
