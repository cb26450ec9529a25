/** Which dependences survive when the initiation interval grows by one, and operations move. */
module ModuloMoves {
  import opened Options
  import opened Problems
  import opened Arithmetic
  import opened ReservationTable

  /** The destination does not start before the source ends, `distance` iterations later. */
  predicate Meets(from: nat, to: nat, latency: nat, distance: nat, ii: nat) {
    from + latency <= to + distance * ii
  }

  lemma QuotientsOrdered(t: nat, a: nat, b: nat, distance: nat)
    requires t > 0 && a <= b + distance * t
    ensures a / t <= b / t + distance
    ensures a / t == b / t + distance ==> a % t + (b + distance * t - a) == b % t
  {
    DivModOf(a, t);
    DivModOf(b, t);
    if a / t > b / t + distance {
      ProductOrder(b / t + distance, a / t, t);
    }
    DifferenceTimes(b / t, distance, t);
  }

  /** A dependence survives unless its source moves and its destination does not, while the dependence is tight and
      stays within one interval. */
  lemma SurvivesIff(t: nat, from: nat, moveFrom: nat, to: nat, moveTo: nat, latency: nat, distance: nat)
    requires t > 0 && moveFrom <= 1 && moveTo <= 1 && Meets(from, to, latency, distance, t)
    ensures Meets(Moved(t, from, moveFrom), Moved(t, to, moveTo), latency, distance, t + 1) <==>
            moveFrom <= moveTo || from + latency < to + distance * t || from / t < to / t + distance
  {
    QuotientsOrdered(t, from, to, distance);
    assert distance * (t + 1) == distance * t + distance;
  }

  /** Dependences between operations of the type that is moved survive, with that of the new operation as well: if the
      source moves, the destination is in a later slot, and moves, too. */
  lemma SameTypeSurvives(prob: Problem, t: nat, n: nat, stN: nat, i: nat, stI: nat, j: nat, stJ: nat, latency: nat,
                         distance: nat)
    requires t > 0 && n < prob.Size() && i < prob.Size() && j < prob.Size()
    requires prob.linked[i] == prob.linked[n] && prob.linked[j] == prob.linked[n]
    requires latency > 0 && Meets(stI, stJ, latency, distance, t)
    ensures Meets(NewTime(prob, t, n, stN, i, stI), NewTime(prob, t, n, stN, j, stJ), latency, distance, t + 1)
  {
    QuotientsOrdered(t, stI, stJ, distance);
    SurvivesIff(t, stI, if HasToMove(prob, t, n, stN, i, stI) then 1 else 0, stJ,
                if HasToMove(prob, t, n, stN, j, stJ) then 1 else 0, latency, distance);
  }

  /** The same for dependences from and to the new operation, which stays in its slot or moves to the next one. */
  lemma NewOperationSurvives(prob: Problem, t: nat, n: nat, stN: nat, deltaN: nat, j: nat, stJ: nat, latency: nat,
                             distance: nat)
    requires t > 0 && n < prob.Size() && j < prob.Size() && prob.linked[j] == prob.linked[n]
    requires latency > 0 && deltaN <= 1
    ensures Meets(stN, stJ, latency, distance, t) ==>
              Meets(Moved(t, stN, deltaN), NewTime(prob, t, n, stN, j, stJ), latency, distance, t + 1)
    ensures Meets(stJ, stN, latency, distance, t) ==>
              Meets(NewTime(prob, t, n, stN, j, stJ), Moved(t, stN, deltaN), latency, distance, t + 1)
  {
    var moveJ := if HasToMove(prob, t, n, stN, j, stJ) then 1 else 0;
    if Meets(stN, stJ, latency, distance, t) {
      QuotientsOrdered(t, stN, stJ, distance);
      SurvivesIff(t, stN, deltaN, stJ, moveJ, latency, distance);
    }
    if Meets(stJ, stN, latency, distance, t) {
      QuotientsOrdered(t, stJ, stN, distance);
      SurvivesIff(t, stJ, moveJ, stN, deltaN, latency, distance);
    }
  }

  /** Operations 1 and 2 share an instance, and operation 0, of another type, uses the results of both. */
  const TWO_TYPES := Problem([Some(0), Some(1), Some(1)],
                             [OperatorType(Some(1), Some(1), None, None), OperatorType(Some(1), Some(1), None, None)],
                             [[Dependence(1, 0, false, None), Dependence(2, 0, false, None)], [], []])

  /** In the second time step, and in the first one. */
  const FIXED_TIMES: map<nat, nat> := map[0 := 1, 1 := 0]

  function WithTwoAt(time: nat): map<nat, nat> {
    FIXED_TIMES[2 := time]
  }

  lemma OnlyFirstStep(ii: nat)
    requires ii > 0
    ensures TWO_TYPES.WellFormed() && TWO_TYPES.CheckShared()
    ensures TWO_TYPES.VerifyCyclic(WithTwoAt(0), ii)
    ensures forall later: nat :: later > 0 ==> !TWO_TYPES.VerifyCyclic(WithTwoAt(later), ii)
  {
    forall later: nat | later > 0 ensures !TWO_TYPES.VerifyCyclic(WithTwoAt(later), ii) {
      var dep := TWO_TYPES.dependences[0][1];
      assert !TWO_TYPES.PrecedesCyclic(dep, WithTwoAt(later), ii);
    }
  }

  lemma NothingMoves()
    ensures TWO_TYPES.WellFormed() && TWO_TYPES.Check()
    ensures NewTimes(TWO_TYPES, 2, 2, 0, FIXED_TIMES, FIXED_TIMES.Keys) == FIXED_TIMES
    ensures !MakesRoom(TWO_TYPES, 2, 2, 0, FIXED_TIMES) && Moved(2, 0, 1) == 1
  {
  }

  /** Operation 2 would start with operation 1, and cannot start later in an interval of two steps. In the interval of
      three steps it starts one step later, and operation 0 stays, although it depends on it: the source asserts that
      this cannot happen. */
  lemma OtherTypeDoesNotSurvive()
    ensures TWO_TYPES.WellFormed() && TWO_TYPES.CheckShared()
    ensures TWO_TYPES.VerifyCyclic(WithTwoAt(0), 2)
    ensures forall later: nat :: later > 0 ==> !TWO_TYPES.VerifyCyclic(WithTwoAt(later), 2)
    ensures InSlots(FIXED_TIMES, 2, FIXED_TIMES) && Fits(TWO_TYPES, FIXED_TIMES)
    ensures !MakesRoom(TWO_TYPES, 2, 2, 0, FIXED_TIMES)
    ensures var newTimes := NewTimes(TWO_TYPES, 2, 2, 0, FIXED_TIMES, FIXED_TIMES.Keys);
            !TWO_TYPES.VerifyCyclic(newTimes[2 := Moved(2, 0, 1)], 3)
  {
    OnlyFirstStep(2);
    OnlyFirstStep(3);
    NothingMoves();
    SlotsFit();
    assert !TWO_TYPES.VerifyCyclic(WithTwoAt(1), 3);
  }

  lemma SlotsFit()
    ensures Fits(TWO_TYPES, FIXED_TIMES)
  {
    forall opr: nat, slot: nat ensures |Sharing(TWO_TYPES, FIXED_TIMES, opr, slot)| <= LimitOf(TWO_TYPES, opr) {
      var ops := Sharing(TWO_TYPES, FIXED_TIMES, opr, slot);
      assert ops <= if opr == 0 then {0} else if opr == 1 then {1} else {};
      SubsetIsSmallerOrEqual(ops, if opr == 0 then {0} else if opr == 1 then {1} else {});
    }
  }

  lemma {:induction false} SubsetIsSmallerOrEqual(a: set<nat>, b: set<nat>)
    requires a <= b
    ensures |a| <= |b|
  {
    if a != {} {
      var x :| x in a;
      SubsetIsSmallerOrEqual(a - {x}, b - {x});
    }
  }
}
