/** The modulo reservation table, and how the initiation interval is incremented to make room for an operation. */
module ReservationTable {
  // The solver is taken to leave the moved start times and the interval as they are.

  import opened Options
  import opened Problems
  import opened Arithmetic

  type Tables = map<nat, map<nat, set<nat>>>
  type ReverseTables = map<nat, map<nat, nat>>

  function LimitOf(prob: Problem, opr: nat): nat {
    if opr < |prob.operatorTypes| then prob.operatorTypes[opr].limit.ValueOr(0) else 0
  }

  predicate IsLimited(prob: Problem, op: nat) {
    op < prob.Size() && prob.linked[op].Some? && LimitOf(prob, prob.linked[op].value) > 0
  }

  // ---------------------------------------------------------------------------------------------
  // Occupied slots
  // ---------------------------------------------------------------------------------------------

  predicate IsIn(prob: Problem, slots: map<nat, nat>, opr: nat, slot: nat, op: nat) {
    op in slots && op < prob.Size() && prob.linked[op] == Some(opr) && slots[op] == slot
  }

  /** The operations on an operator type in a slot. */
  ghost function Sharing(prob: Problem, slots: map<nat, nat>, opr: nat, slot: nat): set<nat> {
    set op | op in slots && IsIn(prob, slots, opr, slot, op)
  }

  /** Only limited operations are entered, and no slot is oversubscribed. */
  ghost predicate Fits(prob: Problem, slots: map<nat, nat>) {
    && (forall op :: op in slots ==> IsLimited(prob, op))
    && forall opr: nat, slot: nat :: |Sharing(prob, slots, opr, slot)| <= LimitOf(prob, opr)
  }

  function Cell(tables: Tables, opr: nat, slot: nat): set<nat> {
    if opr in tables && slot in tables[opr] then tables[opr][slot] else {}
  }

  function Find(reverse: ReverseTables, opr: nat, op: nat): Option<nat> {
    if opr in reverse && op in reverse[opr] then Some(reverse[opr][op]) else None
  }

  function WithCell(tables: Tables, opr: nat, slot: nat, cell: set<nat>): Tables {
    var row: map<nat, set<nat>> := if opr in tables then tables[opr] else map[];
    var row': map<nat, set<nat>> := row[slot := cell];
    tables[opr := row']
  }

  function WithEntry(reverse: ReverseTables, opr: nat, op: nat, slot: nat): ReverseTables {
    var row: map<nat, nat> := if opr in reverse then reverse[opr] else map[];
    var row': map<nat, nat> := row[op := slot];
    reverse[opr := row']
  }

  function WithoutEntry(reverse: ReverseTables, opr: nat, op: nat): ReverseTables
    requires opr in reverse
  {
    var row: map<nat, nat> := reverse[opr] - {op};
    reverse[opr := row]
  }

  /** Both kinds of tables list the slots of the entered operations. */
  ghost predicate Mirrors(prob: Problem, slots: map<nat, nat>, tables: Tables, reverse: ReverseTables) {
    && (forall opr: nat, slot: nat :: Cell(tables, opr, slot) == Sharing(prob, slots, opr, slot))
    && (forall opr: nat, op: nat :: Find(reverse, opr, op) ==
          if op in slots && op < prob.Size() && prob.linked[op] == Some(opr) then Some(slots[op]) else None)
  }

  lemma {:induction false} SubsetIsSmaller(a: set<nat>, b: set<nat>)
    requires a <= b
    ensures |a| <= |b| && (a != b ==> |a| < |b|)
  {
    if a != {} {
      var x :| x in a;
      SubsetIsSmaller(a - {x}, b - {x});
    }
  }

  lemma SharingAfterEntry(prob: Problem, slots: map<nat, nat>, op: nat, slot: nat, opr: nat, s: nat)
    requires op < prob.Size() && op !in slots
    ensures Sharing(prob, slots[op := slot], opr, s)
         == Sharing(prob, slots, opr, s) + (if prob.linked[op] == Some(opr) && s == slot then {op} else {})
  {
    var slots' := slots[op := slot];
    forall v ensures v in Sharing(prob, slots', opr, s) <==>
                     v in Sharing(prob, slots, opr, s) || (v == op && prob.linked[op] == Some(opr) && s == slot)
    {
    }
  }

  lemma SharingAfterRelease(prob: Problem, slots: map<nat, nat>, op: nat, opr: nat, s: nat)
    ensures Sharing(prob, slots - {op}, opr, s) == Sharing(prob, slots, opr, s) - {op}
  {
  }

  lemma EnteringFits(prob: Problem, slots: map<nat, nat>, op: nat, slot: nat)
    requires Fits(prob, slots) && IsLimited(prob, op) && op !in slots
    requires |Sharing(prob, slots, prob.linked[op].value, slot)| < LimitOf(prob, prob.linked[op].value)
    ensures Fits(prob, slots[op := slot])
  {
    var slots' := slots[op := slot];
    forall opr: nat, s: nat ensures |Sharing(prob, slots', opr, s)| <= LimitOf(prob, opr) {
      SharingAfterEntry(prob, slots, op, slot, opr, s);
    }
  }

  lemma FewerFit(prob: Problem, slots: map<nat, nat>, fewer: map<nat, nat>)
    requires Fits(prob, slots) && forall v :: v in fewer ==> v in slots && fewer[v] == slots[v]
    ensures Fits(prob, fewer)
  {
    forall opr: nat, s: nat ensures |Sharing(prob, fewer, opr, s)| <= LimitOf(prob, opr) {
      SubsetIsSmaller(Sharing(prob, fewer, opr, s), Sharing(prob, slots, opr, s));
    }
  }

  lemma EntryMirrors(prob: Problem, slots: map<nat, nat>, tables: Tables, reverse: ReverseTables, op: nat, slot: nat)
    requires Mirrors(prob, slots, tables, reverse) && op < prob.Size() && prob.linked[op].Some? && op !in slots
    ensures var opr := prob.linked[op].value;
            Mirrors(prob, slots[op := slot], WithCell(tables, opr, slot, Cell(tables, opr, slot) + {op}),
                    WithEntry(reverse, opr, op, slot))
  {
    var opr := prob.linked[op].value;
    var tables' := WithCell(tables, opr, slot, Cell(tables, opr, slot) + {op});
    var reverse', slots' := WithEntry(reverse, opr, op, slot), slots[op := slot];
    forall o: nat, s: nat ensures Cell(tables', o, s) == Sharing(prob, slots', o, s) {
      assert Cell(tables, o, s) == Sharing(prob, slots, o, s);
      SharingAfterEntry(prob, slots, op, slot, o, s);
    }
    forall o: nat, v: nat ensures Find(reverse', o, v) ==
      if v in slots' && v < prob.Size() && prob.linked[v] == Some(o) then Some(slots'[v]) else None
    {
      assert Find(reverse, o, v) ==
        if v in slots && v < prob.Size() && prob.linked[v] == Some(o) then Some(slots[v]) else None;
    }
  }

  lemma ReleaseMirrors(prob: Problem, slots: map<nat, nat>, tables: Tables, reverse: ReverseTables, op: nat,
                       tables': Tables, reverse': ReverseTables)
    requires Mirrors(prob, slots, tables, reverse) && op < prob.Size() && prob.linked[op].Some? && op in slots
    requires forall opr: nat, s: nat :: Cell(tables', opr, s) == Cell(tables, opr, s) - {op}
    requires forall opr: nat, v: nat :: Find(reverse', opr, v) == if v == op then None else Find(reverse, opr, v)
    ensures Mirrors(prob, slots - {op}, tables', reverse')
  {
    forall opr: nat, s: nat ensures Cell(tables', opr, s) == Sharing(prob, slots - {op}, opr, s) {
      SharingAfterRelease(prob, slots, op, opr, s);
    }
  }

  function Elements(s: seq<nat>): set<nat> {
    set x | x in s
  }

  /** The sequence has exactly the elements of the set, each once. */
  ghost predicate Lists(s: seq<nat>, elements: set<nat>) {
    && (forall x :: x in elements <==> x in s)
    && forall i, j :: 0 <= i < j < |s| ==> s[i] != s[j]
  }

  // ---------------------------------------------------------------------------------------------
  // The table
  // ---------------------------------------------------------------------------------------------

  /** `tables[opr][slot]` lists the operations in a slot, and `reverseTables[opr][op]` is the slot of an operation. */
  class MRT {
    const prob: Problem
    var parameterT: nat
    var tables: Tables
    var reverseTables: ReverseTables
    ghost var slots: map<nat, nat>

    ghost predicate Valid()
      reads this
    {
      parameterT > 0 && Fits(prob, slots) && Mirrors(prob, slots, tables, reverseTables)
    }

    constructor (prob: Problem, t: nat)
      requires t > 0
      ensures Valid() && this.prob == prob && parameterT == t && slots == map[]
    {
      this.prob, parameterT := prob, t;
      tables, reverseTables, slots := map[], map[], map[];
    }

    /** Enters the operation into its slot, if that has a free instance. */
    method Enter(op: nat, timeStep: nat) returns (ok: bool)
      requires Valid() && IsLimited(prob, op) && op !in slots
      modifies this`tables, this`reverseTables, this`slots
      ensures Valid()
      ensures ok <==> |Sharing(prob, old(slots), prob.linked[op].value, timeStep % parameterT)|
                      < LimitOf(prob, prob.linked[op].value)
      ensures slots == if ok then old(slots)[op := timeStep % parameterT] else old(slots)
    {
      var opr := prob.linked[op].value;
      var slot := timeStep % parameterT;
      var cell := Cell(tables, opr, slot);
      assert cell == Sharing(prob, slots, opr, slot);
      if |cell| >= LimitOf(prob, opr) {
        return false;
      }
      EnteringFits(prob, slots, op, slot);
      EntryMirrors(prob, slots, tables, reverseTables, op, slot);
      tables := WithCell(tables, opr, slot, cell + {op});
      reverseTables := WithEntry(reverseTables, opr, op, slot);
      slots := slots[op := slot];
      return true;
    }

    method Release(op: nat)
      requires Valid() && op in slots
      modifies this`tables, this`reverseTables, this`slots
      ensures Valid() && slots == old(slots) - {op}
    {
      assert IsLimited(prob, op);
      var opr := prob.linked[op].value;
      assert Find(reverseTables, opr, op) == Some(slots[op]);
      var slot := reverseTables[opr][op];
      assert op in Sharing(prob, slots, opr, slot) && op in Cell(tables, opr, slot);
      ReleaseChanges(prob, slots, tables, reverseTables, op, slot);
      FewerFit(prob, slots, slots - {op});
      tables := WithCell(tables, opr, slot, Cell(tables, opr, slot) - {op});
      reverseTables := WithoutEntry(reverseTables, opr, op);
      slots := slots - {op};
    }

    /** The last resort of `scheduleOperation`: the interval grows by one, the fixed operations are shifted, the
        moved ones are entered into their new slots, and `n` into the place that this has made for it. Entering never
        fails. */
    method IncrementInterval(n: nat, stN: nat, scheduled: seq<nat>, times: map<nat, nat>)
      returns (newTimes: map<nat, nat>, timeN: nat)
      requires Valid() && IsLimited(prob, n) && n !in slots && InSlots(slots, parameterT, times)
      requires forall j :: j in times ==> j < prob.Size()
      requires Lists(scheduled, times.Keys)
      modifies this
      ensures Valid() && parameterT == old(parameterT) + 1
      ensures newTimes == NewTimes(prob, old(parameterT), n, stN, times, times.Keys)
      ensures timeN == Moved(old(parameterT), stN, if MakesRoom(prob, old(parameterT), n, stN, times) then 0 else 1)
      ensures InSlots(slots, parameterT, newTimes[n := timeN])
      ensures MovesByOne(prob, old(parameterT), n, stN, times, old(slots), slots)
    {
      ghost var t, slots0 := parameterT, slots;
      newTimes, timeN := ShiftAndRelocate(n, stN, scheduled, times);
      FinalSlots(prob, t, n, stN, times, slots0, newTimes, timeN);
    }

    method ShiftAndRelocate(n: nat, stN: nat, scheduled: seq<nat>, times: map<nat, nat>)
      returns (newTimes: map<nat, nat>, timeN: nat)
      requires Valid() && IsLimited(prob, n) && n !in slots && InSlots(slots, parameterT, times)
      requires forall j :: j in times ==> j < prob.Size()
      requires Lists(scheduled, times.Keys)
      modifies this
      ensures Valid() && parameterT == old(parameterT) + 1
      ensures newTimes == NewTimes(prob, old(parameterT), n, stN, times, times.Keys)
      ensures timeN == Moved(old(parameterT), stN, if MakesRoom(prob, old(parameterT), n, stN, times) then 0 else 1)
      ensures slots == NewSlots(prob, old(parameterT), n, stN, times)[n := timeN % parameterT]
    {
      var moved, deltaN;
      newTimes, moved, deltaN := Plan(n, stN, scheduled, times);
      timeN := Moved(parameterT, stN, deltaN);
      Relocate(n, stN, deltaN, timeN, moved, newTimes, NewSlots(prob, parameterT, n, stN, times));
    }

    /** What has to be moved; the table is as it was. */
    method Plan(n: nat, stN: nat, scheduled: seq<nat>, times: map<nat, nat>)
      returns (newTimes: map<nat, nat>, moved: seq<nat>, deltaN: nat)
      requires Valid() && IsLimited(prob, n) && n !in slots && InSlots(slots, parameterT, times)
      requires forall j :: j in times ==> j < prob.Size()
      requires Lists(scheduled, times.Keys)
      ensures Valid() && parameterT == old(parameterT) && slots == old(slots)
      ensures Shifted(prob, parameterT, n, stN, times, times.Keys, newTimes, moved, deltaN)
      ensures var final := NewSlots(prob, parameterT, n, stN, times);
              && Fits(prob, final) && final.Keys == times.Keys
              && slots - Elements(moved) == final - Elements(moved)
              && (forall j :: j in times ==> final[j] == newTimes[j] % (parameterT + 1))
              && |Sharing(prob, final, prob.linked[n].value, stN % parameterT + deltaN)|
                 < LimitOf(prob, prob.linked[n].value)
    {
      newTimes, moved, deltaN := ShiftAll(prob, parameterT, n, stN, scheduled, times);
      IncrementPlan(prob, parameterT, n, stN, times, slots, newTimes, Elements(moved));
    }

    /** Increments the interval, and re-enters the moved operations and `n`. */
    method Relocate(n: nat, ghost stN: nat, ghost deltaN: nat, timeN: nat, moved: seq<nat>, newTimes: map<nat, nat>,
                    ghost final: map<nat, nat>)
      requires Valid() && IsLimited(prob, n) && n !in final && deltaN <= 1 && timeN == Moved(parameterT, stN, deltaN)
      requires Lists(moved, Elements(moved)) && Elements(moved) <= newTimes.Keys && Elements(moved) <= slots.Keys
      requires Fits(prob, final) && slots - Elements(moved) == final - Elements(moved)
      requires forall j :: j in moved ==> j in final && final[j] == newTimes[j] % (parameterT + 1)
      requires |Sharing(prob, final, prob.linked[n].value, stN % parameterT + deltaN)|
               < LimitOf(prob, prob.linked[n].value)
      modifies this
      ensures Valid() && parameterT == old(parameterT) + 1 && slots == final[n := timeN % parameterT]
    {
      parameterT := parameterT + 1;
      ReleaseAll(moved);
      EnterAll(moved, newTimes, final);
      EnterLast(n, parameterT - 1, stN, deltaN, timeN);
    }

    /** The slot that the moves have made room in. */
    method EnterLast(n: nat, ghost t: nat, ghost stN: nat, ghost deltaN: nat, timeN: nat)
      requires Valid() && IsLimited(prob, n) && n !in slots && deltaN <= 1
      requires parameterT == t + 1 && t > 0 && timeN == Moved(t, stN, deltaN)
      requires |Sharing(prob, slots, prob.linked[n].value, stN % t + deltaN)| < LimitOf(prob, prob.linked[n].value)
      modifies this`tables, this`reverseTables, this`slots
      ensures Valid() && slots == old(slots)[n := timeN % parameterT]
    {
      MovedSlot(t, stN, deltaN);
      var ok := Enter(n, timeN);
      assert ok;
    }

    method ReleaseAll(moved: seq<nat>)
      requires Valid() && Lists(moved, Elements(moved)) && Elements(moved) <= slots.Keys
      modifies this`tables, this`reverseTables, this`slots
      ensures Valid() && slots == old(slots) - Elements(moved)
    {
      for i := 0 to |moved|
        invariant Valid() && slots == old(slots) - Elements(moved[..i])
      {
        assert moved[i] !in Elements(moved[..i]);
        assert Elements(moved[..i + 1]) == Elements(moved[..i]) + {moved[i]};
        Release(moved[i]);
      }
      assert moved[..|moved|] == moved;
    }

    method EnterAll(moved: seq<nat>, newTimes: map<nat, nat>, ghost final: map<nat, nat>)
      requires Valid() && Lists(moved, Elements(moved)) && Elements(moved) <= newTimes.Keys
      requires Fits(prob, final) && slots == final - Elements(moved)
      requires forall j :: j in moved ==> j in final && final[j] == newTimes[j] % parameterT
      modifies this`tables, this`reverseTables, this`slots
      ensures Valid() && slots == final
    {
      for i := 0 to |moved|
        invariant Valid() && slots == final - Elements(moved[i..])
      {
        var m := moved[i];
        assert m in moved && IsLimited(prob, m);
        assert Elements(moved[i..]) == {m} + Elements(moved[i + 1..]);
        assert m !in Elements(moved[i + 1..]);
        ghost var opr := prob.linked[m].value;
        assert m in Sharing(prob, final, opr, final[m]) && m !in Sharing(prob, slots, opr, final[m]);
        SubsetIsSmaller(Sharing(prob, slots, opr, final[m]), Sharing(prob, final, opr, final[m]));
        var enteredM := Enter(m, newTimes[m]);
        assert enteredM;
      }
      assert moved[|moved|..] == [];
    }
  }

  lemma ReleaseChanges(prob: Problem, slots: map<nat, nat>, tables: Tables, reverse: ReverseTables, op: nat, slot: nat)
    requires Mirrors(prob, slots, tables, reverse) && op < prob.Size() && prob.linked[op].Some? && op in slots
    requires slots[op] == slot && prob.linked[op].value in reverse
    ensures var opr := prob.linked[op].value;
            Mirrors(prob, slots - {op}, WithCell(tables, opr, slot, Cell(tables, opr, slot) - {op}),
                    WithoutEntry(reverse, opr, op))
  {
    var opr := prob.linked[op].value;
    var tables' := WithCell(tables, opr, slot, Cell(tables, opr, slot) - {op});
    var reverse' := WithoutEntry(reverse, opr, op);
    forall o: nat, s: nat ensures Cell(tables', o, s) == Cell(tables, o, s) - {op} {
      assert Cell(tables, o, s) == Sharing(prob, slots, o, s);
    }
    forall o: nat, v: nat ensures Find(reverse', o, v) == if v == op then None else Find(reverse, o, v) {
      assert Find(reverse, o, op) == if prob.linked[op] == Some(o) then Some(slots[op]) else None;
    }
    ReleaseMirrors(prob, slots, tables, reverse, op, tables', reverse');
  }

  // ---------------------------------------------------------------------------------------------
  // Incrementing the initiation interval
  // ---------------------------------------------------------------------------------------------

  /** The operation `j` on the same operator type has to move one slot to the right to make room for `n`. */
  predicate HasToMove(prob: Problem, t: nat, n: nat, stN: nat, j: nat, stJ: nat)
    requires t > 0 && n < prob.Size() && j < prob.Size()
  {
    && prob.linked[n] == prob.linked[j]
    && (|| stN % t < stJ % t
        || (stN % t == stJ % t && stN / t > stJ / t)
        || (stN % t == stJ % t && stN / t == stJ / t && n < j))
  }

  /** Adding the quotient keeps the slot when the interval grows by one; one more step moves on by one slot. */
  function Moved(t: nat, time: nat, delta: nat): nat
    requires t > 0
  {
    time + time / t + delta
  }

  lemma MovedSlot(t: nat, time: nat, delta: nat)
    requires t > 0 && delta <= 1
    ensures Moved(t, time, delta) % (t + 1) == time % t + delta
    ensures Moved(t, time, delta) / (t + 1) == time / t
  {
    DivModOf(time, t);
    var q, r := time / t, time % t;
    assert q * (t + 1) == q * t + q;
    DivModIs(Moved(t, time, delta), q, r + delta, t + 1);
  }

  /** Where an operation that was fixed at `time` ends up. */
  function NewTime(prob: Problem, t: nat, n: nat, stN: nat, j: nat, time: nat): nat
    requires t > 0 && n < prob.Size() && j < prob.Size()
  {
    Moved(t, time, if HasToMove(prob, t, n, stN, j, time) then 1 else 0)
  }

  ghost function NewSlots(prob: Problem, t: nat, n: nat, stN: nat, times: map<nat, nat>): map<nat, nat>
    requires t > 0 && n < prob.Size() && forall j :: j in times ==> j < prob.Size()
  {
    map j | j in times :: NewTime(prob, t, n, stN, j, times[j]) % (t + 1)
  }

  /** Every entered operation is in the slot of its start time. */
  ghost predicate InSlots(slots: map<nat, nat>, t: nat, times: map<nat, nat>)
    requires t > 0
  {
    slots.Keys == times.Keys && forall j :: j in times ==> slots[j] == times[j] % t
  }

  ghost function NewTimes(prob: Problem, t: nat, n: nat, stN: nat, times: map<nat, nat>, visited: set<nat>): map<nat,
                          nat>
    requires t > 0 && n < prob.Size() && forall j :: j in times ==> j < prob.Size()
  {
    map j | j in visited && j in times :: NewTime(prob, t, n, stN, j, times[j])
  }

  ghost function Movers(prob: Problem, t: nat, n: nat, stN: nat, times: map<nat, nat>, visited: set<nat>): set<nat>
    requires t > 0 && n < prob.Size() && forall j :: j in times ==> j < prob.Size()
  {
    set j | j in visited && j in times && HasToMove(prob, t, n, stN, j, times[j])
  }

  ghost predicate Vacated(prob: Problem, t: nat, n: nat, stN: nat, times: map<nat, nat>, visited: set<nat>)
    requires t > 0 && n < prob.Size() && forall j :: j in times ==> j < prob.Size()
  {
    exists j :: j in visited && j in times && HasToMove(prob, t, n, stN, j, times[j]) && times[j] % t == stN % t
  }

  /** Some operation moves out of the slot that `n` would like to have. */
  ghost predicate MakesRoom(prob: Problem, t: nat, n: nat, stN: nat, times: map<nat, nat>)
    requires t > 0 && n < prob.Size() && forall j :: j in times ==> j < prob.Size()
  {
    Vacated(prob, t, n, stN, times, times.Keys)
  }

  lemma NewSlotOf(prob: Problem, t: nat, n: nat, stN: nat, times: map<nat, nat>, slots: map<nat, nat>, j: nat)
    requires t > 0 && n < prob.Size() && (forall v :: v in times ==> v < prob.Size()) && InSlots(slots, t, times)
    requires j in times
    ensures slots[j] < t
    ensures NewSlots(prob, t, n, stN, times)[j]
         == slots[j] + (if HasToMove(prob, t, n, stN, j, times[j]) then 1 else 0)
    ensures prob.linked[n] == prob.linked[j] && slots[j] != stN % t ==>
              (HasToMove(prob, t, n, stN, j, times[j]) <==> slots[j] > stN % t)
  {
    MovedSlot(t, times[j], if HasToMove(prob, t, n, stN, j, times[j]) then 1 else 0);
    DivModOf(times[j], t);
  }

  /** Operations of other types keep their slots. Of the type of `n`, the operations in a slot after the move all come
      from that slot or all from the one before it. */
  lemma NewSharing(prob: Problem, t: nat, n: nat, stN: nat, times: map<nat, nat>, slots: map<nat, nat>, opr: nat,
                   s: nat)
    requires t > 0 && n < prob.Size() && (forall v :: v in times ==> v < prob.Size()) && InSlots(slots, t, times)
    ensures var slots' := NewSlots(prob, t, n, stN, times);
            Sharing(prob, slots', opr, s) <=
            if prob.linked[n] == Some(opr) && s > stN % t then Sharing(prob, slots, opr, s - 1)
            else Sharing(prob, slots, opr, s)
  {
    var slots' := NewSlots(prob, t, n, stN, times);
    forall j | j in Sharing(prob, slots', opr, s)
      ensures j in if prob.linked[n] == Some(opr) && s > stN % t then Sharing(prob, slots, opr, s - 1)
                   else Sharing(prob, slots, opr, s)
    {
      NewSlotOf(prob, t, n, stN, times, slots, j);
    }
  }

  /** The moved operations fit. */
  lemma MovedFit(prob: Problem, t: nat, n: nat, stN: nat, times: map<nat, nat>, slots: map<nat, nat>)
    requires t > 0 && n < prob.Size() && (forall v :: v in times ==> v < prob.Size()) && InSlots(slots, t, times)
    requires Fits(prob, slots)
    ensures Fits(prob, NewSlots(prob, t, n, stN, times))
  {
    var slots' := NewSlots(prob, t, n, stN, times);
    forall opr: nat, s: nat ensures |Sharing(prob, slots', opr, s)| <= LimitOf(prob, opr) {
      NewSharing(prob, t, n, stN, times, slots, opr, s);
      var source := if prob.linked[n] == Some(opr) && s > stN % t then Sharing(prob, slots, opr, s - 1)
                    else Sharing(prob, slots, opr, s);
      SubsetIsSmaller(Sharing(prob, slots', opr, s), source);
    }
  }

  /** And they leave a free instance for `n`: in its own slot if some operation moved out of it, and in the next slot
      otherwise. */
  lemma RoomForN(prob: Problem, t: nat, n: nat, stN: nat, times: map<nat, nat>, slots: map<nat, nat>)
    requires t > 0 && (forall v :: v in times ==> v < prob.Size()) && InSlots(slots, t, times)
    requires Fits(prob, slots) && IsLimited(prob, n)
    ensures var opr := prob.linked[n].value;
            var s := stN % t + (if MakesRoom(prob, t, n, stN, times) then 0 else 1);
            |Sharing(prob, NewSlots(prob, t, n, stN, times), opr, s)| < LimitOf(prob, opr)
  {
    var opr := prob.linked[n].value;
    var slots', tau := NewSlots(prob, t, n, stN, times), stN % t;
    if MakesRoom(prob, t, n, stN, times) {
      var j :| j in times && HasToMove(prob, t, n, stN, j, times[j]) && times[j] % t == tau;
      NewSharing(prob, t, n, stN, times, slots, opr, tau);
      NewSlotOf(prob, t, n, stN, times, slots, j);
      assert j in Sharing(prob, slots, opr, tau) && j !in Sharing(prob, slots', opr, tau);
      SubsetIsSmaller(Sharing(prob, slots', opr, tau), Sharing(prob, slots, opr, tau));
    } else {
      if Sharing(prob, slots', opr, tau + 1) != {} {
        var j :| j in Sharing(prob, slots', opr, tau + 1);
        NewSlotOf(prob, t, n, stN, times, slots, j);
      }
    }
  }

  /** The slots after the step, relative to those before it. */
  lemma IncrementPlan(prob: Problem, t: nat, n: nat, stN: nat, times: map<nat, nat>, slots: map<nat, nat>,
                      newTimes: map<nat, nat>, moved: set<nat>)
    requires t > 0 && (forall v :: v in times ==> v < prob.Size()) && InSlots(slots, t, times)
    requires Fits(prob, slots) && IsLimited(prob, n)
    requires newTimes == NewTimes(prob, t, n, stN, times, times.Keys)
    requires moved == Movers(prob, t, n, stN, times, times.Keys)
    ensures var slots' := NewSlots(prob, t, n, stN, times);
      && Fits(prob, slots') && slots'.Keys == times.Keys
      && slots - moved == slots' - moved
      && (forall j :: j in times ==> slots'[j] == newTimes[j] % (t + 1))
      && |Sharing(prob, slots', prob.linked[n].value, stN % t + (if MakesRoom(prob, t, n, stN, times) then 0 else 1))|
         < LimitOf(prob, prob.linked[n].value)
  {
    MovedFit(prob, t, n, stN, times, slots);
    RoomForN(prob, t, n, stN, times, slots);
    var slots' := NewSlots(prob, t, n, stN, times);
    forall j | j in times ensures slots'[j] == slots[j] + (if j in moved then 1 else 0) {
      NewSlotOf(prob, t, n, stN, times, slots, j);
    }
  }

  /** What the loop over the partial schedule has computed for the operations it has visited. */
  ghost predicate Shifted(prob: Problem, t: nat, n: nat, stN: nat, times: map<nat, nat>, visited: set<nat>,
                          newTimes: map<nat, nat>, moved: seq<nat>, deltaN: nat)
    requires t > 0 && n < prob.Size() && forall j :: j in times ==> j < prob.Size()
  {
    && visited <= times.Keys
    && newTimes == NewTimes(prob, t, n, stN, times, visited)
    && Lists(moved, Movers(prob, t, n, stN, times, visited))
    && deltaN == if Vacated(prob, t, n, stN, times, visited) then 0 else 1
  }

  lemma ShiftedStep(prob: Problem, t: nat, n: nat, stN: nat, times: map<nat, nat>, visited: set<nat>,
                    newTimes: map<nat, nat>, moved: seq<nat>, deltaN: nat, j: nat)
    requires t > 0 && n < prob.Size() && forall j :: j in times ==> j < prob.Size()
    requires Shifted(prob, t, n, stN, times, visited, newTimes, moved, deltaN) && j in times && j !in visited
    ensures var moves := HasToMove(prob, t, n, stN, j, times[j]);
            Shifted(prob, t, n, stN, times, visited + {j}, newTimes[j := NewTime(prob, t, n, stN, j, times[j])],
                    if moves then moved + [j] else moved, if moves && times[j] % t == stN % t then 0 else deltaN)
  {
    var moves := HasToMove(prob, t, n, stN, j, times[j]);
    var moved' := if moves then moved + [j] else moved;
    var old', new' := Movers(prob, t, n, stN, times, visited), Movers(prob, t, n, stN, times, visited + {j});
    assert new' == if moves then old' + {j} else old';
    forall x ensures x in new' <==> x in moved' {
      if moves {
        assert moved'[|moved|] == j;
      }
    }
    assert Lists(moved', new');
  }

  /** Decides whether one fixed operation changes slots, and shifts it. */
  method ShiftOne(prob: Problem, t: nat, n: nat, stN: nat, j: nat, stJ: nat)
    returns (time: nat, moves: bool, vacates: bool)
    requires t > 0 && n < prob.Size() && j < prob.Size()
    ensures time == NewTime(prob, t, n, stN, j, stJ)
    ensures moves <==> HasToMove(prob, t, n, stN, j, stJ)
    ensures vacates <==> stN % t == stJ % t
  {
    var phiN, tauN := stN / t, stN % t;
    var phiJ, tauJ := stJ / t, stJ % t;
    var deltaJ := 0;
    moves, vacates := false, tauN == tauJ;
    if prob.linked[n] == prob.linked[j] {
      if tauN < tauJ || (tauN == tauJ && phiN > phiJ) || (tauN == tauJ && phiN == phiJ && n < j) {
        deltaJ, moves := 1, true;
      }
    }
    time := stJ + (phiJ + deltaJ);
  }

  /** The operations that have to move go to the next slot, and the others stay where they are. */
  ghost predicate MovesByOne(prob: Problem, t: nat, n: nat, stN: nat, times: map<nat, nat>,
                             before: map<nat, nat>, after: map<nat, nat>)
    requires t > 0 && n < prob.Size() && forall j :: j in times ==> j < prob.Size()
  {
    forall j :: j in times ==>
      j in before && j in after &&
      after[j] == before[j] + (if HasToMove(prob, t, n, stN, j, times[j]) then 1 else 0)
  }

  lemma FinalSlots(prob: Problem, t: nat, n: nat, stN: nat, times: map<nat, nat>, slots: map<nat, nat>,
                   newTimes: map<nat, nat>, timeN: nat)
    requires t > 0 && n < prob.Size() && (forall v :: v in times ==> v < prob.Size()) && InSlots(slots, t, times)
    requires n !in times && newTimes == NewTimes(prob, t, n, stN, times, times.Keys)
    ensures var slots' := NewSlots(prob, t, n, stN, times)[n := timeN % (t + 1)];
            InSlots(slots', t + 1, newTimes[n := timeN]) && MovesByOne(prob, t, n, stN, times, slots, slots')
  {
    forall j | j in times
      ensures NewSlots(prob, t, n, stN, times)[j]
           == slots[j] + (if HasToMove(prob, t, n, stN, j, times[j]) then 1 else 0)
    {
      NewSlotOf(prob, t, n, stN, times, slots, j);
    }
  }

  /** The loop over the partial schedule: shifted start times, operations that change slots, and the offset of `n`. */
  method ShiftAll(prob: Problem, t: nat, n: nat, stN: nat, scheduled: seq<nat>, times: map<nat, nat>)
    returns (newTimes: map<nat, nat>, moved: seq<nat>, deltaN: nat)
    requires t > 0 && n < prob.Size() && (forall j :: j in times ==> j < prob.Size()) && Lists(scheduled, times.Keys)
    ensures Shifted(prob, t, n, stN, times, times.Keys, newTimes, moved, deltaN)
  {
    deltaN := 1;
    newTimes, moved := map[], [];
    for i := 0 to |scheduled|
      invariant Shifted(prob, t, n, stN, times, Elements(scheduled[..i]), newTimes, moved, deltaN)
    {
      var j := scheduled[i];
      assert j in times && j !in Elements(scheduled[..i]);
      assert Elements(scheduled[..i + 1]) == Elements(scheduled[..i]) + {j};
      ShiftedStep(prob, t, n, stN, times, Elements(scheduled[..i]), newTimes, moved, deltaN, j);
      var time, moves, vacates := ShiftOne(prob, t, n, stN, j, times[j]);
      if moves {
        moved := moved + [j];
        if vacates {
          deltaN := 0;
        }
      }
      newTimes := newTimes[j := time];
    }
    assert scheduled[..|scheduled|] == scheduled;
    assert Elements(scheduled) == times.Keys;
  }
}
