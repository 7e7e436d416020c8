// Conjunction over a sequence of boolean operands.  Its violation is the sum
// of the operands' violations; it caches each operand's last violation and
// keeps the set of positions whose violation is non-zero, updating both as
// operands are inserted, removed, swapped or changed.

module OpAnds {
  import opened Sums
  import opened ShiftIndices
  import opened SequenceSwaps
  import opened ExtremeIndices

  /** The positions with a non-zero violation. */
  function Violating(s: seq<nat>): (r: set<int>)
    ensures forall k :: k in r <==> 0 <= k < |s| && s[k] > 0
  {
    set k | 0 <= k < |s| && s[k] > 0
  }

  lemma ViolatingInserted(s: seq<nat>, index: nat, v: nat)
    requires index <= |s|
    ensures Violating(Inserted(s, index, v)) == ShiftedUp(Violating(s), index) + (if v > 0 then {index} else {})
  {
    var t := Inserted(s, index, v);
    var rhs := ShiftedUp(Violating(s), index) + (if v > 0 then {index} else {});
    forall k | k in Violating(t) ensures k in rhs {
      if k < index {
        assert k in Violating(s);
      } else if k > index {
        assert k - 1 in Violating(s);
      }
    }
    forall k | k in rhs ensures k in Violating(t) {
      if k != index || v == 0 {
        var e :| e in Violating(s) && k == (if e >= index then e + 1 else e);
      }
    }
  }

  lemma ViolatingRemoved(s: seq<nat>, index: nat)
    requires index < |s|
    ensures Violating(Removed(s, index)) == ShiftedDown(Violating(s) - {index}, index)
  {
    var t := Removed(s, index);
    var rhs := ShiftedDown(Violating(s) - {index}, index);
    forall k | k in Violating(t) ensures k in rhs {
      if k < index {
        assert k in Violating(s) - {index};
      } else {
        assert k + 1 in Violating(s) - {index};
      }
    }
    forall k | k in rhs ensures k in Violating(t) {
      var e :| e in Violating(s) - {index} && k == (if e > index then e - 1 else e);
    }
  }

  /** c0 with the positions in [lo, hi) taken from vios. */
  function Overlaid(c0: seq<nat>, vios: seq<nat>, lo: nat, hi: nat): (r: seq<nat>)
    requires lo <= hi <= |c0| == |vios|
    ensures |r| == |c0|
    ensures forall k :: 0 <= k < |r| ==> r[k] == if lo <= k < hi then vios[k] else c0[k]
  {
    seq(|c0|, k requires 0 <= k < |c0| => if lo <= k < hi then vios[k] else c0[k])
  }

  /**
   * One step of absorbing a changed range: position i takes its new
   * violation, the running totals of the range grow by the new and the old
   * violation, and position i enters or leaves the violating set.
   */
  lemma ChangedStep(c: seq<nat>, c0: seq<nat>, vios: seq<nat>, start: nat, i: nat)
    requires start <= i < |c0| == |vios| && c == Overlaid(c0, vios, start, i)
    ensures c[i := vios[i]] == Overlaid(c0, vios, start, i + 1)
    ensures Sum(vios[start..i + 1]) == Sum(vios[start..i]) + vios[i]
    ensures Sum(c0[start..i + 1]) == Sum(c0[start..i]) + c[i]
    ensures Sum(c[i := vios[i]]) == Sum(c) - c[i] + vios[i]
    ensures Violating(c[i := vios[i]])
            == if c[i] > 0 && vios[i] == 0 then Violating(c) - {i}
               else if c[i] == 0 && vios[i] > 0 then Violating(c) + {i}
               else Violating(c)
  {
    SumUpdate(c, i, vios[i]);
    SumSliceExtend(vios, start, i);
    SumSliceExtend(c0, start, i);
  }

  /**
   * The state of SubsequenceChanged before position i: the cache holds the
   * new violations on [start, i), the running totals are the new and the old
   * sums of that range, and the violating set matches the cache.
   */
  ghost predicate ChangeState(c0: seq<nat>, vios: seq<nat>, start: nat, i: nat,
                              cached: seq<nat>, add: int, remove: int, violating: set<int>)
  {
    start <= i <= |c0| == |vios|
    && cached == Overlaid(c0, vios, start, i)
    && add == Sum(vios[start..i]) && remove == Sum(c0[start..i])
    && Sum(cached) == Sum(c0) - remove + add
    && violating == Violating(cached)
  }

  lemma ChangeStateStep(c0: seq<nat>, vios: seq<nat>, start: nat, i: nat,
                        cached: seq<nat>, add: int, remove: int, violating: set<int>)
    requires ChangeState(c0, vios, start, i, cached, add, remove, violating) && i < |c0|
    ensures ChangeState(c0, vios, start, i + 1, cached[i := vios[i]], add + vios[i], remove + cached[i],
                        if cached[i] > 0 && vios[i] == 0 then violating - {i}
                        else if cached[i] == 0 && vios[i] > 0 then violating + {i}
                        else violating)
  {
    ChangedStep(cached, c0, vios, start, i);
  }

  /** The body of SubsequenceChanged's loop: position i takes its new violation. */
  method AbsorbChange(ghost c0: seq<nat>, vios: seq<nat>, ghost start: nat, i: nat,
                      cached: seq<nat>, add: int, remove: int, violating: set<int>)
    returns (cached': seq<nat>, add': int, remove': int, violating': set<int>)
    requires ChangeState(c0, vios, start, i, cached, add, remove, violating) && i < |c0|
    ensures ChangeState(c0, vios, start, i + 1, cached', add', remove', violating')
  {
    var newViolation := vios[i];
    var oldViolation := cached[i];
    ChangeStateStep(c0, vios, start, i, cached, add, remove, violating);
    cached' := cached[i := newViolation];
    add' := add + newViolation;
    remove' := remove + oldViolation;
    violating' := violating;
    if oldViolation > 0 && newViolation == 0 {
      violating' := violating - {i};
    } else if oldViolation == 0 && newViolation > 0 {
      violating' := violating + {i};
    }
  }

  class OpAnd {
    var violation: nat
    var cachedViolations: seq<nat>
    var violatingOperands: set<int>

    /**
     * The violation is the sum of the cached operand violations, and the
     * violating set holds exactly the positions whose cached violation is
     * non-zero.
     */
    ghost predicate Valid()
      reads this
    {
      violation == Sum(cachedViolations) && violatingOperands == Violating(cachedViolations)
    }

    constructor ()
      ensures Valid() && cachedViolations == []
    {
      violation := 0;
      cachedViolations := [];
      violatingOperands := {};
    }

    /** The conjunction holds exactly when no operand is violated. */
    lemma HoldsIffNoViolatingOperand()
      requires Valid()
      ensures violation == 0 <==> violatingOperands == {}
      ensures violation == 0 <==> forall k :: 0 <= k < |cachedViolations| ==> cachedViolations[k] == 0
    {
      SumZeroIffAllZero(cachedViolations);
      if violatingOperands == {} {
        forall k | 0 <= k < |cachedViolations| ensures cachedViolations[k] == 0 {
          assert k !in violatingOperands;
        }
      } else {
        var k :| k in violatingOperands;
      }
    }

    /** An operand with violation v was inserted at index. */
    method ValueAdded(index: nat, v: nat)
      requires Valid() && index <= |cachedViolations|
      modifies this
      ensures Valid()
      ensures cachedViolations == Inserted(old(cachedViolations), index, v)
      ensures violation == old(violation) + v
    {
      ViolatingInserted(cachedViolations, index, v);
      SumInserted(cachedViolations, index, v);
      violatingOperands := ShiftedUp(violatingOperands, index);
      cachedViolations := Inserted(cachedViolations, index, v);
      if v > 0 {
        violatingOperands := violatingOperands + {index};
        violation := violation + v;
      }
    }

    /** The operand at index was removed; its cached violation is subtracted. */
    method ValueRemoved(index: nat)
      requires Valid() && index < |cachedViolations|
      modifies this
      ensures Valid()
      ensures cachedViolations == Removed(old(cachedViolations), index)
      ensures violation == old(violation) - old(cachedViolations[index])
    {
      var violationOfRemoved := cachedViolations[index];
      ViolatingRemoved(cachedViolations, index);
      SumRemoved(cachedViolations, index);
      EntryAtMostSum(cachedViolations, index);
      violatingOperands := violatingOperands - {index};
      cachedViolations := Removed(cachedViolations, index);
      violatingOperands := ShiftedDown(violatingOperands, index);
      violation := violation - violationOfRemoved;
    }

    /** Operands index1 and index2 exchanged places. */
    method PositionsSwapped(index1: nat, index2: nat)
      requires Valid() && index1 < |cachedViolations| && index2 < |cachedViolations|
      modifies this
      ensures Valid()
      ensures cachedViolations == Swapped(old(cachedViolations), index1, index2)
      ensures violation == old(violation)
      ensures violatingOperands == SwappedMembership(old(violatingOperands), index1, index2)
    {
      SumSwapped(cachedViolations, index1, index2);
      if index1 in violatingOperands {
        if index2 !in violatingOperands {
          violatingOperands := violatingOperands - {index1} + {index2};
        }
      } else {
        if index2 in violatingOperands {
          violatingOperands := violatingOperands - {index2} + {index1};
        }
      }
      cachedViolations := Swapped(cachedViolations, index1, index2);
    }

    /**
     * The operands in [startIndex, endIndex) now have violations vios[k]: the
     * cache takes them over and the violation moves by the new total minus
     * the old total of the range.
     */
    method SubsequenceChanged(vios: seq<nat>, startIndex: nat, endIndex: nat)
      requires Valid() && |vios| == |cachedViolations| && startIndex <= endIndex <= |vios|
      modifies this
      ensures Valid()
      ensures cachedViolations == Overlaid(old(cachedViolations), vios, startIndex, endIndex)
      ensures violation == old(violation) - Sum(old(cachedViolations)[startIndex..endIndex]) + Sum(vios[startIndex..endIndex])
    {
      ghost var c0 := cachedViolations;
      assert c0 == Overlaid(c0, vios, startIndex, startIndex);
      var cached, violating := cachedViolations, violatingOperands;
      var violationToAdd := 0;
      var violationToRemove := 0;
      var i := startIndex;
      while i < endIndex
        invariant i <= endIndex
        invariant ChangeState(c0, vios, startIndex, i, cached, violationToAdd, violationToRemove, violating)
        modifies {}
      {
        cached, violationToAdd, violationToRemove, violating :=
          AbsorbChange(c0, vios, startIndex, i, cached, violationToAdd, violationToRemove, violating);
        i := i + 1;
      }
      SumSliceAtMost(c0, startIndex, endIndex);
      cachedViolations, violatingOperands := cached, violating;
      violation := violation - violationToRemove;
      violation := violation + violationToAdd;
    }

    /** A single operand was replaced: the one-element case of SubsequenceChanged. */
    method MemberReplaced(vios: seq<nat>, index: nat)
      requires Valid() && |vios| == |cachedViolations| && index < |vios|
      modifies this
      ensures Valid()
      ensures cachedViolations == old(cachedViolations)[index := vios[index]]
      ensures violation == old(violation) - old(cachedViolations[index]) + vios[index]
    {
      ghost var c0 := cachedViolations;
      SubsequenceChanged(vios, index, index + 1);
      assert c0[index..index + 1] == [c0[index]] && vios[index..index + 1] == [vios[index]];
      assert Sum([c0[index]]) == c0[index] && Sum([vios[index]]) == vios[index] by {
        assert [c0[index]][..0] == [] && [vios[index]][..0] == [];
      }
    }
  }
}
