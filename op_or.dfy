// Disjunction over a sequence of boolean operands.  Its violation is the
// smallest violation of any operand (zero as soon as one operand holds), and
// it keeps the set of operand positions attaining that minimum so that most
// operand changes are absorbed without a full scan.

module OpOrs {
  import opened Common
  import opened ShiftIndices
  import opened SequenceSwaps
  import opened ExtremeIndices

  /** m is the smallest entry of s. */
  ghost predicate IsMinimum(s: seq<nat>, m: nat) {
    (exists k :: 0 <= k < |s| && s[k] == m)
    && forall k :: 0 <= k < |s| ==> m <= s[k]
  }

  /** Removing a position keeps the minimum when another position attains it. */
  lemma RemovedKeepsMinimum(s: seq<nat>, index: nat, m: nat, e: int)
    requires index < |s| && IsMinimum(s, m)
    requires 0 <= e < |s| && s[e] == m && e != index
    ensures IsMinimum(Removed(s, index), m)
  {
    assert Removed(s, index)[if e > index then e - 1 else e] == m;
  }

  /**
   * Removing a position that is not the only one attaining the minimum keeps
   * the minimum, and the positions attaining it are the others shifted down.
   */
  lemma RemovedKeepsIndices(s: seq<nat>, index: nat, m: nat, others: set<int>)
    requires index < |s| && IsMinimum(s, m)
    requires others == IndicesOf(s, m) - {index} && |others| > 0
    ensures |Removed(s, index)| > 0 && IsMinimum(Removed(s, index), m)
    ensures ShiftedDown(others, index) == IndicesOf(Removed(s, index), m)
  {
    IndicesOfRemoved(s, index, m);
    var e := PickElement(others);
    RemovedKeepsMinimum(s, index, m, e);
  }

  /** Exchanging two positions keeps the minimum and exchanges the membership of the two positions. */
  lemma SwappedKeepsMinimum(s: seq<nat>, i: nat, j: nat, m: nat)
    requires i < |s| && j < |s| && IsMinimum(s, m)
    ensures IsMinimum(Swapped(s, i, j), m)
    ensures IndicesOf(Swapped(s, i, j), m) == SwappedMembership(IndicesOf(s, m), i, j)
  {
    IndicesOfSwapped(s, i, j, m);
    var k :| 0 <= k < |s| && s[k] == m;
    assert Swapped(s, i, j)[if k == i then j else if k == j then i else k] == m;
  }

  class OpOr {
    var violation: nat
    var minViolationIndices: set<int>
    var defined: bool

    /**
     * For operand violations vios: an empty operand leaves the disjunction
     * undefined; otherwise the violation is the minimum and the index set holds
     * exactly the positions attaining it.
     */
    ghost predicate Valid(vios: seq<nat>)
      reads this
    {
      if |vios| == 0 then !defined && minViolationIndices == {}
      else defined && IsMinimum(vios, violation) && minViolationIndices == IndicesOf(vios, violation)
    }

    constructor ()
      ensures Valid([])
    {
      violation := 0;
      minViolationIndices := {};
      defined := false;
    }

    /** The disjunction holds exactly when one of its operands holds. */
    lemma HoldsIffSomeOperandHolds(vios: seq<nat>)
      requires Valid(vios) && defined
      ensures violation == 0 <==> exists k :: 0 <= k < |vios| && vios[k] == 0
      ensures minViolationIndices != {}
    {
      var k :| 0 <= k < |vios| && vios[k] == violation;
      assert k in minViolationIndices;
    }

    /**
     * Scans all operands against a starting minimum: the result is the
     * smaller of the two, and the positions attaining it are added to the set
     * (which is first emptied when the minimum drops).
     */
    method FindNewMinViolation(vios: seq<nat>, minViolation: nat) returns (newMin: nat)
      modifies this
      ensures newMin <= minViolation
      ensures forall k :: 0 <= k < |vios| ==> newMin <= vios[k]
      ensures newMin == minViolation || exists k :: 0 <= k < |vios| && vios[k] == newMin
      ensures minViolationIndices
              == (if newMin < minViolation then {} else old(minViolationIndices)) + IndicesOf(vios, newMin)
      ensures violation == old(violation) && defined == old(defined)
    {
      ghost var start := minViolationIndices;
      newMin := minViolation;
      var i := 0;
      while i < |vios|
        invariant 0 <= i <= |vios|
        invariant newMin <= minViolation
        invariant forall k :: 0 <= k < i ==> newMin <= vios[k]
        invariant newMin == minViolation || exists k :: 0 <= k < i && vios[k] == newMin
        invariant minViolationIndices == (if newMin < minViolation then {} else start) + IndicesOf(vios[..i], newMin)
        invariant violation == old(violation) && defined == old(defined)
      {
        IndicesOfPrefix(vios, i, vios[i]);
        IndicesOfPrefix(vios, i, newMin);
        if vios[i] < newMin {
          assert IndicesOf(vios[..i], vios[i]) == {};
          newMin := vios[i];
          minViolationIndices := {i};
        } else if vios[i] == newMin {
          minViolationIndices := minViolationIndices + {i};
        }
        i := i + 1;
      }
      assert vios[..i] == vios;
    }

    /** Recomputes the minimum from scratch. */
    method Reevaluate(vios: seq<nat>)
      modifies this
      ensures Valid(vios)
    {
      minViolationIndices := {};
      if |vios| == 0 {
        defined := false;
        return;
      }
      defined := true;
      violation := vios[0];
      minViolationIndices := {0};
      violation := FindNewMinViolation(vios, violation);
    }

    /**
     * Absorbs a new violation at position index, the rest of the state
     * reflecting the violations in reflected; returns whether the minimum was
     * lost and everything was recomputed from vios.
     */
    method HandleOperandValueChange(vios: seq<nat>, index: nat, ghost reflected: seq<nat>)
      returns (fullReevaluate: bool)
      requires |reflected| == |vios| && index < |vios| && Valid(reflected)
      modifies this
      ensures fullReevaluate ==> Valid(vios)
      ensures fullReevaluate <==> vios[index] > old(violation) && old(minViolationIndices) - {index} == {}
      ensures !fullReevaluate ==> Valid(reflected[index := vios[index]])
    {
      var y := vios[index];
      ghost var after := reflected[index := y];
      IndicesOfUpdated(reflected, index, y, violation);
      fullReevaluate := false;
      if y < violation {
        assert IndicesOf(after, y) == {index};
        violation := y;
        minViolationIndices := {index};
      } else if y == violation {
        minViolationIndices := minViolationIndices + {index};
      } else {
        minViolationIndices := minViolationIndices - {index};
        if |minViolationIndices| == 0 {
          fullReevaluate := true;
          Reevaluate(vios);
        } else {
          var k := PickElement(minViolationIndices);
          assert after[k] == violation;
        }
      }
    }

    /**
     * valueAdded as the source writes it.  For a non-empty operand the state
     * is right for the new operands.  An empty operand leaves the operator
     * undefined with a stale violation, which the new operand is compared
     * against: nothing marks the operator defined again, and when the new
     * violation is larger no position attains the reported minimum.
     */
    method ValueAddedAsWritten(ghost before: seq<nat>, index: nat, y: nat)
      requires Valid(before) && index <= |before|
      modifies this
      ensures |before| > 0 ==> Valid(Inserted(before, index, y))
      ensures |before| == 0 ==> !defined && violation == (if y < old(violation) then y else old(violation))
      ensures |before| == 0 ==> minViolationIndices == if y > old(violation) then {} else {index}
    {
      ghost var after := Inserted(before, index, y);
      IndicesOfInserted(before, index, y, violation);
      if y > violation {
        minViolationIndices := ShiftedUp(minViolationIndices, index);
        if |before| > 0 {
          ghost var k :| 0 <= k < |before| && before[k] == violation;
          assert after[if k < index then k else k + 1] == violation;
        }
      } else if y < violation {
        IndicesOfInserted(before, index, y, y);
        assert IndicesOf(before, y) == {};
        minViolationIndices := {index};
        violation := y;
      } else {
        minViolationIndices := ShiftedUp(minViolationIndices, index) + {index};
      }
    }

    /**
     * An emptied disjunction whose stale violation is 0 (every operand had
     * held), given one operand with violation 3 as written, stays undefined,
     * keeps reporting violation 0 and records no position, while the only
     * operand has violation 3.
     */
    lemma AddToEmptyAsWrittenWrong()
      requires Valid([]) && violation == 0
      ensures IsMinimum([3], 3) && IndicesOf([3], 3) == {0}
      ensures !Valid([3])
    {
      assert [3][0] == 3;
    }

    /**
     * An operand with violation y was inserted at index: into an empty
     * operand the disjunction becomes defined with the new operand as its
     * minimum; otherwise as the source writes it.
     */
    method ValueAdded(ghost before: seq<nat>, index: nat, y: nat)
      requires Valid(before) && index <= |before|
      modifies this
      ensures Valid(Inserted(before, index, y))
    {
      if !defined {
        assert Inserted(before, index, y) == [y];
        assert IndicesOf([y], y) == {0};
        defined, violation, minViolationIndices := true, y, {index};
        return;
      }
      ValueAddedAsWritten(before, index, y);
    }

    /** The operand at index of before was removed, leaving vios. */
    method ValueRemoved(vios: seq<nat>, index: nat, ghost before: seq<nat>)
      requires index < |before| && vios == Removed(before, index) && Valid(before)
      modifies this
      ensures Valid(vios)
    {
      if index in minViolationIndices {
        minViolationIndices := minViolationIndices - {index};
      }
      assert minViolationIndices == IndicesOf(before, violation) - {index};
      if |minViolationIndices| > 0 {
        RemovedKeepsIndices(before, index, violation, minViolationIndices);
        minViolationIndices := ShiftedDown(minViolationIndices, index);
      } else {
        Reevaluate(vios);
      }
    }

    /** Operands index1 and index2 of before exchanged places. */
    method PositionsSwapped(ghost before: seq<nat>, index1: nat, index2: nat)
      requires index1 < |before| && index2 < |before| && Valid(before)
      modifies this
      ensures Valid(Swapped(before, index1, index2))
      ensures |minViolationIndices| == old(|minViolationIndices|)
    {
      SwappedKeepsMinimum(before, index1, index2, violation);
      SwappedMembershipTwice(minViolationIndices, index1, index2);
      ghost var expected := SwappedMembership(minViolationIndices, index1, index2);
      if index1 in minViolationIndices {
        if index2 !in minViolationIndices {
          minViolationIndices := minViolationIndices - {index1} + {index2};
        }
      } else {
        if index2 in minViolationIndices {
          minViolationIndices := minViolationIndices - {index2} + {index1};
        }
      }
      assert minViolationIndices == expected;
    }

    /**
     * The operands in [startIndex, endIndex) changed from before to vios;
     * each is absorbed in turn until one forces a full recomputation.
     */
    method SubsequenceChanged(ghost before: seq<nat>, vios: seq<nat>, startIndex: nat, endIndex: nat)
      requires |before| == |vios| && startIndex <= endIndex <= |vios| && Valid(before)
      requires forall k :: 0 <= k < |vios| && !(startIndex <= k < endIndex) ==> vios[k] == before[k]
      modifies this
      ensures Valid(vios)
    {
      ghost var reflected := before;
      var i := startIndex;
      var done := false;
      while i < endIndex && !done
        invariant startIndex <= i <= endIndex
        invariant |reflected| == |vios|
        invariant done ==> Valid(vios)
        invariant !done ==> Valid(reflected)
        invariant forall k :: 0 <= k < |vios| && !(i <= k < endIndex) ==> reflected[k] == vios[k]
      {
        done := HandleOperandValueChange(vios, i, reflected);
        reflected := reflected[i := vios[i]];
        i := i + 1;
      }
      if !done {
        assert reflected == vios;
      }
    }
  }
}
