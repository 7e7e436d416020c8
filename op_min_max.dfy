// The minimum (or, in the other mode, the maximum) of a sequence of integer
// operands, some of which may be undefined.  The operator keeps the extremal
// value and the set of operand positions attaining it; it is defined when
// the operand is non-empty and none of its members is undefined.

module OpMinMaxes {
  import opened Common
  import opened ShiftIndices
  import opened SequenceSwaps
  import opened ExtremeIndices

  /** Whether u is strictly better than v: smaller in min mode, larger in max mode. */
  function Compare(minMode: bool, u: int, v: int): (better: bool)
    ensures minMode ==> (better <==> u < v)
    ensures !minMode ==> (better <==> v < u)
  {
    if minMode then u < v else v < u
  }

  /** In either mode, "better" is a strict total order. */
  lemma CompareIsStrictTotalOrder(minMode: bool, u: int, v: int, w: int)
    ensures !Compare(minMode, u, u)
    ensures Compare(minMode, u, v) ==> !Compare(minMode, v, u)
    ensures Compare(minMode, u, v) && Compare(minMode, v, w) ==> Compare(minMode, u, w)
    ensures u != v ==> Compare(minMode, u, v) || Compare(minMode, v, u)
  {
  }

  /** Whether some member is defined. */
  ghost predicate HasDefined(ops: seq<Option<int>>) {
    exists k :: 0 <= k < |ops| && ops[k].Some?
  }

  /** Whether every member is defined. */
  predicate AllDefined(ops: seq<Option<int>>) {
    forall k :: 0 <= k < |ops| ==> ops[k].Some?
  }

  /** v is held by a defined member and no defined member is better. */
  ghost predicate IsExtremum(minMode: bool, ops: seq<Option<int>>, v: int) {
    (exists k :: 0 <= k < |ops| && ops[k] == Some(v))
    && forall k :: 0 <= k < |ops| && ops[k].Some? ==> !Compare(minMode, ops[k].value, v)
  }

  /** In min mode the extremum is the least defined value, in max mode the greatest. */
  lemma ExtremumBounds(minMode: bool, ops: seq<Option<int>>, v: int)
    requires IsExtremum(minMode, ops, v)
    ensures forall k :: 0 <= k < |ops| && ops[k].Some? ==> if minMode then v <= ops[k].value else ops[k].value <= v
  {
  }

  /**
   * The extremal value v and index set m agree with ops: with some defined
   * member, v is the extremum and m the positions holding it; otherwise m is
   * empty.
   */
  ghost predicate ExtremumHolds(minMode: bool, ops: seq<Option<int>>, v: int, m: set<int>) {
    (HasDefined(ops) ==> IsExtremum(minMode, ops, v) && m == IndicesOf(ops, Some(v)))
    && (!HasDefined(ops) ==> m == {})
  }

  /** A non-empty index set means some defined member attains the value. */
  lemma ExtremumWitness(minMode: bool, ops: seq<Option<int>>, v: int, m: set<int>)
    requires ExtremumHolds(minMode, ops, v, m) && m != {}
    ensures HasDefined(ops) && IsExtremum(minMode, ops, v)
  {
    var e := PickElement(m);
    if !HasDefined(ops) {
      assert false;
    }
  }

  /** Removing a position keeps the extremum when another position attains it. */
  lemma RemovedKeepsExtremum(minMode: bool, ops: seq<Option<int>>, index: nat, v: int, e: int)
    requires index < |ops| && IsExtremum(minMode, ops, v)
    requires 0 <= e < |ops| && ops[e] == Some(v) && e != index
    ensures IsExtremum(minMode, Removed(ops, index), v)
  {
    assert Removed(ops, index)[if e > index then e - 1 else e] == Some(v);
  }

  /**
   * Removing a member keeps the extremum when another position attains it;
   * the index set loses the position and is renumbered.
   */
  lemma RemovedExtremum(minMode: bool, ops: seq<Option<int>>, index: nat, v: int, m: set<int>)
    requires index < |ops| && ExtremumHolds(minMode, ops, v, m) && m - {index} != {}
    ensures ExtremumHolds(minMode, Removed(ops, index), v, ShiftedDown(m - {index}, index))
    ensures ops[index].Some? ==> AllDefined(Removed(ops, index)) == AllDefined(ops)
  {
    IndicesOfRemoved(ops, index, Some(v));
    ExtremumWitness(minMode, ops, v, m);
    var e := PickElement(m - {index});
    RemovedKeepsExtremum(minMode, ops, index, v, e);
    if ops[index].Some? {
      RemovedDefined(ops, index);
    }
  }

  /** Removing a defined member keeps every other member's definedness. */
  lemma RemovedDefined(ops: seq<Option<int>>, index: nat)
    requires index < |ops| && ops[index].Some?
    ensures AllDefined(Removed(ops, index)) == AllDefined(ops)
  {
    var r := Removed(ops, index);
    if !AllDefined(ops) {
      var k :| 0 <= k < |ops| && ops[k].None?;
      assert r[if k > index then k - 1 else k].None?;
    }
  }

  /** An inserted member is defined and the operand stays fully defined exactly when both were. */
  lemma InsertedDefined(ops: seq<Option<int>>, index: nat, y: Option<int>)
    requires index <= |ops|
    ensures AllDefined(Inserted(ops, index, y)) <==> AllDefined(ops) && y.Some?
    ensures HasDefined(Inserted(ops, index, y)) <==> HasDefined(ops) || y.Some?
  {
    var t := Inserted(ops, index, y);
    assert forall k :: 0 <= k < |ops| ==> t[if k < index then k else k + 1] == ops[k];
  }

  /** An inserted member better than the extremum (or the first defined one) becomes the sole extremal position. */
  lemma InsertedBetter(minMode: bool, ops: seq<Option<int>>, index: nat, v: int, m: set<int>, x: int)
    requires index <= |ops| && ExtremumHolds(minMode, ops, v, m)
    requires m == {} || Compare(minMode, x, v)
    ensures ExtremumHolds(minMode, Inserted(ops, index, Some(x)), x, {index})
  {
    var t := Inserted(ops, index, Some(x));
    InsertedDefined(ops, index, Some(x));
    if m != {} {
      ExtremumWitness(minMode, ops, v, m);
    }
    IndicesOfInserted(ops, index, Some(x), Some(x));
    assert IndicesOf(ops, Some(x)) == {};
  }

  /** An inserted member equal to the extremum joins the shifted index set. */
  lemma InsertedEqual(minMode: bool, ops: seq<Option<int>>, index: nat, v: int, m: set<int>)
    requires index <= |ops| && ExtremumHolds(minMode, ops, v, m) && m != {}
    ensures ExtremumHolds(minMode, Inserted(ops, index, Some(v)), v, ShiftedUp(m, index) + {index})
  {
    var t := Inserted(ops, index, Some(v));
    InsertedDefined(ops, index, Some(v));
    ExtremumWitness(minMode, ops, v, m);
    IndicesOfInserted(ops, index, Some(v), Some(v));
  }

  /** An inserted member that is worse, or undefined, only shifts the index set. */
  lemma InsertedOther(minMode: bool, ops: seq<Option<int>>, index: nat, v: int, m: set<int>, y: Option<int>)
    requires index <= |ops| && ExtremumHolds(minMode, ops, v, m) && m != {}
    requires y.Some? ==> y.value != v && !Compare(minMode, y.value, v)
    ensures ExtremumHolds(minMode, Inserted(ops, index, y), v, ShiftedUp(m, index))
  {
    var t := Inserted(ops, index, y);
    InsertedDefined(ops, index, y);
    ExtremumWitness(minMode, ops, v, m);
    IndicesOfInserted(ops, index, y, Some(v));
    var k :| 0 <= k < |ops| && ops[k] == Some(v);
    assert t[if k < index then k else k + 1] == Some(v);
  }

  /** An undefined member inserted into an operand with no defined member changes nothing. */
  lemma InsertedNothing(minMode: bool, ops: seq<Option<int>>, index: nat, v: int)
    requires index <= |ops| && ExtremumHolds(minMode, ops, v, {})
    ensures ExtremumHolds(minMode, Inserted(ops, index, None), v, {})
  {
    InsertedDefined(ops, index, None);
    if HasDefined(ops) {
      ExtremumWitnessFromMember(minMode, ops, v, {});
    }
  }

  /** With some defined member the index set is not empty. */
  lemma ExtremumWitnessFromMember(minMode: bool, ops: seq<Option<int>>, v: int, m: set<int>)
    requires ExtremumHolds(minMode, ops, v, m) && HasDefined(ops)
    ensures m != {}
  {
    var k :| 0 <= k < |ops| && ops[k] == Some(v);
    assert k in m;
  }

  /** A member changed to a value better than the extremum (or the first defined one) becomes the sole extremal position. */
  lemma UpdatedBetter(minMode: bool, ops: seq<Option<int>>, index: nat, v: int, m: set<int>, x: int)
    requires index < |ops| && ExtremumHolds(minMode, ops, v, m)
    requires m == {} || Compare(minMode, x, v)
    ensures ExtremumHolds(minMode, ops[index := Some(x)], x, {index})
  {
    var t := ops[index := Some(x)];
    assert t[index].Some?;
    if m != {} {
      ExtremumWitness(minMode, ops, v, m);
    } else if HasDefined(ops) {
      ExtremumWitnessFromMember(minMode, ops, v, m);
    }
    IndicesOfUpdated(ops, index, Some(x), Some(x));
    assert IndicesOf(ops, Some(x)) - {index} == {};
  }

  /** A member changed to the extremum joins the index set. */
  lemma UpdatedEqual(minMode: bool, ops: seq<Option<int>>, index: nat, v: int, m: set<int>)
    requires index < |ops| && ExtremumHolds(minMode, ops, v, m) && m != {}
    ensures ExtremumHolds(minMode, ops[index := Some(v)], v, m + {index})
  {
    ExtremumWitness(minMode, ops, v, m);
    IndicesOfUpdated(ops, index, Some(v), Some(v));
    assert ops[index := Some(v)][index].Some?;
  }

  /**
   * A member changed to a worse value, or to undefined, leaves the index set
   * when another position still attains the extremum.
   */
  lemma UpdatedOther(minMode: bool, ops: seq<Option<int>>, index: nat, v: int, m: set<int>, y: Option<int>)
    requires index < |ops| && ExtremumHolds(minMode, ops, v, m) && m - {index} != {}
    requires y.Some? ==> y.value != v && !Compare(minMode, y.value, v)
    ensures ExtremumHolds(minMode, ops[index := y], v, m - {index})
  {
    ExtremumWitness(minMode, ops, v, m);
    IndicesOfUpdated(ops, index, y, Some(v));
    var e := PickElement(m - {index});
    assert ops[index := y][e] == Some(v);
  }

  /** Swapping two members exchanges the membership of their positions. */
  lemma SwappedExtremum(minMode: bool, ops: seq<Option<int>>, i: nat, j: nat, v: int, m: set<int>)
    requires i < |ops| && j < |ops| && ExtremumHolds(minMode, ops, v, m)
    ensures ExtremumHolds(minMode, Swapped(ops, i, j), v, SwappedMembership(m, i, j))
    ensures AllDefined(Swapped(ops, i, j)) == AllDefined(ops)
  {
    var t := Swapped(ops, i, j);
    IndicesOfSwapped(ops, i, j, Some(v));
    var moved := (k: int) requires 0 <= k < |ops| => if k == i then j else if k == j then i else k;
    assert forall k :: 0 <= k < |ops| ==> t[moved(k)] == ops[k];
    if HasDefined(ops) {
      var k :| 0 <= k < |ops| && ops[k] == Some(v);
      assert t[moved(k)] == Some(v);
    } else {
      assert !HasDefined(t);
    }
  }

  /** Positions below i are left alone when shifting up from i. */
  lemma ShiftedUpBelow(m: set<int>, i: int)
    requires forall e :: e in m ==> e < i
    ensures ShiftedUp(m, i) == m
  {
    forall x | x in m ensures x in ShiftedUp(m, i) {
      assert x < i;
    }
    forall y | y in ShiftedUp(m, i) ensures y in m {
      var e :| e in m && y == (if e >= i then e + 1 else e);
    }
  }

  class OpMinMax {
    const minMode: bool
    var value: int
    var minValueIndices: set<int>
    var defined: bool

    /** The value and index set agree with the defined members of ops. */
    ghost predicate ExtremumValid(ops: seq<Option<int>>)
      reads this
    {
      ExtremumHolds(minMode, ops, value, minValueIndices)
    }

    /** The extremum is right and the operator is defined exactly when the operand is non-empty and fully defined. */
    ghost predicate Valid(ops: seq<Option<int>>)
      reads this
    {
      ExtremumValid(ops) && (defined <==> AllDefined(ops) && |ops| > 0)
    }

    constructor (minMode: bool)
      ensures this.minMode == minMode && Valid([]) && !defined
    {
      this.minMode := minMode;
      value := 0;
      minValueIndices := {};
      defined := false;
    }

    /** The operator is defined exactly when its index set is non-empty and every member is defined. */
    lemma DefinedIffIndicesAndAllDefined(ops: seq<Option<int>>)
      requires Valid(ops)
      ensures defined <==> AllDefined(ops) && minValueIndices != {}
    {
      if defined {
        assert ops[0].Some?;
        ExtremumWitnessFromMember(minMode, ops, value, minValueIndices);
      } else if AllDefined(ops) && minValueIndices != {} {
        ExtremumWitness(minMode, ops, value, minValueIndices);
      }
    }

    /**
     * Scans the operand for the extremum, starting from an empty index set,
     * and sets definedness from the scan.
     */
    method UpdateMinValues(ops: seq<Option<int>>)
      requires minValueIndices == {}
      modifies this
      ensures Valid(ops)
    {
      var foundUndefined := false;
      var i := 0;
      while i < |ops|
        invariant 0 <= i <= |ops|
        invariant foundUndefined == !AllDefined(ops[..i])
        invariant ExtremumValid(ops[..i])
      {
        assert ops[..i + 1] == Inserted(ops[..i], i, ops[i]);
        InsertedDefined(ops[..i], i, ops[i]);
        match ops[i] {
          case None =>
            foundUndefined := true;
            if minValueIndices == {} {
              InsertedNothing(minMode, ops[..i], i, value);
            } else {
              InsertedOther(minMode, ops[..i], i, value, minValueIndices, None);
              ShiftedUpBelow(minValueIndices, i);
            }
          case Some(x) =>
            if minValueIndices == {} || Compare(minMode, x, value) {
              InsertedBetter(minMode, ops[..i], i, value, minValueIndices, x);
              value := x;
              minValueIndices := {i};
            } else if x == value {
              InsertedEqual(minMode, ops[..i], i, value, minValueIndices);
              ShiftedUpBelow(minValueIndices, i);
              minValueIndices := minValueIndices + {i};
            } else {
              InsertedOther(minMode, ops[..i], i, value, minValueIndices, Some(x));
              ShiftedUpBelow(minValueIndices, i);
            }
        }
        i := i + 1;
      }
      assert ops[..i] == ops;
      if |ops| > 0 && !foundUndefined {
        assert ops[0].Some?;
        ExtremumWitnessFromMember(minMode, ops, value, minValueIndices);
      }
      defined := !foundUndefined && minValueIndices != {};
    }

    /** Recomputes everything from scratch. */
    method Reevaluate(ops: seq<Option<int>>)
      modifies this
      ensures Valid(ops)
    {
      minValueIndices := {};
      defined := true;
      UpdateMinValues(ops);
    }

    /**
     * Member index became undefined, the rest of the state reflecting the
     * members in reflected: the operator becomes undefined and the index is
     * dropped; when no extremal index is left the operand is scanned again.
     */
    method HandleMemberUndefined(ops: seq<Option<int>>, index: nat, ghost reflected: seq<Option<int>>)
      returns (ghost nowReflected: seq<Option<int>>)
      requires |reflected| == |ops| && index < |ops| && Valid(reflected) && ops[index].None?
      modifies this
      ensures nowReflected == reflected[index := None] || nowReflected == ops
      ensures Valid(nowReflected)
    {
      ghost var m0 := minValueIndices;
      defined := false;
      if index in minValueIndices {
        minValueIndices := minValueIndices - {index};
      }
      assert minValueIndices == m0 - {index};
      if minValueIndices == {} {
        UpdateMinValues(ops);
        nowReflected := ops;
      } else {
        UpdatedOther(minMode, reflected, index, value, m0, None);
        nowReflected := reflected[index := None];
        assert nowReflected[index].None?;
      }
    }

    /**
     * Member index became defined: it may become the new extremum or join
     * the index set, and the operator is defined again when the whole
     * operand is.
     */
    method HandleMemberDefined(ops: seq<Option<int>>, index: nat)
      requires index < |ops| && Valid(ops[index := None])
      modifies this
      ensures Valid(ops)
    {
      ghost var before := ops[index := None];
      if ops[index].None? {
        assert before == ops;
        return;
      }
      var x := ops[index].value;
      assert before[index := Some(x)] == ops;
      if minValueIndices == {} || Compare(minMode, x, value) {
        UpdatedBetter(minMode, before, index, value, minValueIndices, x);
        minValueIndices := {index};
        value := x;
      } else if x == value {
        UpdatedEqual(minMode, before, index, value, minValueIndices);
        minValueIndices := minValueIndices + {index};
      } else {
        ExtremumWitness(minMode, before, value, minValueIndices);
        IndicesOfUpdated(before, index, Some(x), Some(value));
        UpdatedOther(minMode, before, index, value, minValueIndices, Some(x));
        assert index !in minValueIndices;
        assert minValueIndices - {index} == minValueIndices;
      }
      defined := AllDefined(ops);
    }

    /**
     * Absorbs a change of member index, the rest of the state reflecting the
     * members in reflected; returns whether the extremum was lost and the
     * whole operand rescanned.  A member that was undefined and is now
     * defined is handled by HandleMemberDefined instead.
     */
    method HandleOperandValueChange(ops: seq<Option<int>>, index: nat, ghost reflected: seq<Option<int>>)
      returns (fullReevaluate: bool, ghost nowReflected: seq<Option<int>>)
      requires |reflected| == |ops| && index < |ops| && Valid(reflected)
      requires ops[index].Some? ==> reflected[index].Some?
      modifies this
      ensures nowReflected == reflected[index := ops[index]] || nowReflected == ops
      ensures fullReevaluate ==> nowReflected == ops
      ensures fullReevaluate <==> ops[index].Some? && !Compare(minMode, ops[index].value, old(value))
                                  && ops[index].value != old(value) && old(minValueIndices) - {index} == {}
      ensures Valid(nowReflected)
    {
      fullReevaluate := false;
      if ops[index].None? {
        nowReflected := HandleMemberUndefined(ops, index, reflected);
        return;
      }
      var x := ops[index].value;
      nowReflected := reflected[index := Some(x)];
      assert AllDefined(nowReflected) == AllDefined(reflected) by {
        assert forall k :: 0 <= k < |reflected| ==> (nowReflected[k].Some? <==> reflected[k].Some?);
      }
      assert HasDefined(reflected) by {
        assert reflected[index].Some?;
      }
      ExtremumWitnessFromMember(minMode, reflected, value, minValueIndices);
      if Compare(minMode, x, value) {
        UpdatedBetter(minMode, reflected, index, value, minValueIndices, x);
        value := x;
        minValueIndices := {index};
      } else if x == value {
        UpdatedEqual(minMode, reflected, index, value, minValueIndices);
        minValueIndices := minValueIndices + {index};
      } else {
        if minValueIndices - {index} == {} {
          minValueIndices := {};
          fullReevaluate := true;
          Reevaluate(ops);
          nowReflected := ops;
        } else {
          UpdatedOther(minMode, reflected, index, value, minValueIndices, Some(x));
          minValueIndices := minValueIndices - {index};
        }
      }
    }

    /**
     * Member ops[index] was inserted into before.  The extremum and index
     * set are kept right; definedness is kept right when the new member is
     * defined (an undefined member is reported separately by the operand).
     */
    method ValueAdded(ops: seq<Option<int>>, index: nat, ghost before: seq<Option<int>>)
      requires Valid(before) && index <= |before| && index < |ops| && ops == Inserted(before, index, ops[index])
      modifies this
      ensures ExtremumValid(ops)
      ensures ops[index].Some? ==> Valid(ops)
      ensures ops[index].None? ==> defined == old(defined)
    {
      var y := ops[index];
      InsertedDefined(before, index, y);
      if y.Some? && (minValueIndices == {} || Compare(minMode, y.value, value)) {
        InsertedBetter(minMode, before, index, value, minValueIndices, y.value);
        minValueIndices := {index};
        value := y.value;
        if !defined {
          defined := AllDefined(ops);
        }
      } else if y.Some? && y.value == value {
        InsertedEqual(minMode, before, index, value, minValueIndices);
        ExtremumWitnessFromMember(minMode, Inserted(before, index, y), value, ShiftedUp(minValueIndices, index) + {index});
        minValueIndices := ShiftedUp(minValueIndices, index) + {index};
      } else if minValueIndices != {} {
        InsertedOther(minMode, before, index, value, minValueIndices, y);
        minValueIndices := ShiftedUp(minValueIndices, index);
      } else {
        InsertedNothing(minMode, before, index, value);
      }
    }

    /**
     * The member at index of before was removed, leaving ops.  The extremum
     * and index set are kept right; definedness is kept right unless the
     * removed member was undefined and the index set did not run empty.
     */
    method ValueRemoved(ops: seq<Option<int>>, index: nat, ghost before: seq<Option<int>>)
      requires index < |before| && ops == Removed(before, index) && Valid(before)
      modifies this
      ensures ExtremumValid(ops)
      ensures before[index].Some? ==> Valid(ops)
      ensures old(minValueIndices) - {index} != {} ==> defined == old(defined)
    {
      ghost var m0 := minValueIndices;
      if index in minValueIndices {
        minValueIndices := minValueIndices - {index};
      }
      assert minValueIndices == m0 - {index};
      if minValueIndices != {} {
        RemovedExtremum(minMode, before, index, value, m0);
        minValueIndices := ShiftedDown(minValueIndices, index);
      } else {
        UpdateMinValues(ops);
      }
    }

    /** Members index1 and index2 of before exchanged places. */
    method PositionsSwapped(ghost before: seq<Option<int>>, index1: nat, index2: nat)
      requires index1 < |before| && index2 < |before| && Valid(before)
      modifies this
      ensures Valid(Swapped(before, index1, index2))
      ensures |minValueIndices| == old(|minValueIndices|)
    {
      SwappedExtremum(minMode, before, index1, index2, value, minValueIndices);
      SwappedMembershipTwice(minValueIndices, index1, index2);
      if index1 in minValueIndices {
        if index2 !in minValueIndices {
          minValueIndices := minValueIndices - {index1} + {index2};
        }
      } else {
        if index2 in minValueIndices {
          minValueIndices := minValueIndices - {index2} + {index1};
        }
      }
    }

    /**
     * The members in [startIndex, endIndex) changed from before to ops (none
     * of them going from undefined to defined); each is absorbed in turn
     * until one forces a full rescan.
     */
    method SubsequenceChanged(ghost before: seq<Option<int>>, ops: seq<Option<int>>, startIndex: nat, endIndex: nat)
      requires |before| == |ops| && startIndex <= endIndex <= |ops| && Valid(before)
      requires forall k :: 0 <= k < |ops| && !(startIndex <= k < endIndex) ==> ops[k] == before[k]
      requires forall k :: startIndex <= k < endIndex && ops[k].Some? ==> before[k].Some?
      modifies this
      ensures Valid(ops)
    {
      ghost var reflected := before;
      var i := startIndex;
      var done := false;
      while i < endIndex && !done
        invariant startIndex <= i <= endIndex
        invariant |reflected| == |ops| && Valid(reflected)
        invariant done ==> reflected == ops
        invariant forall k :: 0 <= k < |ops| && !(i <= k < endIndex) ==> reflected[k] == ops[k]
        invariant forall k :: i <= k < endIndex && ops[k].Some? ==> reflected[k].Some?
      {
        ghost var now;
        done, now := HandleOperandValueChange(ops, i, reflected);
        reflected := now;
        i := i + 1;
      }
      assert reflected == ops;
    }
  }
}
