// Renumbering of a set of operand indices after an operand was inserted into,
// or removed from, the operand sequence.  Both routines have two strategies:
// scanning the shifted range position by position, or collecting the indices
// that need to move and moving them.  Both strategies are proved against the
// same specification, so they agree.

module ShiftIndices {
  import opened Common
  import opened FastIterableIntSets

  /** Indices at or after fromIndex move one up; the rest stay. */
  function ShiftedUp(s: set<int>, fromIndex: int): (r: set<int>)
  {
    set e | e in s :: if e >= fromIndex then e + 1 else e
  }

  /** Indices after fromIndex move one down; the rest stay. */
  function ShiftedDown(s: set<int>, fromIndex: int): (r: set<int>)
  {
    set e | e in s :: if e > fromIndex then e - 1 else e
  }

  /** Shifting up never loses or merges indices. */
  lemma {:induction false} ShiftedUpCardinality(s: set<int>, fromIndex: int)
    ensures |ShiftedUp(s, fromIndex)| == |s|
    decreases |s|
  {
    if |s| > 0 {
      var x := PickElement(s);
      var rest := s - {x};
      ShiftedUpCardinality(rest, fromIndex);
      var fx := if x >= fromIndex then x + 1 else x;
      forall y | y in ShiftedUp(s, fromIndex) ensures y in ShiftedUp(rest, fromIndex) + {fx} {
        var e :| e in s && y == (if e >= fromIndex then e + 1 else e);
        if e != x { assert e in rest; }
      }
      assert ShiftedUp(s, fromIndex) == ShiftedUp(rest, fromIndex) + {fx};
    }
  }

  /** Shifting down loses nothing when the vacated index fromIndex is absent. */
  lemma {:induction false} ShiftedDownCardinality(s: set<int>, fromIndex: int)
    requires fromIndex !in s
    ensures |ShiftedDown(s, fromIndex)| == |s|
    decreases |s|
  {
    if |s| > 0 {
      var x := PickElement(s);
      var rest := s - {x};
      ShiftedDownCardinality(rest, fromIndex);
      var fx := if x > fromIndex then x - 1 else x;
      forall y | y in ShiftedDown(s, fromIndex) ensures y in ShiftedDown(rest, fromIndex) + {fx} {
        var e :| e in s && y == (if e > fromIndex then e - 1 else e);
        if e != x { assert e in rest; }
      }
      assert ShiftedDown(s, fromIndex) == ShiftedDown(rest, fromIndex) + {fx};
    }
  }

  /** Shifting up then down at the same index restores the set. */
  lemma ShiftDownUndoesShiftUp(s: set<int>, fromIndex: int)
    ensures fromIndex !in ShiftedUp(s, fromIndex)
    ensures ShiftedDown(ShiftedUp(s, fromIndex), fromIndex) == s
  {
    var u := ShiftedUp(s, fromIndex);
    forall x | x in s ensures x in ShiftedDown(u, fromIndex) {
      var y := if x >= fromIndex then x + 1 else x;
      assert y in u;
    }
  }

  /** Shifting down then up restores a set that did not hold fromIndex. */
  lemma ShiftUpUndoesShiftDown(s: set<int>, fromIndex: int)
    requires fromIndex !in s
    ensures ShiftedUp(ShiftedDown(s, fromIndex), fromIndex) == s
  {
    var d := ShiftedDown(s, fromIndex);
    forall x | x in s ensures x in ShiftedUp(d, fromIndex) {
      var y := if x > fromIndex then x - 1 else x;
      assert y in d;
    }
  }

  // The values of a sequence, each moved by delta.
  ghost function Offset(b: seq<int>, delta: int): (r: set<int>) {
    set x | x in b :: x + delta
  }

  lemma OffsetAppend(b: seq<int>, x: int, delta: int)
    ensures Offset(b + [x], delta) == Offset(b, delta) + {x + delta}
  {
    forall y | y in Offset(b + [x], delta) ensures y in Offset(b, delta) + {x + delta} {
      var z :| z in b + [x] && y == z + delta;
      if z != x { assert z in b; }
    }
    forall y | y in Offset(b, delta) + {x + delta} ensures y in Offset(b + [x], delta) {
      if y == x + delta {
        assert x in b + [x];
      } else {
        var z :| z in b && y == z + delta;
        assert z in b + [x];
      }
    }
  }

  // The set reached by the upward scan when it is about to visit position i:
  // indices below i are untouched, those at or above i have already moved.
  ghost function ScanUpState(s: set<int>, i: int): (r: set<int>) {
    (set e | e in s && e < i) + (set e | e in s && e >= i :: e + 1)
  }

  lemma ScanUpStep(s: set<int>, i: int)
    ensures i - 1 in ScanUpState(s, i) <==> i - 1 in s
    ensures i !in ScanUpState(s, i)
    ensures ScanUpState(s, i - 1)
            == ScanUpState(s, i) - {i - 1} + (if i - 1 in s then {i} else {})
  {
    var a := ScanUpState(s, i - 1);
    var b := ScanUpState(s, i) - {i - 1} + (if i - 1 in s then {i} else {});
    forall x | x in a ensures x in b {
      if x < i - 1 { assert x in s; } else { assert x - 1 in s; }
    }
    forall x | x in b ensures x in a {
      if x == i { assert i - 1 in s; }
      else if x < i { assert x in s; } else { assert x - 1 in s; }
    }
  }

  // The set reached by the downward scan when it is about to visit position i.
  ghost function ScanDownState(s: set<int>, fromIndex: int, i: int): (r: set<int>) {
    (set e | e in s && e < fromIndex)
    + (set e | e in s && fromIndex < e <= i :: e - 1)
    + (set e | e in s && e > i)
  }

  lemma ScanDownStep(s: set<int>, fromIndex: int, i: int)
    requires fromIndex !in s && fromIndex <= i
    ensures i + 1 in ScanDownState(s, fromIndex, i) <==> i + 1 in s
    ensures i !in ScanDownState(s, fromIndex, i)
    ensures ScanDownState(s, fromIndex, i + 1)
            == ScanDownState(s, fromIndex, i) - {i + 1} + (if i + 1 in s then {i} else {})
  {
    var a := ScanDownState(s, fromIndex, i + 1);
    var b := ScanDownState(s, fromIndex, i) - {i + 1} + (if i + 1 in s then {i} else {});
    forall x | x in a ensures x in b {
      if x < fromIndex { assert x in s; }
      else if x + 1 in s && fromIndex < x + 1 <= i + 1 { }
      else { assert x in s; }
    }
    forall x | x in b ensures x in a {
      if x == i { assert i + 1 in s; }
      else if x < fromIndex { assert x in s; }
      else if x + 1 in s && fromIndex < x + 1 <= i { }
      else { assert x in s; }
    }
  }

  lemma ScanUpBounds(s: set<int>, fromIndex: int, top: int)
    requires forall e :: e in s ==> e < top
    ensures ScanUpState(s, top) == s
    ensures ScanUpState(s, fromIndex) == ShiftedUp(s, fromIndex)
  {
  }

  lemma ScanDownBounds(s: set<int>, fromIndex: int, top: int)
    requires fromIndex !in s
    requires forall e :: e in s ==> e <= top
    ensures ScanDownState(s, fromIndex, fromIndex) == s
    ensures ScanDownState(s, fromIndex, top) == ShiftedDown(s, fromIndex)
  {
    assert ScanDownState(s, fromIndex, fromIndex) == s;
    var d := ScanDownState(s, fromIndex, top);
    forall x | x in d ensures x in ShiftedDown(s, fromIndex) {
      if x in s && x < fromIndex { }
      else if x + 1 in s && fromIndex < x + 1 <= top { }
      else { assert x in s; }
    }
  }

  /** The members at or after (or strictly after) fromIndex, in iteration order. */
  method CollectFrom(members: seq<int>, fromIndex: int, strict: bool) returns (buffer: seq<int>)
    ensures forall e :: e in buffer <==> e in members && (if strict then e > fromIndex else e >= fromIndex)
  {
    buffer := [];
    var k := 0;
    while k < |members|
      invariant 0 <= k <= |members|
      invariant forall e :: e in buffer <==> e in members[..k] && (if strict then e > fromIndex else e >= fromIndex)
    {
      if (if strict then members[k] > fromIndex else members[k] >= fromIndex) {
        buffer := buffer + [members[k]];
      }
      assert members[..k + 1] == members[..k] + [members[k]];
      k := k + 1;
    }
    assert members[..k] == members;
  }

  method EraseEach(indexSet: FastIterableIntSet, buffer: seq<int>)
    requires indexSet.Valid()
    requires forall b :: b in buffer ==> indexSet.InRange(b)
    modifies indexSet
    ensures indexSet.Valid()
    ensures indexSet.Elements() == old(indexSet.Elements()) - Elems(buffer)
    ensures |indexSet.elementIndexes| == old(|indexSet.elementIndexes|)
  {
    var k := 0;
    while k < |buffer|
      invariant 0 <= k <= |buffer|
      invariant indexSet.Valid()
      invariant |indexSet.elementIndexes| == old(|indexSet.elementIndexes|)
      invariant indexSet.Elements() == old(indexSet.Elements()) - Elems(buffer[..k])
    {
      assert buffer[k] in buffer;
      var _ := indexSet.Erase(buffer[k]);
      assert buffer[..k + 1] == buffer[..k] + [buffer[k]];
      assert Elems(buffer[..k + 1]) == Elems(buffer[..k]) + {buffer[k]};
      k := k + 1;
    }
    assert buffer[..k] == buffer;
  }

  method InsertEach(indexSet: FastIterableIntSet, buffer: seq<int>, delta: int)
    requires indexSet.Valid()
    requires forall b :: b in buffer ==> indexSet.InRange(b + delta)
    modifies indexSet
    ensures indexSet.Valid()
    ensures indexSet.Elements() == old(indexSet.Elements()) + Offset(buffer, delta)
    ensures |indexSet.elementIndexes| == old(|indexSet.elementIndexes|)
  {
    var k := 0;
    while k < |buffer|
      invariant 0 <= k <= |buffer|
      invariant indexSet.Valid()
      invariant |indexSet.elementIndexes| == old(|indexSet.elementIndexes|)
      invariant indexSet.Elements() == old(indexSet.Elements()) + Offset(buffer[..k], delta)
    {
      assert buffer[k] in buffer;
      var _ := indexSet.Insert(buffer[k] + delta);
      assert buffer[..k + 1] == buffer[..k] + [buffer[k]];
      OffsetAppend(buffer[..k], buffer[k], delta);
      k := k + 1;
    }
    assert buffer[..k] == buffer;
  }

  /** Taking the collected indices out and putting them back moved is the upward shift. */
  lemma MovedIsShiftedUp(s: set<int>, buffer: seq<int>, fromIndex: int)
    requires forall e :: e in buffer <==> e in s && e >= fromIndex
    ensures (s - Elems(buffer)) + Offset(buffer, 1) == ShiftedUp(s, fromIndex)
  {
    var lhs := (s - Elems(buffer)) + Offset(buffer, 1);
    forall x | x in ShiftedUp(s, fromIndex) ensures x in lhs {
      var e :| e in s && x == (if e >= fromIndex then e + 1 else e);
      if e >= fromIndex { assert e in buffer; }
    }
    forall x | x in lhs ensures x in ShiftedUp(s, fromIndex) {
      if x in Offset(buffer, 1) {
        var b :| b in buffer && x == b + 1;
        assert b in s;
      } else {
        assert x in s;
      }
    }
  }

  /** Taking the collected indices out and putting them back moved is the downward shift. */
  lemma MovedIsShiftedDown(s: set<int>, buffer: seq<int>, fromIndex: int)
    requires forall e :: e in buffer <==> e in s && e > fromIndex
    ensures (s - Elems(buffer)) + Offset(buffer, -1) == ShiftedDown(s, fromIndex)
  {
    var lhs := (s - Elems(buffer)) + Offset(buffer, -1);
    forall x | x in ShiftedDown(s, fromIndex) ensures x in lhs {
      var e :| e in s && x == (if e > fromIndex then e - 1 else e);
      if e > fromIndex { assert e in buffer; }
    }
    forall x | x in lhs ensures x in ShiftedDown(s, fromIndex) {
      if x in Offset(buffer, -1) {
        var b :| b in buffer && x == b - 1;
        assert b in s;
      } else {
        assert x in s;
      }
    }
  }

  /** Makes room for an operand inserted at fromIndex, newNumberElements being the new count. */
  method ShiftIndicesUp(fromIndex: int, newNumberElements: int, indexSet: FastIterableIntSet)
    requires indexSet.Valid()
    requires 0 <= fromIndex < newNumberElements
    requires indexSet.InRange(0) && indexSet.InRange(newNumberElements - 1)
    requires forall e :: e in indexSet.Elements() ==> 0 <= e < newNumberElements - 1
    modifies indexSet
    ensures indexSet.Valid()
    ensures indexSet.Elements() == ShiftedUp(old(indexSet.Elements()), fromIndex)
    ensures |indexSet.elementIndexes| == old(|indexSet.elementIndexes|)
  {
    if newNumberElements - fromIndex <= |indexSet.contents| {
      ShiftUpByScan(fromIndex, newNumberElements, indexSet);
    } else {
      ShiftUpByBuffer(fromIndex, newNumberElements, indexSet);
    }
  }

  /** ShiftIndicesUp when the range to move is short: moves the positions one by one, from the top. */
  method ShiftUpByScan(fromIndex: int, newNumberElements: int, indexSet: FastIterableIntSet)
    requires indexSet.Valid()
    requires 0 <= fromIndex < newNumberElements
    requires indexSet.InRange(0) && indexSet.InRange(newNumberElements - 1)
    requires forall e :: e in indexSet.Elements() ==> 0 <= e < newNumberElements - 1
    modifies indexSet
    ensures indexSet.Valid()
    ensures indexSet.Elements() == ShiftedUp(old(indexSet.Elements()), fromIndex)
    ensures |indexSet.elementIndexes| == old(|indexSet.elementIndexes|)
  {
    ghost var s := indexSet.Elements();
    var i := newNumberElements - 1;
    ScanUpBounds(s, fromIndex, newNumberElements - 1);
    while i > fromIndex
      invariant fromIndex <= i <= newNumberElements - 1
      invariant indexSet.Valid()
      invariant |indexSet.elementIndexes| == old(|indexSet.elementIndexes|)
      invariant indexSet.Elements() == ScanUpState(s, i)
      decreases i
    {
      MoveUp(indexSet, i, s);
      i := i - 1;
    }
  }

  /** One step of the upward scan: position i - 1, when present, moves to i. */
  method MoveUp(indexSet: FastIterableIntSet, i: int, ghost s: set<int>)
    requires indexSet.Valid() && indexSet.InRange(i - 1) && indexSet.InRange(i)
    requires indexSet.Elements() == ScanUpState(s, i)
    modifies indexSet
    ensures indexSet.Valid() && indexSet.Elements() == ScanUpState(s, i - 1)
    ensures |indexSet.elementIndexes| == old(|indexSet.elementIndexes|)
  {
    ScanUpStep(s, i);
    var removed := indexSet.Erase(i - 1);
    if removed == 1 {
      var _ := indexSet.Insert(i);
    }
  }

  /** ShiftIndicesUp when the set is small: collects the members to move, erases them and reinserts them one higher. */
  method ShiftUpByBuffer(fromIndex: int, newNumberElements: int, indexSet: FastIterableIntSet)
    requires indexSet.Valid()
    requires 0 <= fromIndex < newNumberElements
    requires indexSet.InRange(0) && indexSet.InRange(newNumberElements - 1)
    requires forall e :: e in indexSet.Elements() ==> 0 <= e < newNumberElements - 1
    modifies indexSet
    ensures indexSet.Valid()
    ensures indexSet.Elements() == ShiftedUp(old(indexSet.Elements()), fromIndex)
    ensures |indexSet.elementIndexes| == old(|indexSet.elementIndexes|)
  {
    ghost var s := indexSet.Elements();
    var buffer := CollectFrom(indexSet.contents, fromIndex, false);
    assert forall b :: b in buffer ==> b in s;
    EraseEach(indexSet, buffer);
    InsertEach(indexSet, buffer, 1);
    MovedIsShiftedUp(s, buffer, fromIndex);
  }

  /**
   * Closes the gap left by an operand removed at fromIndex, newNumberElements
   * being the new count; fromIndex must have been taken out of the set first.
   */
  method ShiftIndicesDown(fromIndex: int, newNumberElements: int, indexSet: FastIterableIntSet)
    requires indexSet.Valid()
    requires 0 <= fromIndex <= newNumberElements
    requires indexSet.InRange(0) && indexSet.InRange(newNumberElements)
    requires fromIndex !in indexSet.Elements()
    requires forall e :: e in indexSet.Elements() ==> 0 <= e <= newNumberElements
    modifies indexSet
    ensures indexSet.Valid()
    ensures indexSet.Elements() == ShiftedDown(old(indexSet.Elements()), fromIndex)
    ensures |indexSet.elementIndexes| == old(|indexSet.elementIndexes|)
  {
    ghost var s := indexSet.Elements();
    if newNumberElements - fromIndex <= |indexSet.contents| {
      var i := fromIndex;
      ScanDownBounds(s, fromIndex, newNumberElements);
      while i < newNumberElements
        invariant fromIndex <= i <= newNumberElements
        invariant indexSet.Valid()
        invariant |indexSet.elementIndexes| == old(|indexSet.elementIndexes|)
        invariant indexSet.Elements() == ScanDownState(s, fromIndex, i)
      {
        ScanDownStep(s, fromIndex, i);
        var removed := indexSet.Erase(i + 1);
        if removed == 1 {
          var _ := indexSet.Insert(i);
        }
        i := i + 1;
      }
    } else {
      var buffer := CollectFrom(indexSet.contents, fromIndex, true);
      assert forall b :: b in buffer ==> b in s;
      EraseEach(indexSet, buffer);
      InsertEach(indexSet, buffer, -1);
      MovedIsShiftedDown(s, buffer, fromIndex);
    }
  }
}
