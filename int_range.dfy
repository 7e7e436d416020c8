// The sequence of consecutive integers lower..upper, kept up to date as
// either bound moves by adding or removing members at the matching end
// rather than rebuilding the sequence.

module IntRanges {

  /** The integers lo, lo + 1, ..., hi in order; empty when hi < lo. */
  function Range(lo: int, hi: int): (r: seq<int>)
    ensures |r| == if hi < lo then 0 else hi - lo + 1
    ensures forall i :: 0 <= i < |r| ==> r[i] == lo + i
    decreases hi - lo
  {
    if hi < lo then [] else Range(lo, hi - 1) + [hi]
  }

  /** Splitting a range at any point gives two consecutive ranges. */
  lemma RangeSplit(a: int, b: int, c: int)
    requires a <= b + 1 <= c + 1
    ensures Range(a, b) + Range(b + 1, c) == Range(a, c)
    ensures Range(a, c)[..b + 1 - a] == Range(a, b)
    ensures Range(a, c)[b + 1 - a..] == Range(b + 1, c)
  {
    var r := Range(a, b) + Range(b + 1, c);
    assert |r| == |Range(a, c)|;
    forall i | 0 <= i < |r| ensures r[i] == Range(a, c)[i] {
      if i >= b + 1 - a {
        assert r[i] == Range(b + 1, c)[i - (b + 1 - a)];
      }
    }
  }

  /** Moving the lower bound down by one adds one member at the front. */
  lemma RangeExtendedDown(lo: int, hi: int)
    requires lo <= hi
    ensures [lo] + Range(lo + 1, hi) == Range(lo, hi)
  {
  }

  /** Moving the lower bound up by one drops the front member. */
  lemma RangeShrunkUp(lo: int, hi: int)
    requires lo <= hi
    ensures Range(lo, hi)[1..] == Range(lo + 1, hi)
  {
  }

  /** Moving the upper bound down by one drops the back member. */
  lemma RangeShrunkDown(lo: int, hi: int)
    requires lo <= hi
    ensures Range(lo, hi)[..hi - lo] == Range(lo, hi - 1)
  {
  }

  /**
   * The lower-bound adjustment as the source writes it: moving down prepends
   * every value from newLower up to the old lower bound, moving up drops that
   * many members from the front.  The members are taken as they are, with no
   * regard to the upper bound.
   */
  function AdjustLowerAsWritten(lower: int, members: seq<int>, newLower: int): (r: seq<int>)
    requires lower < newLower ==> newLower - lower <= |members|
    ensures newLower <= lower ==> r == Range(newLower, lower - 1) + members
    ensures lower < newLower ==> r == members[newLower - lower..]
    decreases if lower < newLower then newLower - lower else lower - newLower
  {
    if lower > newLower then
      AdjustLowerAsWritten(lower - 1, [lower - 1] + members, newLower)
    else if lower < newLower then
      AdjustLowerAsWritten(lower + 1, members[1..], newLower)
    else
      members
  }

  /** The upper-bound adjustment as the source writes it, at the back. */
  function AdjustUpperAsWritten(upper: int, members: seq<int>, newUpper: int): (r: seq<int>)
    requires newUpper < upper ==> upper - newUpper <= |members|
    ensures upper <= newUpper ==> r == members + Range(upper + 1, newUpper)
    ensures newUpper < upper ==> r == members[..|members| - (upper - newUpper)]
    decreases if upper < newUpper then newUpper - upper else upper - newUpper
  {
    if upper < newUpper then
      AdjustUpperAsWritten(upper + 1, members + [upper + 1], newUpper)
    else if upper > newUpper then
      AdjustUpperAsWritten(upper - 1, members[..|members| - 1], newUpper)
    else
      members
  }

  /**
   * While the range is not empty (or just empty, lower == upper + 1), the
   * lower-bound adjustment as written keeps the members equal to the range
   * between the bounds.
   */
  lemma AsWrittenLowerAgreesOnNonEmptyRange(lower: int, upper: int, newLower: int)
    requires lower <= upper + 1 && newLower <= upper + 1
    ensures AdjustLowerAsWritten(lower, Range(lower, upper), newLower) == Range(newLower, upper)
  {
    var r := AdjustLowerAsWritten(lower, Range(lower, upper), newLower);
    if newLower <= lower {
      assert r == Range(newLower, lower - 1) + Range(lower, upper);
      RangeSplit(newLower, lower - 1, upper);
    } else {
      assert r == Range(lower, upper)[newLower - lower..];
      RangeSplit(lower, newLower - 1, upper);
    }
  }

  /** The same for the upper-bound adjustment as written. */
  lemma AsWrittenUpperAgreesOnNonEmptyRange(lower: int, upper: int, newUpper: int)
    requires lower <= upper + 1 && lower - 1 <= newUpper
    ensures AdjustUpperAsWritten(upper, Range(lower, upper), newUpper) == Range(lower, newUpper)
  {
    var r := AdjustUpperAsWritten(upper, Range(lower, upper), newUpper);
    if upper <= newUpper {
      assert r == Range(lower, upper) + Range(upper + 1, newUpper);
      RangeSplit(lower, upper, newUpper);
    } else {
      assert r == Range(lower, upper)[..|Range(lower, upper)| - (upper - newUpper)];
      RangeSplit(lower, newUpper, upper);
    }
  }

  /**
   * Once the range is empty (lower 5, upper 3, no members), lowering the
   * lower bound to 2 as written yields [2, 3, 4] although the range 2..3 is
   * [2, 3]; raising the upper bound to 6 yields [4, 5, 6] instead of [5, 6].
   */
  lemma AsWrittenBreaksEmptyRange()
    ensures Range(5, 3) == []
    ensures AdjustLowerAsWritten(5, [], 2) == [2, 3, 4] != Range(2, 3)
    ensures AdjustUpperAsWritten(3, [], 6) == [4, 5, 6] != Range(5, 6)
  {
    assert Range(2, 4) == [2, 3, 4];
    assert Range(4, 6) == [4, 5, 6];
  }

  class IntRange {
    var cachedLower: int
    var cachedUpper: int
    var members: seq<int>

    /** The members are exactly cachedLower..cachedUpper in order. */
    ghost predicate Valid()
      reads this
    {
      members == Range(cachedLower, cachedUpper)
    }

    constructor (lower: int, upper: int)
      ensures Valid() && cachedLower == lower && cachedUpper == upper
    {
      cachedLower := lower;
      cachedUpper := upper;
      members := Range(lower, upper);
    }

    /** Rebuilds the members from the bounds' current values. */
    method Reevaluate(lower: int, upper: int)
      modifies this
      ensures Valid() && cachedLower == lower && cachedUpper == upper
      ensures |members| == if upper < lower then 0 else upper - lower + 1
    {
      cachedLower := lower;
      cachedUpper := upper;
      members := [];
      var i := lower;
      while i <= upper
        invariant cachedLower == lower && cachedUpper == upper
        invariant lower <= i && (i == lower || i <= upper + 1)
        invariant members == Range(lower, i - 1)
        decreases upper - i
      {
        members := members + [i];
        i := i + 1;
      }
    }

    /**
     * The lower bound moved to newLower: members are added or removed at the
     * front, one step at a time, and only for values inside the range.
     */
    method AdjustLower(newLower: int)
      requires Valid()
      modifies this
      ensures Valid() && cachedLower == newLower && cachedUpper == old(cachedUpper)
      ensures old(cachedLower) <= old(cachedUpper) + 1 && newLower <= cachedUpper + 1 ==>
                members == AdjustLowerAsWritten(old(cachedLower), old(members), newLower)
    {
      if cachedLower <= cachedUpper + 1 && newLower <= cachedUpper + 1 {
        AsWrittenLowerAgreesOnNonEmptyRange(cachedLower, cachedUpper, newLower);
      }
      while cachedLower > newLower
        invariant Valid() && cachedUpper == old(cachedUpper)
        decreases cachedLower - newLower
      {
        cachedLower := cachedLower - 1;
        if cachedLower <= cachedUpper {
          RangeExtendedDown(cachedLower, cachedUpper);
          members := [cachedLower] + members;
        }
      }
      while cachedLower < newLower
        invariant Valid() && cachedLower <= newLower && cachedUpper == old(cachedUpper)
        decreases newLower - cachedLower
      {
        if cachedLower <= cachedUpper {
          RangeShrunkUp(cachedLower, cachedUpper);
          members := members[1..];
        }
        cachedLower := cachedLower + 1;
      }
    }

    /**
     * The upper bound moved to newUpper: members are added or removed at the
     * back, one step at a time, and only for values inside the range.
     */
    method AdjustUpper(newUpper: int)
      requires Valid()
      modifies this
      ensures Valid() && cachedUpper == newUpper && cachedLower == old(cachedLower)
      ensures old(cachedLower) <= old(cachedUpper) + 1 && cachedLower - 1 <= newUpper ==>
                members == AdjustUpperAsWritten(old(cachedUpper), old(members), newUpper)
    {
      if cachedLower <= cachedUpper + 1 && cachedLower - 1 <= newUpper {
        AsWrittenUpperAgreesOnNonEmptyRange(cachedLower, cachedUpper, newUpper);
      }
      while cachedUpper < newUpper
        invariant Valid() && cachedLower == old(cachedLower)
        decreases newUpper - cachedUpper
      {
        cachedUpper := cachedUpper + 1;
        if cachedLower <= cachedUpper {
          members := members + [cachedUpper];
        }
      }
      while cachedUpper > newUpper
        invariant Valid() && cachedUpper >= newUpper && cachedLower == old(cachedLower)
        decreases cachedUpper - newUpper
      {
        if cachedLower <= cachedUpper {
          RangeShrunkDown(cachedLower, cachedUpper);
          members := members[..|members| - 1];
        }
        cachedUpper := cachedUpper - 1;
      }
    }
  }
}
