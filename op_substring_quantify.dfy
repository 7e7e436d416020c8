// The substring quantifier: for every position i of the range
// cachedLowerBound..cachedUpperBound of a sequence it keeps the window of
// windowSize members ending at i, as a tuple, or an undefined member when
// that window falls outside the sequence.  Moving a bound adds or drops
// windows at the matching end instead of rebuilding them all.

module OpSubstringQuantifies {
  import opened Common

  /** A window over the sequence: the members it covers, or undefined. */
  datatype Window<T> = Undefined | Tuple(items: seq<T>)

  /**
   * The window over positions lower..upper of s: undefined when it starts
   * before the sequence or ends past it, otherwise exactly those members in
   * order (none when upper < lower).
   */
  function WindowOf<T>(s: seq<T>, lower: int, upper: int): (r: Window<T>)
    ensures r.Undefined? <==> lower < 0 || upper >= |s|
    ensures r.Tuple? ==> |r.items| == (if upper < lower then 0 else upper - lower + 1)
    ensures r.Tuple? ==> forall k :: 0 <= k < |r.items| ==> r.items[k] == s[lower + k]
  {
    if lower < 0 || upper >= |s| then Undefined
    else if upper < lower then Tuple([])
    else Tuple(s[lower..upper + 1])
  }

  /** The windows ending at lo, lo + 1, ..., hi, each w members long. */
  function Windows<T>(s: seq<T>, w: int, lo: int, hi: int): (r: seq<Window<T>>)
    ensures |r| == if hi < lo then 0 else hi - lo + 1
    decreases hi - lo
  {
    if hi < lo then [] else Windows(s, w, lo, hi - 1) + [WindowOf(s, hi - (w - 1), hi)]
  }

  /** The k-th window of the range lo..hi is the one ending at position lo + k. */
  lemma {:induction false} WindowsAt<T>(s: seq<T>, w: int, lo: int, hi: int, k: int)
    requires 0 <= k && lo + k <= hi
    ensures Windows(s, w, lo, hi)[k] == WindowOf(s, lo + k - (w - 1), lo + k)
    decreases hi - lo
  {
    if lo + k < hi {
      WindowsAt(s, w, lo, hi - 1, k);
    }
  }

  /** Where members are the windows of lo..hi, the one ending at i in that range sits at i - lo. */
  lemma WindowsAtPosition<T>(s: seq<T>, w: int, lo: int, hi: int, members: seq<Window<T>>, i: int)
    ensures members == Windows(s, w, lo, hi) && lo <= i <= hi ==>
              0 <= i - lo < |members| && members[i - lo] == WindowOf(s, i - (w - 1), i)
  {
    if lo <= i <= hi {
      WindowsAt(s, w, lo, hi, i - lo);
    }
  }

  /** Splitting the positions at any point splits the windows the same way. */
  lemma {:induction false} WindowsSplit<T>(s: seq<T>, w: int, a: int, b: int, c: int)
    requires a <= b + 1 <= c + 1
    ensures Windows(s, w, a, b) + Windows(s, w, b + 1, c) == Windows(s, w, a, c)
    ensures Windows(s, w, a, c)[..b + 1 - a] == Windows(s, w, a, b)
    ensures Windows(s, w, a, c)[b + 1 - a..] == Windows(s, w, b + 1, c)
    decreases c - b
  {
    if b < c {
      WindowsSplit(s, w, a, b, c - 1);
      var last := [WindowOf(s, c - (w - 1), c)];
      assert Windows(s, w, b + 1, c) == Windows(s, w, b + 1, c - 1) + last;
      assert Windows(s, w, a, c) == Windows(s, w, a, c - 1) + last;
      ConcatAssoc(Windows(s, w, a, b), Windows(s, w, b + 1, c - 1), last);
    } else {
      assert Windows(s, w, b + 1, c) == [];
    }
    ConcatParts(Windows(s, w, a, b), Windows(s, w, b + 1, c));
  }

  /** The windows of a non-empty range are the first one followed by the rest. */
  lemma WindowsFirst<T>(s: seq<T>, w: int, lo: int, hi: int)
    requires lo <= hi
    ensures Windows(s, w, lo, hi) == [WindowOf(s, lo - (w - 1), lo)] + Windows(s, w, lo + 1, hi)
  {
    WindowsSplit(s, w, lo, lo, hi);
  }

  /** The windows of a non-empty range are those of the shorter range followed by the last one. */
  lemma WindowsAppend<T>(s: seq<T>, w: int, lo: int, hi: int)
    requires lo <= hi
    ensures Windows(s, w, lo, hi) == Windows(s, w, lo, hi - 1) + [WindowOf(s, hi - (w - 1), hi)]
  {
  }

  /** The windows of a non-empty range without the last one are those of the shorter range. */
  lemma WindowsDropLast<T>(s: seq<T>, w: int, lo: int, hi: int)
    requires lo <= hi
    ensures Windows(s, w, lo, hi)[..hi - lo] == Windows(s, w, lo, hi - 1)
  {
    assert Windows(s, w, lo, hi) == Windows(s, w, lo, hi - 1) + [WindowOf(s, hi - (w - 1), hi)];
  }

  /**
   * makeWindowTuple: the undefined window when lowerBound..upperBound is not
   * inside s, otherwise the tuple of its members collected one by one.
   */
  method MakeWindowTuple<T>(s: seq<T>, lowerBound: int, upperBound: int) returns (r: Window<T>)
    ensures r == WindowOf(s, lowerBound, upperBound)
  {
    if lowerBound < 0 || upperBound >= |s| {
      return Undefined;
    }
    var items: seq<T> := [];
    var i := lowerBound;
    while i <= upperBound
      invariant lowerBound <= i && (i <= upperBound + 1 || i == lowerBound)
      invariant |items| == i - lowerBound
      invariant forall k :: 0 <= k < |items| ==> items[k] == s[lowerBound + k]
      decreases upperBound - i
    {
      items := items + [s[i]];
      i := i + 1;
    }
    r := Tuple(items);
    assert r.items == WindowOf(s, lowerBound, upperBound).items;
  }

  /**
   * lowerChanged as the source writes it: moving the lower bound down adds
   * the window of every position from newLower up to the old lower bound at
   * the front; moving it up drops that many windows from the front.  The
   * upper bound is not consulted.
   */
  function LowerChangedAsWritten<T>(s: seq<T>, w: int, lower: int, members: seq<Window<T>>, newLower: int): (r: seq<Window<T>>)
    requires lower < newLower ==> newLower - lower <= |members|
    ensures newLower <= lower ==> r == Windows(s, w, newLower, lower - 1) + members
    ensures lower < newLower ==> r == members[newLower - lower..]
    decreases if lower < newLower then newLower - lower else lower - newLower
  {
    if newLower < lower then
      var front := [WindowOf(s, lower - 1 - (w - 1), lower - 1)];
      var r := LowerChangedAsWritten(s, w, lower - 1, front + members, newLower);
      WindowsAppend(s, w, newLower, lower - 1);
      ConcatAssoc(Windows(s, w, newLower, lower - 2), front, members);
      r
    else if lower < newLower then
      DropOfDrop(members, 1, newLower - lower);
      LowerChangedAsWritten(s, w, lower + 1, members[1..], newLower)
    else
      members
  }

  /** upperChanged as the source writes it, at the back. */
  function UpperChangedAsWritten<T>(s: seq<T>, w: int, upper: int, members: seq<Window<T>>, newUpper: int): (r: seq<Window<T>>)
    requires newUpper < upper ==> upper - newUpper <= |members|
    ensures upper <= newUpper ==> r == members + Windows(s, w, upper + 1, newUpper)
    ensures newUpper < upper ==> r == members[..|members| - (upper - newUpper)]
    decreases if upper < newUpper then newUpper - upper else upper - newUpper
  {
    if upper < newUpper then
      var back := [WindowOf(s, upper + 1 - (w - 1), upper + 1)];
      var r := UpperChangedAsWritten(s, w, upper + 1, members + back, newUpper);
      WindowsFirst(s, w, upper + 1, newUpper);
      ConcatAssoc(members, back, Windows(s, w, upper + 2, newUpper));
      r
    else if newUpper < upper then
      PrefixOfPrefix(members, |members| - 1, |members| - (upper - newUpper));
      UpperChangedAsWritten(s, w, upper - 1, members[..|members| - 1], newUpper)
    else
      members
  }

  /**
   * While the positions are a range (possibly just empty, lower == upper + 1)
   * and the new lower bound stays at most one past the upper bound, the
   * lower-bound update as written keeps exactly the windows of the range.
   */
  lemma AsWrittenLowerAgreesOnRange<T>(s: seq<T>, w: int, lower: int, upper: int, newLower: int)
    requires lower <= upper + 1 && newLower <= upper + 1
    ensures LowerChangedAsWritten(s, w, lower, Windows(s, w, lower, upper), newLower) == Windows(s, w, newLower, upper)
  {
    var members := Windows(s, w, lower, upper);
    if newLower <= lower {
      WindowsSplit(s, w, newLower, lower - 1, upper);
      assert LowerChangedAsWritten(s, w, lower, members, newLower) == Windows(s, w, newLower, lower - 1) + members;
    } else {
      WindowsSplit(s, w, lower, newLower - 1, upper);
      assert LowerChangedAsWritten(s, w, lower, members, newLower) == members[newLower - lower..];
    }
  }

  /** The same for the upper-bound update as written. */
  lemma AsWrittenUpperAgreesOnRange<T>(s: seq<T>, w: int, lower: int, upper: int, newUpper: int)
    requires lower <= upper + 1 && lower - 1 <= newUpper
    ensures UpperChangedAsWritten(s, w, upper, Windows(s, w, lower, upper), newUpper) == Windows(s, w, lower, newUpper)
  {
    if upper <= newUpper {
      WindowsSplit(s, w, lower, upper, newUpper);
    } else {
      WindowsSplit(s, w, lower, newUpper, upper);
    }
  }

  /**
   * With an empty range of positions 5..3 (no windows) over [7, 8, 9] and
   * windows of one member, moving the lower bound to 2 as written produces
   * three windows where the range 2..3 has two; moving the upper bound to 6
   * produces three where 5..6 has two.
   */
  lemma AsWrittenBreaksEmptyRange()
    ensures Windows([7, 8, 9], 1, 5, 3) == []
    ensures |LowerChangedAsWritten([7, 8, 9], 1, 5, [], 2)| == 3 != |Windows([7, 8, 9], 1, 2, 3)|
    ensures |UpperChangedAsWritten([7, 8, 9], 1, 3, [], 6)| == 3 != |Windows([7, 8, 9], 1, 5, 6)|
  {
  }

  class OpSubstringQuantify<T> {
    const windowSize: int
    var cachedLowerBound: int
    var cachedUpperBound: int
    var members: seq<Window<T>>
    var appearsDefined: bool

    /** The members are the windows ending at each position of the cached range of s. */
    ghost predicate Valid(s: seq<T>)
      reads this
    {
      members == Windows(s, windowSize, cachedLowerBound, cachedUpperBound)
    }

    constructor (windowSize: nat)
      ensures this.windowSize == windowSize && members == [] && !appearsDefined
    {
      this.windowSize := windowSize;
      members := [];
      appearsDefined := false;
    }

    /**
     * Rebuilds every window.  Undefined when the sequence or a bound is
     * undefined; otherwise the cached range is one below each bound's value
     * (the bounds count from 1).
     */
    method Reevaluate(sequence: Option<seq<T>>, lowerBound: Option<int>, upperBound: Option<int>)
      modifies this
      ensures appearsDefined <==> sequence.Some? && lowerBound.Some? && upperBound.Some?
      ensures !appearsDefined ==>
                members == [] && cachedLowerBound == old(cachedLowerBound) && cachedUpperBound == old(cachedUpperBound)
      ensures appearsDefined ==>
                cachedLowerBound == lowerBound.value - 1 && cachedUpperBound == upperBound.value - 1 && Valid(sequence.value)
    {
      members := [];
      if sequence.None? || lowerBound.None? || upperBound.None? {
        appearsDefined := false;
        return;
      }
      var s := sequence.value;
      cachedLowerBound := lowerBound.value - 1;
      cachedUpperBound := upperBound.value - 1;
      appearsDefined := true;
      var i := cachedLowerBound;
      while i <= cachedUpperBound
        invariant appearsDefined && cachedLowerBound == lowerBound.value - 1 && cachedUpperBound == upperBound.value - 1
        invariant cachedLowerBound <= i && (i <= cachedUpperBound + 1 || i == cachedLowerBound)
        invariant members == Windows(s, windowSize, cachedLowerBound, i - 1)
        decreases cachedUpperBound - i
      {
        var window := MakeWindowTuple(s, i - (windowSize - 1), i);
        members := members + [window];
        i := i + 1;
      }
    }

    /**
     * calcDestIndex: the place in the members of the window ending at
     * position i of the sequence.
     */
    function CalcDestIndex(ghost s: seq<T>, i: int): (d: int)
      reads this
      ensures Valid(s) && cachedLowerBound <= i <= cachedUpperBound ==>
                0 <= d < |members| && members[d] == WindowOf(s, i - (windowSize - 1), i)
    {
      WindowsAtPosition(s, windowSize, cachedLowerBound, cachedUpperBound, members, i);
      i - cachedLowerBound
    }

    /**
     * lowerChanged: the lower bound's value is now newValue.  Windows are
     * added at or dropped from the front, one step at a time, and only for
     * positions inside the range, so the members stay the windows of the new
     * range; where the old range was not empty this agrees with the source.
     */
    method LowerChanged(s: seq<T>, newValue: int)
      requires Valid(s)
      modifies this
      ensures Valid(s) && cachedLowerBound == newValue - 1 && cachedUpperBound == old(cachedUpperBound)
      ensures old(cachedLowerBound) <= old(cachedUpperBound) + 1 && newValue - 1 <= cachedUpperBound + 1 ==>
                members == LowerChangedAsWritten(s, windowSize, old(cachedLowerBound), old(members), newValue - 1)
    {
      var newLower := newValue - 1;
      while newLower < cachedLowerBound
        invariant Valid(s) && cachedUpperBound == old(cachedUpperBound)
        decreases cachedLowerBound - newLower
      {
        var lower := cachedLowerBound - 1;
        if lower <= cachedUpperBound {
          var window := MakeWindowTuple(s, lower - (windowSize - 1), lower);
          WindowsFirst(s, windowSize, lower, cachedUpperBound);
          members := [window] + members;
        } else {
          assert members == [] == Windows(s, windowSize, lower, cachedUpperBound);
        }
        cachedLowerBound := lower;
      }
      while newLower > cachedLowerBound
        invariant Valid(s) && cachedLowerBound <= newLower && cachedUpperBound == old(cachedUpperBound)
        decreases newLower - cachedLowerBound
      {
        if cachedLowerBound <= cachedUpperBound {
          WindowsFirst(s, windowSize, cachedLowerBound, cachedUpperBound);
          members := members[1..];
        }
        cachedLowerBound := cachedLowerBound + 1;
      }
      if old(cachedLowerBound) <= old(cachedUpperBound) + 1 && newLower <= cachedUpperBound + 1 {
        AsWrittenLowerAgreesOnRange(s, windowSize, old(cachedLowerBound), old(cachedUpperBound), newLower);
      }
    }

    /**
     * upperChanged: the upper bound's value is now newValue.  Windows are
     * added at or dropped from the back, only for positions inside the range.
     */
    method UpperChanged(s: seq<T>, newValue: int)
      requires Valid(s)
      modifies this
      ensures Valid(s) && cachedUpperBound == newValue - 1 && cachedLowerBound == old(cachedLowerBound)
      ensures old(cachedLowerBound) <= old(cachedUpperBound) + 1 && cachedLowerBound - 1 <= newValue - 1 ==>
                members == UpperChangedAsWritten(s, windowSize, old(cachedUpperBound), old(members), newValue - 1)
    {
      var newUpper := newValue - 1;
      GrowUpper(s, newUpper);
      ShrinkUpper(s, newUpper);
      if old(cachedLowerBound) <= old(cachedUpperBound) + 1 && cachedLowerBound - 1 <= newUpper {
        AsWrittenUpperAgreesOnRange(s, windowSize, old(cachedLowerBound), old(cachedUpperBound), newUpper);
      }
    }

    /** upperChanged's first loop: windows appended at the back while the upper bound rises to newUpper. */
    method GrowUpper(s: seq<T>, newUpper: int)
      requires Valid(s)
      modifies this
      ensures Valid(s) && cachedLowerBound == old(cachedLowerBound)
      ensures cachedUpperBound == if old(cachedUpperBound) < newUpper then newUpper else old(cachedUpperBound)
    {
      while newUpper > cachedUpperBound
        invariant Valid(s) && cachedLowerBound == old(cachedLowerBound)
        invariant cachedUpperBound == old(cachedUpperBound) || old(cachedUpperBound) < cachedUpperBound <= newUpper
        decreases newUpper - cachedUpperBound
      {
        var upper := cachedUpperBound + 1;
        if cachedLowerBound <= upper {
          var window := MakeWindowTuple(s, upper - (windowSize - 1), upper);
          WindowsAppend(s, windowSize, cachedLowerBound, upper);
          members := members + [window];
        } else {
          assert members == [] == Windows(s, windowSize, cachedLowerBound, upper);
        }
        cachedUpperBound := upper;
      }
    }

    /** upperChanged's second loop: windows dropped from the back while the upper bound falls to newUpper. */
    method ShrinkUpper(s: seq<T>, newUpper: int)
      requires Valid(s)
      modifies this
      ensures Valid(s) && cachedLowerBound == old(cachedLowerBound)
      ensures cachedUpperBound == if newUpper < old(cachedUpperBound) then newUpper else old(cachedUpperBound)
    {
      while newUpper < cachedUpperBound
        invariant Valid(s) && cachedLowerBound == old(cachedLowerBound)
        invariant cachedUpperBound == old(cachedUpperBound) || newUpper <= cachedUpperBound < old(cachedUpperBound)
        decreases cachedUpperBound - newUpper
      {
        if cachedLowerBound <= cachedUpperBound {
          WindowsDropLast(s, windowSize, cachedLowerBound, cachedUpperBound);
          members := members[..cachedUpperBound - cachedLowerBound];
        }
        cachedUpperBound := cachedUpperBound - 1;
      }
    }
  }
}
