// Integer domains: a list of inclusive bounds (first, second), kept sorted
// with overlapping or touching bounds unified, the number of values they
// hold, and the search for the bound containing a value.

module IntDomains {
  import opened Common

  datatype Bound = Bound(first: int, second: int)

  /** Bound b holds v. */
  predicate Holds(b: Bound, v: int) {
    b.first <= v <= b.second
  }

  function Max(a: int, b: int): (r: int) {
    if a < b then b else a
  }

  /** The integers lo..hi. */
  ghost function RangeSet(lo: int, hi: int): (r: set<int>)
    ensures forall v :: v in r <==> lo <= v <= hi
    decreases hi - lo
  {
    if hi < lo then {} else RangeSet(lo, hi - 1) + {hi}
  }

  lemma {:induction false} RangeCard(lo: int, hi: int)
    ensures |RangeSet(lo, hi)| == if hi < lo then 0 else hi - lo + 1
    decreases hi - lo
  {
    if lo <= hi {
      RangeCard(lo, hi - 1);
    }
  }

  /** The values the bounds hold. */
  ghost function Values(bs: seq<Bound>): (r: set<int>) {
    if |bs| == 0 then {}
    else Values(bs[..|bs| - 1]) + RangeSet(bs[|bs| - 1].first, bs[|bs| - 1].second)
  }

  /** A value is held exactly when some bound holds it. */
  lemma {:induction false} ValuesIn(bs: seq<Bound>, v: int)
    ensures v in Values(bs) <==> exists i :: 0 <= i < |bs| && Holds(bs[i], v)
  {
    if |bs| > 0 {
      var init := bs[..|bs| - 1];
      ValuesIn(init, v);
      if exists i :: 0 <= i < |init| && Holds(init[i], v) {
        var i :| 0 <= i < |init| && Holds(init[i], v);
        assert bs[i] == init[i];
      }
      if exists i :: 0 <= i < |bs| && Holds(bs[i], v) {
        var i :| 0 <= i < |bs| && Holds(bs[i], v);
        if i < |init| {
          assert init[i] == bs[i];
        }
      }
    }
  }

  /** The values of a concatenation. */
  lemma {:induction false} ValuesConcat(a: seq<Bound>, b: seq<Bound>)
    ensures Values(a + b) == Values(a) + Values(b)
  {
    if |b| > 0 {
      ValuesConcat(a, b[..|b| - 1]);
      assert (a + b)[..|a + b| - 1] == a + b[..|b| - 1];
    } else {
      assert a + b == a;
    }
  }

  /** Lexicographic order on pairs, as std::sort uses for std::pair. */
  predicate LeqBound(a: Bound, b: Bound) {
    a.first < b.first || (a.first == b.first && a.second <= b.second)
  }

  ghost predicate Sorted(bs: seq<Bound>) {
    forall i, j :: 0 <= i < j < |bs| ==> LeqBound(bs[i], bs[j])
  }

  /** Every bound holds a value, and consecutive bounds are apart by a gap. */
  ghost predicate Normalised(bs: seq<Bound>) {
    (forall i :: 0 <= i < |bs| ==> bs[i].first <= bs[i].second)
    && (forall i :: 0 <= i < |bs| - 1 ==> bs[i].second + 1 < bs[i + 1].first)
  }

  /** In normalised bounds, an earlier bound ends before a later one starts. */
  lemma {:induction false} NormalisedOrdered(bs: seq<Bound>, i: nat, j: nat)
    requires Normalised(bs) && i <= j < |bs|
    ensures bs[i].first <= bs[j].first && bs[i].second <= bs[j].second
    ensures i < j ==> bs[i].second + 1 < bs[j].first
    decreases j - i
  {
    if i < j {
      NormalisedOrdered(bs, i + 1, j);
    }
  }

  /** Sequences with the same elements hold the same values. */
  lemma SameElementsSameValues(a: seq<Bound>, b: seq<Bound>)
    requires multiset(a) == multiset(b)
    ensures Values(a) == Values(b)
  {
    forall v ensures v in Values(a) ==> v in Values(b) {
      ValuesIn(a, v);
      ValuesIn(b, v);
      if v in Values(a) {
        var i :| 0 <= i < |a| && Holds(a[i], v);
        assert a[i] in multiset(b);
        var j :| 0 <= j < |b| && b[j] == a[i];
      }
    }
    forall v ensures v in Values(b) ==> v in Values(a) {
      ValuesIn(a, v);
      ValuesIn(b, v);
      if v in Values(b) {
        var i :| 0 <= i < |b| && Holds(b[i], v);
        assert b[i] in multiset(a);
        var j :| 0 <= j < |a| && a[j] == b[i];
      }
    }
  }

  // ---- std::sort on the bounds ----

  /** x inserted into sorted s at its place. */
  function InsertBound(x: Bound, s: seq<Bound>): (r: seq<Bound>)
    requires Sorted(s)
    ensures Sorted(r) && multiset(r) == multiset(s) + multiset{x}
  {
    if |s| == 0 then [x]
    else if LeqBound(x, s[0]) then [x] + s
    else
      var t := InsertBound(x, s[1..]);
      assert s == [s[0]] + s[1..];
      assert forall j :: 0 <= j < |t| ==> LeqBound(s[0], t[j]) by {
        forall j | 0 <= j < |t| ensures LeqBound(s[0], t[j]) {
          assert t[j] in multiset(t);
          if t[j] != x {
            assert t[j] in multiset(s[1..]);
          }
        }
      }
      [s[0]] + t
  }

  /** The bounds sorted lexicographically. */
  function SortBounds(s: seq<Bound>): (r: seq<Bound>)
    ensures Sorted(r) && multiset(r) == multiset(s)
  {
    if |s| == 0 then []
    else
      assert s == [s[0]] + s[1..];
      InsertBound(s[0], SortBounds(s[1..]))
  }

  /** Sorting bounds already in order leaves them as they are. */
  lemma {:induction false} SortSorted(s: seq<Bound>)
    requires Sorted(s)
    ensures SortBounds(s) == s
  {
    if |s| > 0 {
      SortSorted(s[1..]);
    }
  }

  // ---- empty bounds ----

  /** The bounds that hold at least one value, in order. */
  function NonEmpty(s: seq<Bound>): (r: seq<Bound>)
    ensures |r| <= |s|
    ensures forall i :: 0 <= i < |r| ==> r[i].first <= r[i].second
  {
    if |s| == 0 then []
    else
      var t := NonEmpty(s[..|s| - 1]);
      var b := s[|s| - 1];
      if b.first <= b.second then t + [b] else t
  }

  /** Dropping the empty bounds keeps the values. */
  lemma {:induction false} NonEmptyValues(s: seq<Bound>)
    ensures Values(NonEmpty(s)) == Values(s)
  {
    if |s| > 0 {
      var init := s[..|s| - 1];
      var b := s[|s| - 1];
      var t := NonEmpty(init);
      NonEmptyValues(init);
      assert Values(s) == Values(init) + RangeSet(b.first, b.second);
      if b.first <= b.second {
        var r := t + [b];
        assert r[..|r| - 1] == t;
        assert Values(r) == Values(t) + RangeSet(b.first, b.second);
      } else {
        assert RangeSet(b.first, b.second) == {};
      }
    }
  }

  /** Every kept bound is a bound of the input. */
  lemma {:induction false} NonEmptyFrom(s: seq<Bound>)
    ensures forall j :: 0 <= j < |NonEmpty(s)| ==> NonEmpty(s)[j] in s
  {
    if |s| > 0 {
      var init := s[..|s| - 1];
      var t := NonEmpty(init);
      NonEmptyFrom(init);
      forall j | 0 <= j < |t| ensures t[j] in s {
        var k :| 0 <= k < |init| && init[k] == t[j];
        assert s[k] == t[j];
      }
    }
  }

  /** Dropping the empty bounds of sorted bounds leaves them sorted. */
  lemma {:induction false} NonEmptySorted(s: seq<Bound>)
    requires Sorted(s)
    ensures Sorted(NonEmpty(s))
  {
    if |s| > 0 {
      var init := s[..|s| - 1];
      var b := s[|s| - 1];
      var t := NonEmpty(init);
      assert Sorted(init) by {
        forall i, j | 0 <= i < j < |init| ensures LeqBound(init[i], init[j]) {
          assert init[i] == s[i] && init[j] == s[j];
        }
      }
      NonEmptySorted(init);
      NonEmptyFrom(init);
      if b.first <= b.second {
        var r := t + [b];
        forall i, j | 0 <= i < j < |r| ensures LeqBound(r[i], r[j]) {
          if j < |t| {
            assert r[i] == t[i] && r[j] == t[j];
          } else {
            var k :| 0 <= k < |init| && init[k] == t[i];
            assert s[k] == r[i] && s[|s| - 1] == r[j];
          }
        }
      }
    }
  }

  /** Dropping empty bounds from bounds without one leaves them as they are. */
  lemma {:induction false} NonEmptyAll(s: seq<Bound>)
    requires forall i :: 0 <= i < |s| ==> s[i].first <= s[i].second
    ensures NonEmpty(s) == s
  {
    if |s| > 0 {
      var init := s[..|s| - 1];
      assert forall i :: 0 <= i < |init| ==> init[i] == s[i];
      NonEmptyAll(init);
      assert NonEmpty(s) == init + [s[|s| - 1]];
      assert init + [s[|s| - 1]] == s;
    }
  }

  // ---- the number of values ----

  /** The number of values of the bounds, counted bound by bound. */
  function DomainSize(bs: seq<Bound>): (r: int) {
    if |bs| == 0 then 0
    else DomainSize(bs[..|bs| - 1]) + (bs[|bs| - 1].second - bs[|bs| - 1].first) + 1
  }

  /** In normalised bounds, the values before the last bound lie below it. */
  lemma BelowLast(bs: seq<Bound>, v: int)
    requires Normalised(bs) && |bs| > 0 && v in Values(bs[..|bs| - 1])
    ensures v < bs[|bs| - 1].first
  {
    var init := bs[..|bs| - 1];
    ValuesIn(init, v);
    var j :| 0 <= j < |init| && Holds(init[j], v);
    assert init[j] == bs[j];
    NormalisedOrdered(bs, j, |bs| - 1);
  }

  /** On normalised bounds, the size is the number of values held. */
  lemma {:induction false} DomainSizeCounts(bs: seq<Bound>)
    requires Normalised(bs)
    ensures DomainSize(bs) == |Values(bs)|
  {
    if |bs| > 0 {
      var init := bs[..|bs| - 1];
      var last := bs[|bs| - 1];
      assert Normalised(init);
      DomainSizeCounts(init);
      RangeCard(last.first, last.second);
      forall v | v in Values(init) ensures v < last.first {
        BelowLast(bs, v);
      }
      assert Values(init) !! RangeSet(last.first, last.second);
    }
  }

  // ---- normaliseBounds as written ----

  /**
   * The vector after std::remove_if of the empty bounds when the returned
   * new end is discarded: the kept bounds move to the front and the old
   * entries stay behind them.
   */
  function RemoveIfKeepTail(s: seq<Bound>): (r: seq<Bound>)
    ensures |r| == |s|
    ensures r[..|NonEmpty(s)|] == NonEmpty(s)
  {
    NonEmpty(s) + s[|NonEmpty(s)|..]
  }

  /** Bound i unified with bound i + 1, which is erased. */
  function MergeAt(b: seq<Bound>, i: nat): (r: seq<Bound>)
    requires i + 1 < |b|
    ensures |r| == |b| - 1
    ensures forall j :: 0 <= j < i ==> r[j] == b[j]
    ensures r[i] == Bound(b[i].first, Max(b[i].second, b[i + 1].second))
    ensures forall j :: i < j < |r| ==> r[j] == b[j + 1]
  {
    b[..i] + [Bound(b[i].first, Max(b[i].second, b[i + 1].second))] + b[i + 2..]
  }

  /**
   * The merge loop as written: after merging bound i with bound i + 1 and
   * erasing the latter, the loop still advances to i + 1, so the new
   * neighbour of bound i is never compared with it.
   */
  function MergeSkipping(b: seq<Bound>, i: nat): (r: seq<Bound>)
    ensures |r| <= |b|
    decreases |b| - i
  {
    if i + 1 >= |b| then b
    else if b[i].second >= b[i + 1].first - 1 then
      MergeSkipping(MergeAt(b, i), i + 1)
    else MergeSkipping(b, i + 1)
  }

  /** normaliseBounds as written: sort, remove_if with its result dropped, then the skipping merge. */
  method NormaliseBoundsAsWritten(bounds: seq<Bound>) returns (r: seq<Bound>)
    requires |bounds| > 0
    ensures r == MergeSkipping(RemoveIfKeepTail(SortBounds(bounds)), 0)
  {
    var b := SortBounds(bounds);
    b := RemoveIfKeepTail(b);
    var i := 0;
    while i + 1 < |b|
      invariant MergeSkipping(b, i) == MergeSkipping(RemoveIfKeepTail(SortBounds(bounds)), 0)
      decreases |b| - i
    {
      if b[i].second >= b[i + 1].first - 1 {
        b := MergeAt(b, i);
      }
      i := i + 1;
    }
    r := b;
  }

  /** Sorting and remove_if leave sorted bounds without an empty one as they are. */
  lemma KeptTail(s: seq<Bound>)
    requires Sorted(s)
    requires forall i :: 0 <= i < |s| ==> s[i].first <= s[i].second
    ensures RemoveIfKeepTail(SortBounds(s)) == s
  {
    SortSorted(s);
    NonEmptyAll(s);
    assert RemoveIfKeepTail(s) == s + s[|s|..];
    assert s + s[|s|..] == s;
  }

  /** The skipping merge of three bounds when the first two touch. */
  lemma MergeFirstTwo(b: seq<Bound>, r: seq<Bound>)
    requires |b| == 3 && b[0].second >= b[1].first - 1
    requires r == [Bound(b[0].first, Max(b[0].second, b[1].second)), b[2]]
    ensures MergeSkipping(b, 0) == r
  {
    assert MergeAt(b, 0) == r;
  }

  /** normaliseBounds as written on three sorted non-empty bounds whose first two touch. */
  lemma AsWrittenMergesFirstTwo(b: seq<Bound>, r: seq<Bound>)
    requires |b| == 3 && Sorted(b) && b[0].second >= b[1].first - 1
    requires forall i :: 0 <= i < |b| ==> b[i].first <= b[i].second
    requires r == [Bound(b[0].first, Max(b[0].second, b[1].second)), b[2]]
    ensures MergeSkipping(RemoveIfKeepTail(SortBounds(b)), 0) == r
  {
    KeptTail(b);
    MergeFirstTwo(b, r);
  }

  /** Three touching bounds are not unified: the third is skipped. */
  lemma ChainNotUnified()
    ensures var r := MergeSkipping(RemoveIfKeepTail(SortBounds([Bound(1, 2), Bound(3, 4), Bound(5, 6)])), 0);
            r == [Bound(1, 4), Bound(5, 6)] && !Normalised(r)
  {
    var input := [Bound(1, 2), Bound(3, 4), Bound(5, 6)];
    var r := [Bound(1, 4), Bound(5, 6)];
    AsWrittenMergesFirstTwo(input, r);
    assert !(r[0].second + 1 < r[1].first);
  }

  /**
   * A bound swallowing the next two leaves the third behind it: 7 is a value
   * of the domain, yet it lies above the last bound, so the search answers
   * OutOfBoundsLarge.
   */
  lemma OverlapBreaksSearch()
    ensures var input := [Bound(1, 10), Bound(2, 3), Bound(4, 5)];
            var r := MergeSkipping(RemoveIfKeepTail(SortBounds(input)), 0);
            r == [Bound(1, 10), Bound(4, 5)] && 7 in Values(input) && r[|r| - 1].second < 7
  {
    var input := [Bound(1, 10), Bound(2, 3), Bound(4, 5)];
    AsWrittenMergesFirstTwo(input, [Bound(1, 10), Bound(4, 5)]);
    ValuesIn(input, 7);
    assert Holds(input[0], 7);
  }

  /** Values and size of a domain of two bounds. */
  lemma TwoBounds(a: Bound, b: Bound)
    ensures Values([a, b]) == RangeSet(a.first, a.second) + RangeSet(b.first, b.second)
    ensures DomainSize([a, b]) == (a.second - a.first + 1) + (b.second - b.first + 1)
  {
    assert [a, b][..1] == [a];
    assert [a][..0] == [];
    assert Values([a]) == RangeSet(a.first, a.second);
    assert DomainSize([a]) == a.second - a.first + 1;
  }

  /** The bounds the overlap leaves behind count 12 values where there are 10. */
  lemma OverlapMiscounts()
    ensures DomainSize([Bound(1, 10), Bound(4, 5)]) == 12
    ensures |Values([Bound(1, 10), Bound(4, 5)])| == 10
  {
    TwoBounds(Bound(1, 10), Bound(4, 5));
    RangeUnion(1, 10, 4, 5);
    RangeCard(1, 10);
  }

  /** An empty bound survives remove_if and makes the size count one value too few. */
  lemma EmptyBoundKept()
    ensures var input := [Bound(1, 2), Bound(5, 3)];
            var r := MergeSkipping(RemoveIfKeepTail(SortBounds(input)), 0);
            r == input && DomainSize(r) == 1 && |Values(r)| == 2
  {
    var input := [Bound(1, 2), Bound(5, 3)];
    EmptyBoundTail(input);
    TwoBounds(Bound(1, 2), Bound(5, 3));
    assert RangeSet(1, 2) + RangeSet(5, 3) == RangeSet(1, 2);
    RangeCard(1, 2);
  }

  /** remove_if moves nothing when only the last bound is empty. */
  lemma EmptyBoundTail(s: seq<Bound>)
    requires |s| == 2 && LeqBound(s[0], s[1]) && s[0].first <= s[0].second && s[1].second < s[1].first
    ensures RemoveIfKeepTail(SortBounds(s)) == s
  {
    SortSorted(s);
    assert s[..1] == [s[0]];
    assert NonEmpty([s[0]]) == [s[0]] by {
      assert [s[0]][..0] == [];
    }
    assert NonEmpty(s) == [s[0]];
  }

  // ---- normaliseBounds corrected ----

  /**
   * The state of the corrected merge loop at position i: bounds before i
   * are normalised, bounds from i on are sorted by their first value, and
   * the values are those of the input.
   */
  ghost predicate Merging(b: seq<Bound>, i: nat, vs: set<int>) {
    (i < |b| || i == 0)
    && Values(b) == vs
    && (forall j :: 0 <= j < |b| ==> b[j].first <= b[j].second)
    && (forall j :: 0 <= j < i ==> b[j].second + 1 < b[j + 1].first)
    && (forall j, k :: i <= j < k < |b| ==> b[j].first <= b[k].first)
  }

  /** One turn of the corrected merge loop. */
  lemma MergingStep(b: seq<Bound>, i: nat, vs: set<int>)
    requires Merging(b, i, vs) && i + 1 < |b|
    ensures b[i].second >= b[i + 1].first - 1 ==> Merging(MergeAt(b, i), i, vs)
    ensures b[i].second < b[i + 1].first - 1 ==> Merging(b, i + 1, vs)
  {
    if b[i].second >= b[i + 1].first - 1 {
      MergeStep(b, i);
      var b2 := MergeAt(b, i);
      forall j, k | i <= j < k < |b2| ensures b2[j].first <= b2[k].first {
        assert b2[k] == b[k + 1];
      }
    }
  }

  /** Sorts, drops empty bounds and unifies overlapping or touching bounds. */
  method NormaliseBounds(bounds: seq<Bound>) returns (r: seq<Bound>)
    ensures Normalised(r)
    ensures Values(r) == Values(bounds)
  {
    var sorted := SortBounds(bounds);
    SameElementsSameValues(sorted, bounds);
    var b := NonEmpty(sorted);
    NonEmptyValues(sorted);
    NonEmptySorted(sorted);
    var i := 0;
    while i + 1 < |b|
      invariant Merging(b, i, Values(bounds))
      decreases |b| - i
    {
      MergingStep(b, i, Values(bounds));
      if b[i].second >= b[i + 1].first - 1 {
        b := MergeAt(b, i);
      } else {
        i := i + 1;
      }
    }
    r := b;
  }

  /** Unifying two touching bounds keeps the values. */
  lemma MergeStep(b: seq<Bound>, i: nat)
    requires i + 1 < |b| && b[i].first <= b[i + 1].first && b[i].second >= b[i + 1].first - 1
    ensures Values(MergeAt(b, i)) == Values(b)
  {
    var m := Bound(b[i].first, Max(b[i].second, b[i + 1].second));
    var front, back := b[..i], b[i + 2..];
    ValuesConcat3(front, [m], back);
    SplitPair(b, i);
    ValuesConcat3(front, [b[i], b[i + 1]], back);
    TwoBounds(b[i], b[i + 1]);
    OneBound(m);
    RangeUnion(b[i].first, b[i].second, b[i + 1].first, b[i + 1].second);
  }

  /** The values of a concatenation of three. */
  lemma ValuesConcat3(a: seq<Bound>, b: seq<Bound>, c: seq<Bound>)
    ensures Values(a + b + c) == Values(a) + Values(b) + Values(c)
  {
    ValuesConcat(a + b, c);
    ValuesConcat(a, b);
  }

  /** The values of a single bound. */
  lemma OneBound(m: Bound)
    ensures Values([m]) == RangeSet(m.first, m.second)
  {
    assert [m][..0] == [];
  }

  /** Two ranges that overlap or touch make one range. */
  lemma RangeUnion(a: int, b: int, c: int, d: int)
    requires a <= c && b >= c - 1
    ensures RangeSet(a, b) + RangeSet(c, d) == RangeSet(a, Max(b, d))
  {
  }

  // ---- finding the bound of a value ----

  datatype ContainingBound =
    | FoundBound(index: nat)
    | BetweenBounds(lower: nat, upper: nat)
    | OutOfBoundsLarge
    | OutOfBoundsSmall
    | NoBound      // the scan fell through: bounds that are not normalised
    | EmptyDomain  // no bounds at all: the source reports an empty domain and aborts

  /**
   * Where value lies relative to the bounds.  An empty domain is reported
   * as EmptyDomain.  On normalised bounds the scan never falls through,
   * and FoundBound is returned exactly when the bounds hold the value.
   */
  method FindContainingBound(bounds: seq<Bound>, value: int) returns (r: ContainingBound)
    ensures r == EmptyDomain <==> |bounds| == 0
    ensures r == OutOfBoundsSmall <==> |bounds| > 0 && value < bounds[0].first
    ensures r == OutOfBoundsLarge <==>
              |bounds| > 0 && bounds[0].first <= value && bounds[|bounds| - 1].second < value
    ensures r.FoundBound? ==> r.index < |bounds| && Holds(bounds[r.index], value)
    ensures r.BetweenBounds? ==>
              (r.upper == r.lower + 1 < |bounds| && bounds[r.lower].second < value < bounds[r.upper].first)
    ensures Normalised(bounds) ==> r != NoBound && (r.FoundBound? <==> value in Values(bounds))
  {
    if |bounds| == 0 {
      return EmptyDomain;
    }
    if value < bounds[0].first {
      if Normalised(bounds) {
        NotInBelow(bounds, value);
      }
      return OutOfBoundsSmall;
    }
    if value > bounds[|bounds| - 1].second {
      if Normalised(bounds) {
        NotInAbove(bounds, value);
      }
      return OutOfBoundsLarge;
    }
    var i := 0;
    while i < |bounds|
      invariant 0 <= i <= |bounds|
      invariant bounds[0].first <= value <= bounds[|bounds| - 1].second
      invariant Normalised(bounds) ==> i < |bounds| && bounds[i].first <= value
    {
      var bound := bounds[i];
      if bound.first <= value && bound.second >= value {
        ValuesIn(bounds, value);
        return FoundBound(i);
      }
      if i + 1 < |bounds| {
        var nextBound := bounds[i + 1];
        if value > bound.second && value < nextBound.first {
          if Normalised(bounds) {
            NotInBetween(bounds, i, value);
          }
          return BetweenBounds(i, i + 1);
        }
      }
      i := i + 1;
    }
    r := NoBound;
  }

  lemma NotInBelow(bs: seq<Bound>, v: int)
    requires Normalised(bs) && |bs| > 0 && v < bs[0].first
    ensures v !in Values(bs)
  {
    ValuesIn(bs, v);
    forall i | 0 <= i < |bs| ensures bs[0].first <= bs[i].first {
      NormalisedOrdered(bs, 0, i);
    }
  }

  lemma NotInAbove(bs: seq<Bound>, v: int)
    requires Normalised(bs) && |bs| > 0 && v > bs[|bs| - 1].second
    ensures v !in Values(bs)
  {
    ValuesIn(bs, v);
    forall i | 0 <= i < |bs| ensures bs[i].second <= bs[|bs| - 1].second {
      NormalisedOrdered(bs, i, |bs| - 1);
    }
  }

  lemma NotInBetween(bs: seq<Bound>, i: nat, v: int)
    requires Normalised(bs) && i + 1 < |bs| && bs[i].second < v < bs[i + 1].first
    ensures v !in Values(bs)
  {
    ValuesIn(bs, v);
    forall j | 0 <= j < |bs| ensures !Holds(bs[j], v) {
      if j <= i {
        NormalisedOrdered(bs, j, i);
      } else {
        NormalisedOrdered(bs, i + 1, j);
      }
    }
  }

  // ---- the domain ----

  class IntDomain {
    var bounds: seq<Bound>
    var domainSize: int

    ghost predicate Valid()
      reads this
    {
      Normalised(bounds) && domainSize == DomainSize(bounds)
    }

    /** Normalises the bounds and counts the values. */
    constructor (bounds: seq<Bound>)
      ensures Valid() && Values(this.bounds) == Values(bounds)
      ensures domainSize == |Values(bounds)|
    {
      var b := NormaliseBounds(bounds);
      this.bounds := b;
      domainSize := DomainSize(b);
      DomainSizeCounts(b);
    }

    /** Adds the values of other. */
    method Merge(other: IntDomain)
      requires Valid()
      modifies this
      ensures Valid() && Values(bounds) == old(Values(bounds)) + Values(other.bounds)
      ensures domainSize == |Values(bounds)|
    {
      ValuesConcat(bounds, other.bounds);
      bounds := NormaliseBounds(bounds + other.bounds);
      domainSize := DomainSize(bounds);
      DomainSizeCounts(bounds);
    }

    /** None for an empty domain, where the search aborts; otherwise membership. */
    method ContainsValue(value: int) returns (contained: Option<bool>)
      requires Valid()
      ensures contained.None? <==> |bounds| == 0
      ensures contained.Some? ==> (contained.value <==> value in Values(bounds))
    {
      var c := FindContainingBound(bounds, value);
      if c == EmptyDomain {
        return None;
      }
      contained := Some(c.FoundBound?);
    }
  }
}
