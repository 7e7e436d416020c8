// The constraint "integer value v lies in an integer domain".  Its violation
// is the distance from v to the nearest value of the domain; the operator
// also remembers the bound it is closest to and whether v is too small or
// too large for it, and tries that bound first on the next evaluation.

module OpInIntDomains {
  import opened IntDomains

  datatype Reason = TOO_SMALL | TOO_LARGE

  /** A violation, the bound it refers to and the direction of the fix. */
  datatype Expectation = Expectation(violation: int, closestBound: nat, reason: Reason)

  function Abs(x: int): (r: nat)
    ensures r == x || r == -x
  {
    if x < 0 then -x else x
  }

  /**
   * What the consistency check expects when v lies strictly between bounds i
   * and i + 1: the nearer of the two, the lower one on a tie going to the
   * upper one.
   */
  function SanityBetween(bounds: seq<Bound>, i: nat, v: int): (e: Expectation)
    requires i + 1 < |bounds| && bounds[i].second < v < bounds[i + 1].first
    ensures e.violation > 0
    ensures e.violation <= v - bounds[i].second && e.violation <= bounds[i + 1].first - v
    ensures e.reason == TOO_LARGE ==> e.closestBound == i && e.violation == v - bounds[i].second
    ensures e.reason == TOO_SMALL ==> e.closestBound == i + 1 && e.violation == bounds[i + 1].first - v
  {
    var distanceToBound := v - bounds[i].second;
    var distanceToNextBound := bounds[i + 1].first - v;
    if distanceToBound < distanceToNextBound then Expectation(distanceToBound, i, TOO_LARGE)
    else Expectation(distanceToNextBound, i + 1, TOO_SMALL)
  }

  /**
   * The same expectation as the consistency check writes it: the distance to
   * the next bound is measured to that bound's upper end.
   */
  function SanityBetweenAsWritten(bounds: seq<Bound>, i: nat, v: int): (e: Expectation)
    requires i + 1 < |bounds| && bounds[i].second < v < bounds[i + 1].first
    ensures e.reason == TOO_LARGE ==> e.closestBound == i && e.violation == v - bounds[i].second
    ensures e.reason == TOO_SMALL ==> e.closestBound == i + 1 && e.violation == bounds[i + 1].second - v
  {
    var distanceToBound := v - bounds[i].second;
    var distanceToNextBound := bounds[i + 1].second - v;
    if distanceToBound < distanceToNextBound then Expectation(distanceToBound, i, TOO_LARGE)
    else Expectation(distanceToNextBound, i + 1, TOO_SMALL)
  }

  /**
   * With bounds [1..2] and [8..20] and v = 6 the nearest value is 8, two
   * above v, which is what the operator computes; the check as written
   * expects a distance of 4 to the first bound instead and so reports a
   * correct state as inconsistent.
   */
  lemma SanityAsWrittenRejectsCorrectState()
    ensures var bounds := [Bound(1, 2), Bound(8, 20)];
            SanityBetween(bounds, 0, 6) == Expectation(2, 1, TOO_SMALL)
            && SanityBetweenAsWritten(bounds, 0, 6) == Expectation(4, 0, TOO_LARGE)
  {
  }

  /** Every value of the domain is at least as far from v as the computed distance. */
  lemma NearestBetween(bounds: seq<Bound>, i: nat, v: int, w: int)
    requires Normalised(bounds) && i + 1 < |bounds| && bounds[i].second < v < bounds[i + 1].first
    requires w in Values(bounds)
    ensures Abs(v - w) >= SanityBetween(bounds, i, v).violation
  {
    ValuesIn(bounds, w);
    var j :| 0 <= j < |bounds| && Holds(bounds[j], w);
    if j <= i {
      NormalisedOrdered(bounds, j, i);
    } else {
      NormalisedOrdered(bounds, i + 1, j);
    }
  }

  lemma NearestBelow(bounds: seq<Bound>, v: int, w: int)
    requires Normalised(bounds) && |bounds| > 0 && v < bounds[0].first && w in Values(bounds)
    ensures Abs(v - w) >= bounds[0].first - v
  {
    ValuesIn(bounds, w);
    var j :| 0 <= j < |bounds| && Holds(bounds[j], w);
    NormalisedOrdered(bounds, 0, j);
  }

  lemma NearestAbove(bounds: seq<Bound>, v: int, w: int)
    requires Normalised(bounds) && |bounds| > 0 && v > bounds[|bounds| - 1].second && w in Values(bounds)
    ensures Abs(v - w) >= v - bounds[|bounds| - 1].second
  {
    ValuesIn(bounds, w);
    var j :| 0 <= j < |bounds| && Holds(bounds[j], w);
    NormalisedOrdered(bounds, j, |bounds| - 1);
  }

  /**
   * e describes where v stands relative to the domain: a violation of zero
   * exactly when v is a value of the domain, otherwise the distance to the
   * nearest value, with the bound holding that value and the direction
   * towards it; outside the domain the first or last bound is nearest, and
   * between two bounds the expectation of the consistency check holds.
   */
  ghost predicate IsNearest(bounds: seq<Bound>, v: int, e: Expectation) {
    |bounds| > 0
    && e.closestBound < |bounds|
    && e.violation >= 0
    && (e.violation == 0 <==> v in Values(bounds))
    && (forall w :: w in Values(bounds) ==> Abs(v - w) >= e.violation)
    && (e.violation == 0 ==> Holds(bounds[e.closestBound], v))
    && (e.violation > 0 ==>
          Holds(bounds[e.closestBound], if e.reason == TOO_SMALL then v + e.violation else v - e.violation))
    && (v < bounds[0].first ==> e == Expectation(bounds[0].first - v, 0, TOO_SMALL))
    && (v > bounds[|bounds| - 1].second ==> e == Expectation(v - bounds[|bounds| - 1].second, |bounds| - 1, TOO_LARGE))
    && (forall i :: 0 <= i && i + 1 < |bounds| && bounds[i].second < v < bounds[i + 1].first ==>
          e == SanityBetween(bounds, i, v))
  }

  /** A value held by a bound is neither outside the domain nor between two bounds. */
  lemma InBoundPlacement(bounds: seq<Bound>, k: nat, v: int)
    requires Normalised(bounds) && k < |bounds| && Holds(bounds[k], v)
    ensures bounds[0].first <= v <= bounds[|bounds| - 1].second
    ensures forall i :: 0 <= i && i + 1 < |bounds| ==> !(bounds[i].second < v < bounds[i + 1].first)
  {
    NormalisedOrdered(bounds, 0, k);
    NormalisedOrdered(bounds, k, |bounds| - 1);
    forall i | 0 <= i && i + 1 < |bounds| ensures !(bounds[i].second < v < bounds[i + 1].first) {
      if k <= i {
        NormalisedOrdered(bounds, k, i);
      } else {
        NormalisedOrdered(bounds, i + 1, k);
      }
    }
  }

  /** A value held by bound k has violation zero with k as its closest bound, whatever the reason. */
  lemma InBoundNearest(bounds: seq<Bound>, k: nat, v: int, reason: Reason)
    requires Normalised(bounds) && k < |bounds| && Holds(bounds[k], v)
    ensures IsNearest(bounds, v, Expectation(0, k, reason))
  {
    ValuesIn(bounds, v);
    InBoundPlacement(bounds, k, v);
  }

  /** Between bounds i and i + 1 the consistency check's expectation is the nearest value. */
  lemma BetweenNearest(bounds: seq<Bound>, i: nat, v: int)
    requires Normalised(bounds) && i + 1 < |bounds| && bounds[i].second < v < bounds[i + 1].first
    ensures IsNearest(bounds, v, SanityBetween(bounds, i, v))
  {
    forall w | w in Values(bounds) ensures Abs(v - w) >= SanityBetween(bounds, i, v).violation {
      NearestBetween(bounds, i, v, w);
    }
    NotInBetween(bounds, i, v);
    BetweenPlacement(bounds, i, v);
  }

  /** A value strictly between bounds i and i + 1 lies inside the domain's span and in no other gap. */
  lemma BetweenPlacement(bounds: seq<Bound>, i: nat, v: int)
    requires Normalised(bounds) && i + 1 < |bounds| && bounds[i].second < v < bounds[i + 1].first
    ensures bounds[0].first <= v <= bounds[|bounds| - 1].second
    ensures forall j :: 0 <= j && j + 1 < |bounds| && bounds[j].second < v < bounds[j + 1].first ==> j == i
  {
    NormalisedOrdered(bounds, 0, i);
    NormalisedOrdered(bounds, i + 1, |bounds| - 1);
    forall j | 0 <= j && j + 1 < |bounds| && bounds[j].second < v < bounds[j + 1].first ensures j == i {
      if j < i {
        NormalisedOrdered(bounds, j + 1, i);
      } else if j > i {
        NormalisedOrdered(bounds, i + 1, j);
      }
    }
  }

  /** Below the first bound, its lower end is the nearest value. */
  lemma BelowNearest(bounds: seq<Bound>, v: int)
    requires Normalised(bounds) && |bounds| > 0 && v < bounds[0].first
    ensures IsNearest(bounds, v, Expectation(bounds[0].first - v, 0, TOO_SMALL))
  {
    forall w | w in Values(bounds) ensures Abs(v - w) >= bounds[0].first - v {
      NearestBelow(bounds, v, w);
    }
    NotInBelow(bounds, v);
    NormalisedOrdered(bounds, 0, |bounds| - 1);
    forall i | 0 <= i && i + 1 < |bounds| ensures !(bounds[i].second < v) {
      NormalisedOrdered(bounds, 0, i);
    }
  }

  /** Above the last bound, its upper end is the nearest value. */
  lemma AboveNearest(bounds: seq<Bound>, v: int)
    requires Normalised(bounds) && |bounds| > 0 && v > bounds[|bounds| - 1].second
    ensures IsNearest(bounds, v, Expectation(v - bounds[|bounds| - 1].second, |bounds| - 1, TOO_LARGE))
  {
    forall w | w in Values(bounds) ensures Abs(v - w) >= v - bounds[|bounds| - 1].second {
      NearestAbove(bounds, v, w);
    }
    NotInAbove(bounds, v);
    NormalisedOrdered(bounds, 0, |bounds| - 1);
    forall j | 1 <= j < |bounds| ensures bounds[j].first < v {
      NormalisedOrdered(bounds, j, |bounds| - 1);
    }
  }

  class OpInIntDomain {
    /** The bounds of the domain, normalised. */
    const bounds: seq<Bound>
    var violation: int
    var closestBound: nat
    var reason: Reason

    ghost predicate Valid()
      reads this
    {
      Normalised(bounds) && |bounds| > 0 && closestBound < |bounds|
    }

    constructor (bounds: seq<Bound>)
      requires Normalised(bounds) && |bounds| > 0
      ensures Valid() && this.bounds == bounds && closestBound == 0
    {
      this.bounds := bounds;
      violation := 0;
      closestBound := 0;
      reason := TOO_SMALL;
    }

    /**
     * Recomputes the violation for value v, trying the remembered closest
     * bound first and otherwise searching the bounds.
     */
    method Reevaluate(v: int)
      requires Valid()
      modifies this
      ensures Valid()
      ensures IsNearest(bounds, v, Expectation(violation, closestBound, reason))
    {
      if bounds[closestBound].first <= v && bounds[closestBound].second >= v {
        violation := 0;
        InBoundNearest(bounds, closestBound, v, reason);
        return;
      }
      var e := SearchNearest(bounds, v, reason);
      violation, closestBound, reason := e.violation, e.closestBound, e.reason;
    }
  }

  /**
   * The search part of Reevaluate: locates v among the bounds and returns its
   * expectation (a value inside keeps the given reason).
   */
  method SearchNearest(bounds: seq<Bound>, v: int, reason: Reason) returns (e: Expectation)
    requires Normalised(bounds) && |bounds| > 0
    ensures IsNearest(bounds, v, e)
  {
    var r := FindContainingBound(bounds, v);
    match r {
      case FoundBound(index) =>
        e := Expectation(0, index, reason);
        InBoundNearest(bounds, index, v, reason);
      case BetweenBounds(lower, upper) =>
        e := SanityBetween(bounds, lower, v);
        BetweenNearest(bounds, lower, v);
      case OutOfBoundsSmall =>
        e := Expectation(bounds[0].first - v, 0, TOO_SMALL);
        BelowNearest(bounds, v);
      case OutOfBoundsLarge =>
        e := Expectation(v - bounds[|bounds| - 1].second, |bounds| - 1, TOO_LARGE);
        AboveNearest(bounds, v);
      case NoBound =>
        assert false;
      case EmptyDomain =>
        assert false;
    }
  }
}
