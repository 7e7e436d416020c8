// Equality of two booleans.  A boolean's violation is zero when it holds;
// the equality is violated when exactly one side holds, by the violation of
// the side that does not.

module OpBoolEqs {

  /**
   * The violation of left = right from the violations of its sides: zero
   * when both hold or both fail, otherwise the violation of the failing side.
   */
  function BoolEqViolation(leftVio: nat, rightVio: nat): (violation: nat)
    ensures violation == 0 <==> (leftVio == 0 <==> rightVio == 0)
    ensures leftVio == 0 && rightVio > 0 ==> violation == rightVio
    ensures leftVio > 0 && rightVio == 0 ==> violation == leftVio
  {
    var (low, high) := if leftVio > rightVio then (rightVio, leftVio) else (leftVio, rightVio);
    // with low > 0 the larger side cannot hold, so the source's "1 when the
    // larger side holds" arm is never taken
    if low == 0 then high else 0
  }

  /** The equality does not depend on the order of its sides. */
  lemma BoolEqSymmetric(leftVio: nat, rightVio: nat)
    ensures BoolEqViolation(leftVio, rightVio) == BoolEqViolation(rightVio, leftVio)
  {
  }

  /** What a side is told when violations are attributed to variables. */
  datatype BoolViolationContext = BoolViolationContext(parentViolation: nat, isTrue: bool)

  /**
   * The contexts handed to the left and right side when the equality's
   * violation is attributed to variables; none when it holds.
   */
  function VarViolationContexts(violation: nat, leftVio: nat, rightVio: nat): (r: seq<BoolViolationContext>)
    ensures violation == 0 ==> r == []
    ensures violation > 0 ==> |r| == 2 && r[0].parentViolation == violation && r[1].parentViolation == violation
    ensures violation > 0 ==> (r[0].isTrue <==> leftVio == 0) && (r[1].isTrue <==> rightVio == 0)
  {
    if violation == 0 then []
    else [BoolViolationContext(violation, leftVio == 0), BoolViolationContext(violation, rightVio == 0)]
  }

  /** When the equality is violated, exactly one side is told that it holds. */
  lemma ViolatedSidesDisagree(leftVio: nat, rightVio: nat)
    requires BoolEqViolation(leftVio, rightVio) > 0
    ensures var r := VarViolationContexts(BoolEqViolation(leftVio, rightVio), leftVio, rightVio);
            r[0].isTrue != r[1].isTrue
  {
  }
}
