// Accumulation of the violation attributed to each decision variable during
// one evaluation of the constraints: a per-variable total, the overall total,
// the ids that received a violation, and nested containers per id.

module ViolationContainers {

  import opened Sums

  /**
   * total is the sum of the per-variable violations vv, and every variable
   * with a violation is listed (listed ids are in range).
   */
  ghost predicate Accounts(total: nat, vv: seq<nat>, listed: seq<nat>) {
    total == Sum(vv)
    && (forall id :: 0 <= id < |vv| && vv[id] > 0 ==> id in listed)
    && (forall k :: 0 <= k < |listed| ==> listed[k] < |vv|)
  }

  /** Padding with variables without violation keeps the accounting. */
  lemma PaddedAccounts(total: nat, vv: seq<nat>, listed: seq<nat>, k: nat)
    requires Accounts(total, vv, listed)
    ensures Accounts(total, vv + seq(k, _ => 0), listed)
  {
    SumPadded(vv, k);
  }

  /** Adding to one variable, and listing it when it had none, keeps the accounting. */
  lemma AddedAccounts(total: nat, vv: seq<nat>, listed: seq<nat>, id: nat, violation: nat)
    requires Accounts(total, vv, listed) && id < |vv|
    ensures Accounts(total + violation, vv[id := vv[id] + violation],
                     if vv[id] == 0 then listed + [id] else listed)
  {
    SumUpdate(vv, id, vv[id] + violation);
  }

  class ViolationContainer {
    var totalViolation: nat
    var varViolations: seq<nat>
    var varsWithViolation: seq<nat>
    var children: map<nat, ViolationContainer>

    /**
     * The total is the sum of the per-variable violations, and every variable
     * with a violation is listed (listed ids are in range).
     */
    ghost predicate Valid()
      reads this
    {
      Accounts(totalViolation, varViolations, varsWithViolation)
    }

    constructor (numberVariables: nat)
      ensures Valid() && totalViolation == 0 && varsWithViolation == [] && children == map[]
      ensures |varViolations| == numberVariables
      ensures forall id :: 0 <= id < numberVariables ==> varViolations[id] == 0
    {
      totalViolation := 0;
      varViolations := seq(numberVariables, _ => 0);
      varsWithViolation := [];
      children := map[];
      SumZeros(numberVariables);
    }

    /** The violation of a variable; ids beyond the vector have none. */
    function VarViolation(id: nat): (v: nat)
      reads this
      requires Valid()
      ensures v <= totalViolation
      ensures v > 0 ==> id in varsWithViolation
      ensures id >= |varViolations| ==> v == 0
    {
      if id < |varViolations| then
        EntryAtMostSum(varViolations, id);
        varViolations[id]
      else 0
    }

    /**
     * Adds violation to variable id, growing the vector as needed; the id is
     * listed when its violation was zero before.
     */
    method AddViolation(id: nat, violation: nat)
      requires Valid()
      modifies this
      ensures Valid()
      ensures |varViolations| == if id < old(|varViolations|) then old(|varViolations|) else id + 1
      ensures VarViolation(id) == old(VarViolation(id)) + violation
      ensures forall other :: other != id ==> VarViolation(other) == old(VarViolation(other))
      ensures totalViolation == old(totalViolation) + violation
      ensures varsWithViolation == old(varsWithViolation) + (if old(VarViolation(id)) == 0 then [id] else [])
      ensures children == old(children)
    {
      if id >= |varViolations| {
        Grow(id + 1);
      }
      AddInRange(id, violation);
    }

    /** Extends the vector to n variables without violation. */
    method Grow(n: nat)
      requires Valid() && n > |varViolations|
      modifies this
      ensures Valid() && |varViolations| == n
      ensures forall id :: VarViolation(id) == old(VarViolation(id))
      ensures totalViolation == old(totalViolation) && varsWithViolation == old(varsWithViolation)
      ensures children == old(children)
    {
      PaddedAccounts(totalViolation, varViolations, varsWithViolation, n - |varViolations|);
      varViolations := varViolations + seq(n - |varViolations|, _ => 0);
    }

    /** AddViolation for an id already in the vector. */
    method AddInRange(id: nat, violation: nat)
      requires Valid() && id < |varViolations|
      modifies this
      ensures Valid() && |varViolations| == old(|varViolations|)
      ensures VarViolation(id) == old(VarViolation(id)) + violation
      ensures forall other :: other != id ==> VarViolation(other) == old(VarViolation(other))
      ensures totalViolation == old(totalViolation) + violation
      ensures varsWithViolation == old(varsWithViolation) + (if old(VarViolation(id)) == 0 then [id] else [])
      ensures children == old(children)
    {
      ghost var vv, listed := varViolations, varsWithViolation;
      AddedAccounts(totalViolation, vv, listed, id, violation);
      if varViolations[id] == 0 {
        varsWithViolation := varsWithViolation + [id];
      }
      varViolations := varViolations[id := varViolations[id] + violation];
      totalViolation := totalViolation + violation;
      assert varsWithViolation == if vv[id] == 0 then listed + [id] else listed;
    }

    /** Forgets all violations and children, keeping the number of variables. */
    method Reset()
      modifies this
      ensures Valid()
      ensures totalViolation == 0 && varsWithViolation == [] && children == map[]
      ensures |varViolations| == old(|varViolations|)
      ensures forall id :: VarViolation(id) == 0
    {
      totalViolation := 0;
      SumZeros(|varViolations|);
      varViolations := seq(|varViolations|, _ => 0);
      varsWithViolation := [];
      children := map[];
    }

    /** The nested container for id, created empty on first use. */
    method ChildViolations(id: nat) returns (child: ViolationContainer)
      modifies this
      ensures HasChildViolation(id) && child == children[id]
      ensures id in old(children) ==> children == old(children)
      ensures id !in old(children) ==> fresh(child) && children == old(children)[id := child]
      ensures id !in old(children) ==> child.Valid() && child.totalViolation == 0 && child.varViolations == []
      ensures totalViolation == old(totalViolation) && varViolations == old(varViolations)
      ensures varsWithViolation == old(varsWithViolation)
    {
      if id in children {
        child := children[id];
      } else {
        child := new ViolationContainer(0);
        children := children[id := child];
      }
    }

    /** Whether a nested container exists for id. */
    predicate HasChildViolation(id: nat)
      reads this
    {
      id in children
    }
  }
}
