// The multiset-inclusion constraint `left ⊆ right`.  Its violation is the
// total excess: for every hash, how many more times it occurs on the left
// than on the right.  The operator keeps the non-zero excesses in a map and
// updates them one hash at a time as either operand changes.

module OpMSetSubsetEqs {
  import opened Common
  import opened HashSums

  /** How many copies of a hash the left side has beyond the right side. */
  function CalcExcess(leftCount: nat, rightCount: nat): (excess: nat)
    ensures excess == 0 <==> leftCount <= rightCount
    ensures excess > 0 ==> rightCount + excess == leftCount
  {
    if leftCount > rightCount then leftCount - rightCount else 0
  }

  /** The non-zero excess of every hash. */
  ghost function ExcessOf(left: multiset<Hash>, right: multiset<Hash>): (r: map<Hash, int>) {
    map h | h in left && left[h] > right[h] :: left[h] - right[h]
  }

  /** A map of positive values sums to zero exactly when it is empty, and never below. */
  lemma {:induction false} MapSumPositive(m: map<Hash, int>)
    requires forall h :: h in m ==> m[h] > 0
    ensures MapSum(m) >= 0
    ensures MapSum(m) == 0 <==> |m| == 0
    decreases |m|
  {
    if |m| > 0 {
      var h := PickElement(m.Keys);
      MapSumRemove(m, h);
      MapRemoveCard(m, h);
      MapSumPositive(m - {h});
    }
  }

  /** The total excess is zero exactly when the left multiset is included in the right. */
  lemma NoExcessIffSubset(left: multiset<Hash>, right: multiset<Hash>)
    ensures MapSum(ExcessOf(left, right)) >= 0
    ensures MapSum(ExcessOf(left, right)) == 0 <==> left <= right
  {
    var e := ExcessOf(left, right);
    MapSumPositive(e);
    if |e| == 0 {
      forall h ensures left[h] <= right[h] {
        assert h !in e;
      }
    } else {
      var h := PickElement(e.Keys);
      assert left[h] > right[h];
    }
  }

  /** The stored excess of a hash in an excess map, zero when absent. */
  function StoredExcess(m: map<Hash, int>, h: Hash): (e: int) {
    if h in m then m[h] else 0
  }

  /**
   * The violation is the sum of the stored excesses, no zero excess is
   * stored, and every hash outside stale has its true excess.
   */
  ghost predicate Agrees(m: map<Hash, int>, violation: int, left: multiset<Hash>, right: multiset<Hash>, stale: set<Hash>) {
    violation == MapSum(m)
    && (forall h :: h in m ==> m[h] > 0)
    && (forall h :: h !in stale ==> StoredExcess(m, h) == CalcExcess(left[h], right[h]))
  }

  /** The excess map after storing a new excess for one hash (a zero excess is erased). */
  function StoreExcess(m: map<Hash, int>, h: Hash, excess: nat): (r: map<Hash, int>)
    ensures StoredExcess(r, h) == excess
    ensures forall k :: k != h ==> StoredExcess(r, k) == StoredExcess(m, k)
  {
    if excess == 0 then m - {h} else m[h := excess]
  }

  /** Storing the true excess of a hash and adjusting the violation by the difference fixes that hash. */
  lemma StoreExcessAgrees(m: map<Hash, int>, violation: int, left: multiset<Hash>, right: multiset<Hash>,
                          hash: Hash, stale: set<Hash>)
    requires Agrees(m, violation, left, right, stale)
    ensures var e := CalcExcess(left[hash], right[hash]);
            Agrees(StoreExcess(m, hash, e), violation + e - StoredExcess(m, hash), left, right, stale - {hash})
  {
    var e := CalcExcess(left[hash], right[hash]);
    var r := StoreExcess(m, hash, e);
    if e == 0 {
      if hash in m {
        MapSumRemove(m, hash);
      } else {
        assert r == m;
      }
    } else {
      MapSumUpdate(m, hash, e);
    }
    forall h | h !in stale - {hash} ensures StoredExcess(r, h) == CalcExcess(left[h], right[h]) {
      if h != hash {
        assert StoredExcess(m, h) == CalcExcess(left[h], right[h]);
      }
    }
  }

  /** The first n hashes of hs, as a set. */
  ghost function Listed(hs: seq<Hash>, n: nat): (r: set<Hash>)
    requires n <= |hs|
  {
    set k | 0 <= k < n :: hs[k]
  }

  lemma ListedStep(hs: seq<Hash>, n: nat)
    requires n < |hs|
    ensures Listed(hs, n + 1) == Listed(hs, n) + {hs[n]}
  {
  }

  lemma ListedAll(hs: seq<Hash>)
    ensures forall h :: h in Listed(hs, |hs|) <==> h in hs
  {
    forall h | h in hs ensures h in Listed(hs, |hs|) {
      var k :| 0 <= k < |hs| && hs[k] == h;
    }
  }

  class OpMSetSubsetEq {
    var violation: int
    var hashExcesses: map<Hash, int>

    /** The operator's state agrees with the operands at every hash outside stale. */
    ghost predicate AgreesExcept(left: multiset<Hash>, right: multiset<Hash>, stale: set<Hash>)
      reads this
    {
      Agrees(hashExcesses, violation, left, right, stale)
    }

    /** With nothing stale, the stored map is the excess map and the violation its total. */
    lemma SanityCheck(left: multiset<Hash>, right: multiset<Hash>)
      requires AgreesExcept(left, right, {})
      ensures hashExcesses == ExcessOf(left, right)
      ensures violation == MapSum(ExcessOf(left, right))
      ensures violation == 0 <==> left <= right
    {
      forall h ensures h in hashExcesses <==> h in ExcessOf(left, right) {
        assert StoredExcess(hashExcesses, h) == CalcExcess(left[h], right[h]);
      }
      forall h | h in hashExcesses ensures hashExcesses[h] == ExcessOf(left, right)[h] {
        assert StoredExcess(hashExcesses, h) == CalcExcess(left[h], right[h]);
      }
      NoExcessIffSubset(left, right);
    }

    constructor ()
      ensures violation == 0 && hashExcesses == map[]
    {
      violation := 0;
      hashExcesses := map[];
    }

    /** Recomputes the excess of one hash and adjusts the violation by the difference. */
    method UpdateViolation(left: multiset<Hash>, right: multiset<Hash>, hash: Hash, ghost stale: set<Hash>)
      requires AgreesExcept(left, right, stale)
      modifies this
      ensures AgreesExcept(left, right, stale - {hash})
      ensures hashExcesses == StoreExcess(old(hashExcesses), hash, CalcExcess(left[hash], right[hash]))
      ensures forall h :: h != hash ==> StoredExcess(hashExcesses, h) == StoredExcess(old(hashExcesses), h)
      ensures violation == old(violation) + CalcExcess(left[hash], right[hash]) - StoredExcess(old(hashExcesses), hash)
    {
      var oldExcess := if hash in hashExcesses then hashExcesses[hash] else 0;
      var newExcess := CalcExcess(left[hash], right[hash]);
      StoreExcessAgrees(hashExcesses, violation, left, right, hash, stale);
      // storing a zero excess and then erasing it leaves the key absent
      if newExcess == 0 {
        hashExcesses := hashExcesses - {hash};
      } else {
        hashExcesses := hashExcesses[hash := newExcess];
      }
      violation := violation + (newExcess - oldExcess);
    }

    /** Recomputes everything from the left multiset's hashes. */
    method Reevaluate(left: multiset<Hash>, right: multiset<Hash>)
      modifies this
      ensures AgreesExcept(left, right, {})
      ensures hashExcesses == ExcessOf(left, right)
      ensures violation == 0 <==> left <= right
    {
      violation := 0;
      hashExcesses := map[];
      var todo := set h | h in left;
      while todo != {}
        invariant Agrees(hashExcesses, violation, left, right, todo)
        invariant forall h :: h in todo ==> h !in hashExcesses
        decreases |todo|
      {
        var h := Pick(todo);
        var excess := CalcExcess(left[h], right[h]);
        StoreExcessAgrees(hashExcesses, violation, left, right, h, todo);
        if excess > 0 {
          hashExcesses := hashExcesses[h := excess];
          violation := violation + excess;
        } else {
          assert StoreExcess(hashExcesses, h, excess) == hashExcesses;
        }
        todo := todo - {h};
      }
      SanityCheck(left, right);
    }

    /**
     * After the operands change from (beforeLeft, beforeRight) to (left, right)
     * only at the listed old and new hashes, updating each listed hash
     * restores agreement (the triggers for added, removed and changed members
     * of either side).
     */
    method MembersChanged(ghost beforeLeft: multiset<Hash>, ghost beforeRight: multiset<Hash>,
                          left: multiset<Hash>, right: multiset<Hash>,
                          oldHashes: seq<Hash>, newHashes: seq<Hash>)
      requires AgreesExcept(beforeLeft, beforeRight, {})
      requires forall h :: h !in oldHashes && h !in newHashes ==> left[h] == beforeLeft[h] && right[h] == beforeRight[h]
      modifies this
      ensures AgreesExcept(left, right, {})
    {
      ghost var listedOld, listedNew := Listed(oldHashes, |oldHashes|), Listed(newHashes, |newHashes|);
      ListedAll(oldHashes);
      ListedAll(newHashes);
      ghost var stale := listedOld + listedNew;
      assert AgreesExcept(left, right, stale) by {
        forall h | h !in stale ensures StoredExcess(hashExcesses, h) == CalcExcess(left[h], right[h]) {
          assert StoredExcess(hashExcesses, h) == CalcExcess(beforeLeft[h], beforeRight[h]);
        }
      }
      UpdateListed(left, right, oldHashes, stale);
      UpdateListed(left, right, newHashes, stale - listedOld);
      assert stale - listedOld - listedNew == {};
    }

    /** One loop of the triggers: every listed hash is brought up to date in turn. */
    method UpdateListed(left: multiset<Hash>, right: multiset<Hash>, hashes: seq<Hash>, ghost stale: set<Hash>)
      requires AgreesExcept(left, right, stale)
      modifies this
      ensures AgreesExcept(left, right, stale - Listed(hashes, |hashes|))
    {
      var i := 0;
      while i < |hashes|
        invariant 0 <= i <= |hashes|
        invariant AgreesExcept(left, right, stale - Listed(hashes, i))
      {
        ListedStep(hashes, i);
        UpdateViolation(left, right, hashes[i], stale - Listed(hashes, i));
        assert (stale - Listed(hashes, i)) - {hashes[i]} == stale - Listed(hashes, i + 1);
        i := i + 1;
      }
    }
  }
}
