// The all-different operator's bookkeeping: members of the operand sequence
// are grouped by hash, and a member is violating exactly while its group
// holds another member too.

module OpAllDiffs {
  import opened Common

  /** Member i of the operand sequence has two or more members in its hash group. */
  ghost predicate InLargeGroup(groups: map<Hash, set<nat>>, hashes: seq<Hash>, i: nat) {
    i < |hashes| && hashes[i] in groups && i in groups[hashes[i]] && |groups[hashes[i]] | > 1
  }

  /** Member i is in the group of the hash recorded for it. */
  ghost predicate Grouped(groups: map<Hash, set<nat>>, hashes: seq<Hash>, i: nat) {
    i < |hashes| && hashes[i] in groups && i in groups[hashes[i]]
  }

  /** Member i has the same hash as some other member. */
  ghost predicate Duplicated(hashes: seq<Hash>, i: nat) {
    i < |hashes| && exists j :: 0 <= j < |hashes| && j != i && hashes[j] == hashes[i]
  }

  /** A set holding two different elements has at least two elements. */
  lemma TwoInSet(g: set<nat>, i: nat, j: nat)
    requires i in g && j in g && i != j
    ensures |g| > 1
  {
    var rest := g - {i};
    assert j in rest;
    assert g == rest + {i};
  }

  /** A set of one element is the singleton of any element in it. */
  lemma Singleton(g: set<nat>, x: nat)
    requires x in g && |g| == 1
    ensures g == {x}
  {
    forall y | y in g ensures y == x {
      if y != x {
        TwoInSet(g, x, y);
      }
    }
  }

  /** A set of more than one element holds an element other than any given one. */
  lemma OtherInSet(g: set<nat>, i: nat) returns (j: nat)
    requires i in g && |g| > 1
    ensures j in g && j != i
  {
    var rest := g - {i};
    assert |rest| == |g| - 1;
    j := PickElement(rest);
  }

  class OpAllDiff {
    /** hashIndicesMap: the members having each hash that some member has. */
    var hashIndicesMap: map<Hash, set<nat>>
    /** indicesHashMap: the hash last recorded for each member. */
    var indicesHashMap: seq<Hash>
    /** violatingOperands: the members sharing their hash with another member. */
    var violatingOperands: set<nat>

    /**
     * No group is empty, every member of a group has that group's hash
     * recorded (so the groups are disjoint), and the violating members are
     * exactly those in a group of two or more.
     */
    ghost predicate Valid()
      reads this
    {
      GroupsValid(hashIndicesMap, indicesHashMap, violatingOperands)
    }

    /** The group of a hash, empty when no member has it. */
    function Group(hash: Hash): (g: set<nat>)
      reads this
      ensures hash in hashIndicesMap ==> g == hashIndicesMap[hash]
      ensures hash !in hashIndicesMap ==> g == {}
    {
      if hash in hashIndicesMap then hashIndicesMap[hash] else {}
    }

    constructor (numberMembers: nat)
      ensures hashIndicesMap == map[] && |indicesHashMap| == numberMembers && violatingOperands == {}
      ensures Valid()
    {
      hashIndicesMap := map[];
      indicesHashMap := seq(numberMembers, _ => 0);
      violatingOperands := {};
    }

    /**
     * addHash: records that member memberIndex, which is in no group, has
     * the given hash.  When the group already held one member, that member
     * becomes violating; when the group now holds more than one, the new
     * member does too.  Returns the new size of the group.
     */
    method AddHash(hash: Hash, memberIndex: nat) returns (r: nat)
      requires Valid()
      requires memberIndex < |indicesHashMap|
      requires !Grouped(hashIndicesMap, indicesHashMap, memberIndex)
      modifies this
      ensures Valid()
      ensures hashIndicesMap == old(hashIndicesMap)[hash := old(Group(hash)) + {memberIndex}]
      ensures indicesHashMap == old(indicesHashMap)[memberIndex := hash]
      ensures violatingOperands ==
                if old(Group(hash)) == {} then old(violatingOperands)
                else old(violatingOperands) + old(Group(hash)) + {memberIndex}
      ensures r == |hashIndicesMap[hash]| == |old(Group(hash))| + 1
    {
      var indices := Group(hash);
      assert memberIndex !in indices;
      if |indices| == 1 {
        var first := Pick(indices);
        Singleton(indices, first);
        violatingOperands := violatingOperands + {first};
      }
      indices := indices + {memberIndex};
      hashIndicesMap := hashIndicesMap[hash := indices];
      indicesHashMap := indicesHashMap[memberIndex := hash];
      if |indices| > 1 {
        violatingOperands := violatingOperands + {memberIndex};
      }
      r := |indices|;
      AddHashValid(old(hashIndicesMap), old(indicesHashMap), old(violatingOperands), hash, memberIndex);
    }

    /**
     * removeHash: takes member memberIndex out of the group of the given
     * hash.  The member stops violating, and so does the one member left in
     * the group if there is just one; a group left empty is erased.  Returns
     * the number of members left in the group.
     */
    method RemoveHash(hash: Hash, memberIndex: nat) returns (r: nat)
      requires Valid()
      requires hash in hashIndicesMap && memberIndex in hashIndicesMap[hash]
      modifies this`hashIndicesMap, this`violatingOperands
      ensures Valid()
      ensures var rest := old(hashIndicesMap[hash]) - {memberIndex};
              && (rest == {} ==> hashIndicesMap == old(hashIndicesMap) - {hash})
              && (rest != {} ==> hashIndicesMap == old(hashIndicesMap)[hash := rest])
              && violatingOperands ==
                   old(violatingOperands) - {memberIndex} - (if |rest| == 1 then rest else {})
              && r == |rest|
    {
      var indices := hashIndicesMap[hash] - {memberIndex};
      violatingOperands := violatingOperands - {memberIndex};
      if |indices| == 1 {
        var last := Pick(indices);
        Singleton(indices, last);
        violatingOperands := violatingOperands - {last};
      }
      if |indices| == 0 {
        hashIndicesMap := hashIndicesMap - {hash};
        r := 0;
      } else {
        hashIndicesMap := hashIndicesMap[hash := indices];
        r := |indices|;
      }
      RemoveHashValid(old(hashIndicesMap), indicesHashMap, old(violatingOperands), hash, memberIndex);
    }
  }

  /** The invariant of OpAllDiff, stated on the three fields' values. */
  ghost predicate GroupsValid(groups: map<Hash, set<nat>>, hashes: seq<Hash>, violating: set<nat>) {
    (forall h :: h in groups ==> groups[h] != {}) &&
    (forall h, i {:trigger i in groups[h]} :: h in groups && i in groups[h] ==> i < |hashes| && hashes[i] == h) &&
    (forall i: nat {:trigger i in violating} {:trigger InLargeGroup(groups, hashes, i)} ::
       i in violating <==> InLargeGroup(groups, hashes, i))
  }

  /** Adding an ungrouped member to a hash group keeps the invariant. */
  lemma AddHashValid(groups: map<Hash, set<nat>>, hashes: seq<Hash>, violating: set<nat>, hash: Hash, m: nat)
    requires GroupsValid(groups, hashes, violating)
    requires m < |hashes| && !Grouped(groups, hashes, m)
    ensures var g := if hash in groups then groups[hash] else {};
            GroupsValid(groups[hash := g + {m}], hashes[m := hash],
                        if g == {} then violating else violating + g + {m})
  {
    var g := if hash in groups then groups[hash] else {};
    var groups2 := groups[hash := g + {m}];
    var hashes2 := hashes[m := hash];
    var violating2 := if g == {} then violating else violating + g + {m};
    assert m !in g;
    assert m !in violating;
    forall h | h in groups2 ensures groups2[h] != {} {
      if h == hash {
        assert m in groups2[h];
      }
    }
    forall h, i | h in groups2 && i in groups2[h] ensures i < |hashes2| && hashes2[i] == h {
      if i != m {
        assert h in groups && i in groups[h];
      }
    }
    forall i: nat ensures i in violating2 <==> InLargeGroup(groups2, hashes2, i) {
      if i == m {
        assert |g + {m}| == |g| + 1;
        assert InLargeGroup(groups2, hashes2, i) <==> g != {};
      } else if i in g {
        assert hashes[i] == hash && hashes2[i] == hash;
        TwoInSet(g + {m}, i, m);
        assert InLargeGroup(groups2, hashes2, i);
      } else if i < |hashes| && hashes[i] == hash {
        assert !InLargeGroup(groups2, hashes2, i) && !InLargeGroup(groups, hashes, i);
      } else if i < |hashes| {
        assert hashes2[i] == hashes[i];
        assert InLargeGroup(groups2, hashes2, i) <==> InLargeGroup(groups, hashes, i);
      }
    }
  }

  /** Removing a member from its hash group keeps the invariant. */
  lemma RemoveHashValid(groups: map<Hash, set<nat>>, hashes: seq<Hash>, violating: set<nat>, hash: Hash, m: nat)
    requires GroupsValid(groups, hashes, violating)
    requires hash in groups && m in groups[hash]
    ensures var rest := groups[hash] - {m};
            GroupsValid(if rest == {} then groups - {hash} else groups[hash := rest], hashes,
                        violating - {m} - (if |rest| == 1 then rest else {}))
  {
    var rest := groups[hash] - {m};
    var groups2 := if rest == {} then groups - {hash} else groups[hash := rest];
    var violating2 := violating - {m} - (if |rest| == 1 then rest else {});
    assert |rest| == |groups[hash]| - 1;
    forall h, i | h in groups2 && i in groups2[h] ensures i < |hashes| && hashes[i] == h {
      assert h in groups && i in groups[h];
    }
    forall i: nat ensures i in violating2 <==> InLargeGroup(groups2, hashes, i) {
      if i in rest {
        assert hashes[i] == hash;
        if |rest| > 1 {
          TwoInSet(groups[hash], i, m);
        } else {
          Singleton(rest, i);
        }
      } else if i != m && InLargeGroup(groups, hashes, i) {
        assert hashes[i] != hash;
      }
    }
  }

  /**
   * Once every member is in the group of its recorded hash, a member is
   * violating exactly when some other member has the same hash: the
   * operator's whole notion of "not all different".
   */
  lemma ViolatingIffDuplicated(groups: map<Hash, set<nat>>, hashes: seq<Hash>, violating: set<nat>, i: nat)
    requires GroupsValid(groups, hashes, violating)
    requires forall k :: 0 <= k < |hashes| ==> Grouped(groups, hashes, k)
    ensures i in violating <==> Duplicated(hashes, i)
  {
    if i in violating {
      var j := OtherInSet(groups[hashes[i]], i);
      assert j < |hashes| && hashes[j] == hashes[i];
      assert Duplicated(hashes, i);
    }
    if Duplicated(hashes, i) {
      var j :| 0 <= j < |hashes| && j != i && hashes[j] == hashes[i];
      assert Grouped(groups, hashes, j) && Grouped(groups, hashes, i);
      TwoInSet(groups[hashes[i]], i, j);
      assert InLargeGroup(groups, hashes, i);
    }
  }
}
