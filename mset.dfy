// Multiset views.  Members sit in a vector with their cached hashes in
// indexHashMap; memberCounts counts how often each hash occurs (absent hashes
// count 0 and are never stored with count 0) and cachedHashTotal sums the
// mixed hashes.  As for sets, a member that changed in place leaves its
// cached hash stale until memberChanged is called.

module MultiSets {
  import opened Common
  import opened HashSums
  import opened FastIterableIntSets

  /** The count recorded for h (0 when absent). */
  function CountOf(counts: map<Hash, nat>, h: Hash): (r: nat) {
    if h in counts then counts[h] else 0
  }

  /** counts records exactly the multiplicities of hs, with no zero entries. */
  ghost predicate CountsOf(counts: map<Hash, nat>, hs: seq<Hash>) {
    (forall h :: CountOf(counts, h) == multiset(hs)[h])
    && (forall h :: h in counts ==> counts[h] > 0)
  }

  /** counts with one more occurrence of h. */
  function CountsAdd(counts: map<Hash, nat>, h: Hash): (r: map<Hash, nat>)
    ensures CountOf(r, h) == CountOf(counts, h) + 1
    ensures forall k :: k != h ==> CountOf(r, k) == CountOf(counts, k)
  {
    counts[h := CountOf(counts, h) + 1]
  }

  /** counts with one occurrence of h fewer; a count reaching 0 is erased. */
  function CountsRemove(counts: map<Hash, nat>, h: Hash): (r: map<Hash, nat>)
    requires h in counts && counts[h] > 0
    ensures CountOf(r, h) == CountOf(counts, h) - 1
    ensures forall k :: k != h ==> CountOf(r, k) == CountOf(counts, k)
    ensures h in r <==> counts[h] > 1
  {
    if counts[h] == 1 then counts - {h} else counts[h := counts[h] - 1]
  }

  /** Adding then removing a hash gives back the same counts. */
  lemma AddThenRemove(counts: map<Hash, nat>, h: Hash)
    requires forall k :: k in counts ==> counts[k] > 0
    ensures CountsRemove(CountsAdd(counts, h), h) == counts
  {
    var r := CountsRemove(CountsAdd(counts, h), h);
    assert forall k :: k in r <==> k in counts;
  }

  /** The counts of a sequence add up to its length. */
  lemma {:induction false} CountsSum(counts: map<Hash, nat>, hs: seq<Hash>)
    requires CountsOf(counts, hs)
    ensures MapSum(counts) == |hs|
    decreases |hs|
  {
    if |hs| == 0 {
      forall h ensures h !in counts {
        assert CountOf(counts, h) == multiset(hs)[h];
      }
      assert counts == map[];
    } else {
      var n := |hs|;
      var x := hs[n - 1];
      assert hs == hs[..n - 1] + [x];
      assert multiset(hs)[x] > 0;
      var rest := CountsRemove(counts, x);
      assert CountsOf(rest, hs[..n - 1]) by {
        forall h ensures CountOf(rest, h) == multiset(hs[..n - 1])[h] {
          assert multiset(hs) == multiset(hs[..n - 1]) + multiset{x};
        }
      }
      CountsSum(rest, hs[..n - 1]);
      MapSumUpdate(rest, x, counts[x]);
      if counts[x] == 1 {
        assert rest[x := counts[x]] == counts;
      } else {
        assert rest[x := counts[x]] == counts;
      }
    }
  }

  /** Counting one more hash h keeps the counts those of hs + [h]. */
  lemma CountsOfAdd(counts: map<Hash, nat>, hs: seq<Hash>, h: Hash)
    requires CountsOf(counts, hs)
    ensures CountsOf(CountsAdd(counts, h), hs + [h])
  {
    assert multiset(hs + [h]) == multiset(hs) + multiset{h};
  }

  /** The hash at position i is counted, and dropping it matches a swap-with-last removal. */
  lemma CountsOfRemove(counts: map<Hash, nat>, hs: seq<Hash>, i: nat)
    requires CountsOf(counts, hs) && i < |hs|
    ensures hs[i] in counts && counts[hs[i]] > 0
    ensures CountsOf(CountsRemove(counts, hs[i]), SwapRemove(hs, i))
  {
    assert multiset(hs)[hs[i]] > 0;
    assert CountOf(counts, hs[i]) > 0;
    SwapRemoveMultiset(hs, i);
  }

  /** Replacing the entry at position i trades one occurrence of the old entry for the new one. */
  lemma MultisetUpdate(hs: seq<Hash>, i: nat, h: Hash)
    requires i < |hs|
    ensures multiset(hs[i := h]) == multiset(hs) - multiset{hs[i]} + multiset{h}
  {
    SplitAt(hs, i);
    var t := hs[i := h];
    SplitAt(t, i);
    assert t[..i] == hs[..i] && t[i + 1..] == hs[i + 1..];
  }

  /** Replacing the hash at position i: one fewer of the old, one more of the new. */
  lemma CountsOfUpdate(counts: map<Hash, nat>, hs: seq<Hash>, i: nat, h: Hash)
    requires CountsOf(counts, hs) && i < |hs|
    ensures hs[i] in counts && counts[hs[i]] > 0
    ensures CountsOf(CountsAdd(CountsRemove(counts, hs[i]), h), hs[i := h])
  {
    assert multiset(hs)[hs[i]] > 0;
    assert CountOf(counts, hs[i]) > 0;
    MultisetUpdate(hs, i, h);
    var r := CountsAdd(CountsRemove(counts, hs[i]), h);
    forall k ensures CountOf(r, k) == multiset(hs[i := h])[k] {
      assert CountOf(counts, k) == multiset(hs)[k];
    }
  }

  class MSetView<M> {
    const hashOf: M -> Hash
    const mix: Hash -> int
    var members: seq<M>
    var indexHashMap: seq<Hash>
    var memberCounts: map<Hash, nat>
    var cachedHashTotal: int

    /** Counts and total agree with the cached hashes. */
    ghost predicate Counted()
      reads this
    {
      |members| == |indexHashMap|
      && CountsOf(memberCounts, indexHashMap)
      && cachedHashTotal == MixSum(mix, indexHashMap)
    }

    /** Counted, and every cached hash outside `stale` is its member's hash. */
    ghost predicate ValidExcept(stale: set<nat>)
      reads this
    {
      Counted()
      && forall i :: 0 <= i < |members| && i !in stale ==> indexHashMap[i] == hashOf(members[i])
    }

    ghost predicate Valid()
      reads this
    {
      ValidExcept({})
    }

    constructor (hashOf: M -> Hash, mix: Hash -> int)
      ensures Valid() && members == [] && memberCounts == map[] && cachedHashTotal == 0
      ensures this.hashOf == hashOf && this.mix == mix
    {
      this.hashOf := hashOf;
      this.mix := mix;
      members := [];
      indexHashMap := [];
      memberCounts := map[];
      cachedHashTotal := 0;
    }

    /** Records one more occurrence of hash. */
    method AddHash(hash: Hash)
      modifies this
      ensures memberCounts == CountsAdd(old(memberCounts), hash)
      ensures cachedHashTotal == old(cachedHashTotal) + mix(hash)
      ensures members == old(members) && indexHashMap == old(indexHashMap)
    {
      memberCounts := memberCounts[hash := CountOf(memberCounts, hash) + 1];
      cachedHashTotal := cachedHashTotal + mix(hash);
    }

    /** Records one occurrence of hash fewer, erasing a count that reaches 0. */
    method RemoveHash(hash: Hash)
      requires hash in memberCounts && memberCounts[hash] > 0
      modifies this
      ensures memberCounts == CountsRemove(old(memberCounts), hash)
      ensures cachedHashTotal == old(cachedHashTotal) - mix(hash)
      ensures members == old(members) && indexHashMap == old(indexHashMap)
    {
      var count := memberCounts[hash] - 1;
      memberCounts := memberCounts[hash := count];
      if count == 0 {
        memberCounts := memberCounts - {hash};
      }
      cachedHashTotal := cachedHashTotal - mix(hash);
    }

    /** How many members have the given hash. */
    function MemberCount(hash: Hash): (c: nat)
      reads this
      requires Counted()
      ensures c == multiset(indexHashMap)[hash]
      ensures c == 0 <==> forall i :: 0 <= i < |indexHashMap| ==> indexHashMap[i] != hash
    {
      if hash in memberCounts then memberCounts[hash] else 0
    }

    /** The number of members, which is also the sum of the counts. */
    function NumberElements(): (n: nat)
      reads this
      requires Counted()
      ensures n == |members|
      ensures n == MapSum(memberCounts)
    {
      CountsSum(memberCounts, indexHashMap);
      |indexHashMap|
    }

    /** Appends a member and counts its hash. */
    method AddMember(m: M)
      requires Valid()
      modifies this
      ensures Valid()
      ensures members == old(members) + [m] && indexHashMap == old(indexHashMap) + [hashOf(m)]
      ensures memberCounts == CountsAdd(old(memberCounts), hashOf(m))
    {
      ghost var ms0, ihm0, c0, t0 := members, indexHashMap, memberCounts, cachedHashTotal;
      ValidAsValues();
      AppendedValues(ms0, ihm0, c0, t0, m);
      members := members + [m];
      var hash := hashOf(m);
      indexHashMap := indexHashMap + [hash];
      AddHash(hash);
      assert members == ms0 + [m] && indexHashMap == ihm0 + [hash];
      assert memberCounts == CountsAdd(c0, hash) && cachedHashTotal == t0 + mix(hash);
      ValidAsValues();
    }

    /** Valid, stated over the values of the fields. */
    ghost predicate ValidValues(ms: seq<M>, ihm: seq<Hash>, counts: map<Hash, nat>, total: int) {
      |ms| == |ihm| && CountsOf(counts, ihm) && total == MixSum(mix, ihm)
      && forall i :: 0 <= i < |ms| ==> ihm[i] == hashOf(ms[i])
    }

    lemma ValidAsValues()
      ensures Valid() <==> ValidValues(members, indexHashMap, memberCounts, cachedHashTotal)
    {
    }

    /** Appending m keeps the values valid. */
    lemma AppendedValues(ms: seq<M>, ihm: seq<Hash>, counts: map<Hash, nat>, total: int, m: M)
      requires ValidValues(ms, ihm, counts, total)
      ensures ValidValues(ms + [m], ihm + [hashOf(m)], CountsAdd(counts, hashOf(m)), total + mix(hashOf(m)))
    {
      CountsOfAdd(counts, ihm, hashOf(m));
      MixSumAppend(mix, ihm, hashOf(m));
    }

    /** Removes the member at index by moving the last member into its place. */
    method RemoveMember(index: nat) returns (removed: M)
      requires Valid() && index < |members|
      modifies this
      ensures Valid()
      ensures removed == old(members[index])
      ensures members == SwapRemove(old(members), index)
      ensures indexHashMap == SwapRemove(old(indexHashMap), index)
      ensures old(indexHashMap[index]) in old(memberCounts)
      ensures memberCounts == CountsRemove(old(memberCounts), old(indexHashMap[index]))
    {
      ghost var ms0, ihm0, c0, t0 := members, indexHashMap, memberCounts, cachedHashTotal;
      ValidAsValues();
      RemovedValues(ms0, ihm0, c0, t0, index);
      var hash := indexHashMap[index];
      indexHashMap := SwapRemove(indexHashMap, index);
      removed := members[index];
      members := SwapRemove(members, index);
      RemoveHash(hash);
      assert members == SwapRemove(ms0, index) && indexHashMap == SwapRemove(ihm0, index);
      assert memberCounts == CountsRemove(c0, hash) && cachedHashTotal == t0 - mix(hash);
      ValidAsValues();
    }

    /** Removing position i by a swap with the last keeps the values valid. */
    lemma RemovedValues(ms: seq<M>, ihm: seq<Hash>, counts: map<Hash, nat>, total: int, i: nat)
      requires ValidValues(ms, ihm, counts, total) && i < |ms|
      ensures ihm[i] in counts && counts[ihm[i]] > 0
      ensures ValidValues(SwapRemove(ms, i), SwapRemove(ihm, i), CountsRemove(counts, ihm[i]), total - mix(ihm[i]))
    {
      CountsOfRemove(counts, ihm, i);
      MixSumSwapRemove(mix, ihm, i);
      var ms', ihm' := SwapRemove(ms, i), SwapRemove(ihm, i);
      forall j | 0 <= j < |ms'| ensures ihm'[j] == hashOf(ms'[j]) {
        if j == i {
          assert ms'[j] == ms[|ms| - 1] && ihm'[j] == ihm[|ihm| - 1];
        } else {
          assert ms'[j] == ms[j] && ihm'[j] == ihm[j];
        }
      }
    }

    /** Re-reads the hash of the member at index after it changed in place;
        the cached hashes still stale are those of `stale` other than index. */
    method MemberChanged(index: nat, ghost stale: set<nat>)
      requires index < |members| && ValidExcept(stale)
      modifies this
      ensures ValidExcept(stale - {index}) && members == old(members)
      ensures indexHashMap == old(indexHashMap)[index := hashOf(members[index])]
      ensures hashOf(members[index]) == old(indexHashMap[index]) ==>
                memberCounts == old(memberCounts) && cachedHashTotal == old(cachedHashTotal)
    {
      var oldHash := indexHashMap[index];
      var newHash := hashOf(members[index]);
      if oldHash == newHash {
        return;
      }
      ghost var ihm0 := indexHashMap;
      CountsOfUpdate(memberCounts, ihm0, index, newHash);
      MixSumUpdate(mix, ihm0, index, newHash);
      indexHashMap := indexHashMap[index := newHash];
      RemoveHash(oldHash);
      AddHash(newHash);
    }

    /** Re-reads the hashes of all members at indices, one by one. */
    method MembersChanged(indices: seq<nat>)
      requires forall j :: 0 <= j < |indices| ==> indices[j] < |members|
      requires ValidExcept(Elems(indices))
      modifies this
      ensures indexHashMap == Hashes(hashOf, members)
      ensures Valid() && members == old(members)
    {
      var k := 0;
      while k < |indices|
        invariant 0 <= k <= |indices|
        invariant members == old(members)
        invariant ValidExcept(Elems(indices[k..]))
      {
        MemberChanged(indices[k], Elems(indices[k..]));
        assert Elems(indices[k..]) - {indices[k]} <= Elems(indices[k + 1..]) by {
          assert indices[k..] == [indices[k]] + indices[k + 1..];
        }
        k := k + 1;
      }
    }

    /** Empties the multiset. */
    method SilentClear()
      modifies this
      ensures Valid() && members == [] && indexHashMap == []
      ensures memberCounts == map[] && cachedHashTotal == 0
    {
      members := [];
      indexHashMap := [];
      memberCounts := map[];
      cachedHashTotal := 0;
    }
  }
}
