// Explicitly stored preimages of a function value, and the cache of range
// hashes.  The preimage container keeps the preimages, their hashes and a
// hash -> position map; removal swaps the entry with the last one first.

module FunctionPreimages {
  import opened Common
  import opened HashSums

  /** Position h is recorded at holds hash h. */
  ghost predicate PointsBack(hs: seq<Hash>, m: map<Hash, nat>, h: Hash)
    requires h in m
  {
    m[h] < |hs| && hs[m[h]] == h
  }

  /** m maps every hash of hs to its position, and nothing else. */
  ghost predicate HashIndexed(hs: seq<Hash>, m: map<Hash, nat>) {
    (forall i :: 0 <= i < |hs| ==> hs[i] in m && m[hs[i]] == i)
    && (forall h :: h in m ==> PointsBack(hs, m, h))
  }

  /** Appending a fresh hash and recording its position keeps the map exact. */
  lemma AppendIndexed(hs: seq<Hash>, m: map<Hash, nat>, h: Hash)
    requires HashIndexed(hs, m) && h !in m
    ensures HashIndexed(hs + [h], m[h := |hs|])
  {
    var hs2, m2 := hs + [h], m[h := |hs|];
    forall k | k in m2 ensures PointsBack(hs2, m2, k) {
      if k != h {
        assert PointsBack(hs, m, k);
      }
    }
  }

  /** Swapping two positions and their recorded positions keeps the map exact. */
  lemma SwapIndexed(hs: seq<Hash>, m: map<Hash, nat>, i: nat, j: nat)
    requires HashIndexed(hs, m) && i < |hs| && j < |hs|
    ensures HashIndexed(hs[i := hs[j]][j := hs[i]], m[hs[i] := j][hs[j] := i])
  {
    var hs2, m2 := hs[i := hs[j]][j := hs[i]], m[hs[i] := j][hs[j] := i];
    forall k | 0 <= k < |hs2| ensures hs2[k] in m2 && m2[hs2[k]] == k {
      if k != i && k != j {
        assert hs2[k] == hs[k];
        assert hs[k] != hs[i] && hs[k] != hs[j];
      }
    }
    forall k | k in m2 ensures PointsBack(hs2, m2, k) {
      if k != hs[i] && k != hs[j] {
        assert PointsBack(hs, m, k);
      }
    }
  }

  /** Swap-with-last removal with the map re-pointed at the moved hash. */
  lemma SwapRemoveIndexed(hs: seq<Hash>, m: map<Hash, nat>, i: nat)
    requires HashIndexed(hs, m) && i < |hs|
    ensures var r := SwapRemove(hs, i);
            HashIndexed(r, if i < |r| then (m - {hs[i]})[r[i] := i] else m - {hs[i]})
  {
    var r := SwapRemove(hs, i);
    var m2 := if i < |r| then (m - {hs[i]})[r[i] := i] else m - {hs[i]};
    forall k | 0 <= k < |r| ensures r[k] in m2 && m2[r[k]] == k {
      if k != i {
        assert r[k] == hs[k];
        assert m[hs[k]] == k;
      }
    }
    forall h | h in m2 ensures PointsBack(r, m2, h) {
      if i < |r| && h == r[i] {
      } else {
        assert PointsBack(hs, m, h);
      }
    }
  }

  /** Re-keying position i to a fresh hash keeps the map exact. */
  lemma ChangeIndexed(hs: seq<Hash>, m: map<Hash, nat>, i: nat, h: Hash)
    requires HashIndexed(hs, m) && i < |hs| && (h == hs[i] || h !in m)
    ensures HashIndexed(hs[i := h], (m - {hs[i]})[h := i])
  {
    var hs2, m2 := hs[i := h], (m - {hs[i]})[h := i];
    forall k | 0 <= k < |hs2| ensures hs2[k] in m2 && m2[hs2[k]] == k {
      if k != i {
        assert m[hs[k]] == k;
      }
    }
    forall k | k in m2 ensures PointsBack(hs2, m2, k) {
      if k != h {
        assert PointsBack(hs, m, k);
      }
    }
  }

  class ExplicitPreimageContainer<P> {
    const hashOf: P -> Hash
    var preimages: seq<P>
    var preimageHashes: seq<Hash>
    var preimageHashIndexMap: map<Hash, nat>

    /**
     * One hash per preimage, and the map sends each hash to its position.
     * Whether the stored hash is still the preimage's own is the caller's
     * business: `Change` is called after the preimage changed in place.
     */
    ghost predicate Valid()
      reads this
    {
      |preimages| == |preimageHashes| && HashIndexed(preimageHashes, preimageHashIndexMap)
    }

    constructor (hashOf: P -> Hash)
      ensures Valid() && preimages == [] && preimageHashIndexMap == map[]
      ensures this.hashOf == hashOf
    {
      this.hashOf := hashOf;
      preimages := [];
      preimageHashes := [];
      preimageHashIndexMap := map[];
    }

    /** Appends p unless a preimage with its hash is already stored. */
    method Add(p: P) returns (added: bool)
      requires Valid()
      modifies this
      ensures Valid()
      ensures added <==> hashOf(p) !in old(preimageHashIndexMap)
      ensures !added ==> preimages == old(preimages) && preimageHashes == old(preimageHashes)
                         && preimageHashIndexMap == old(preimageHashIndexMap)
      ensures added ==> preimages == old(preimages) + [p]
                        && preimageHashes == old(preimageHashes) + [hashOf(p)]
                        && preimageHashIndexMap == old(preimageHashIndexMap)[hashOf(p) := |preimages| - 1]
    {
      var hash := hashOf(p);
      if hash in preimageHashIndexMap {
        return false;
      }
      AppendIndexed(preimageHashes, preimageHashIndexMap, hash);
      preimages := preimages + [p];
      preimageHashes := preimageHashes + [hash];
      preimageHashIndexMap := preimageHashIndexMap[hash := |preimageHashes| - 1];
      added := true;
    }

    /** Removes the preimage at index, moving the last one into its place. */
    method Remove(index: nat) returns (removed: P)
      requires Valid() && index < |preimages|
      modifies this
      ensures Valid()
      ensures removed == old(preimages[index])
      ensures preimages == SwapRemove(old(preimages), index)
      ensures preimageHashes == SwapRemove(old(preimageHashes), index)
      ensures old(preimageHashes[index]) !in preimageHashIndexMap
      ensures preimageHashIndexMap.Keys == old(preimageHashIndexMap.Keys) - {old(preimageHashes[index])}
    {
      ghost var hs0, m0 := preimageHashes, preimageHashIndexMap;
      SwapRemoveIndexed(hs0, m0, index);
      var last := |preimages| - 1;
      if index < last {
        var h1, h2 := preimageHashes[index], preimageHashes[last];
        preimages := preimages[index := preimages[last]][last := preimages[index]];
        preimageHashes := preimageHashes[index := h2][last := h1];
        preimageHashIndexMap := preimageHashIndexMap[h2 := index][h1 := last];
      }
      var hash := preimageHashes[last];
      removed := preimages[last];
      preimageHashes := preimageHashes[..last];
      preimages := preimages[..last];
      preimageHashIndexMap := preimageHashIndexMap - {hash};
      if index < last {
        assert preimageHashIndexMap == (m0 - {hs0[index]})[hs0[last] := index];
      }
    }

    /** Exchanges the preimages at index1 and index2. */
    method Swap(index1: nat, index2: nat)
      requires Valid() && index1 < |preimages| && index2 < |preimages|
      modifies this
      ensures Valid()
      ensures preimages == old(preimages[index1 := preimages[index2]][index2 := preimages[index1]])
      ensures preimageHashes == old(preimageHashes[index1 := preimageHashes[index2]][index2 := preimageHashes[index1]])
      ensures preimageHashIndexMap.Keys == old(preimageHashIndexMap.Keys)
    {
      var h1, h2 := preimageHashes[index1], preimageHashes[index2];
      SwapIndexed(preimageHashes, preimageHashIndexMap, index1, index2);
      preimages := preimages[index1 := preimages[index2]][index2 := preimages[index1]];
      preimageHashes := preimageHashes[index1 := h2][index2 := h1];
      preimageHashIndexMap := preimageHashIndexMap[h1 := index2][h2 := index1];
    }

    /** Re-keys position index to newHash after its preimage changed in place. */
    method Change(index: nat, newHash: Hash)
      requires Valid() && index < |preimages|
      requires newHash == preimageHashes[index] || newHash !in preimageHashIndexMap
      modifies this
      ensures Valid() && preimages == old(preimages)
      ensures preimageHashes == old(preimageHashes)[index := newHash]
      ensures preimageHashIndexMap == (old(preimageHashIndexMap) - {old(preimageHashes[index])})[newHash := index]
    {
      ChangeIndexed(preimageHashes, preimageHashIndexMap, index, newHash);
      preimageHashIndexMap := preimageHashIndexMap - {preimageHashes[index]};
      preimageHashes := preimageHashes[index := newHash];
      preimageHashIndexMap := preimageHashIndexMap[newHash := index];
    }
  }

  /** The hash -> position map of a valid container is determined by its hashes. */
  lemma IndexedUnique(hs: seq<Hash>, m1: map<Hash, nat>, m2: map<Hash, nat>)
    requires HashIndexed(hs, m1) && HashIndexed(hs, m2)
    ensures m1 == m2
  {
    forall h | h in m1 ensures h in m2 && m2[h] == m1[h] {
      assert PointsBack(hs, m1, h);
    }
    forall h | h in m2 ensures h in m1 {
      assert PointsBack(hs, m2, h);
    }
  }

  /** Swapping the same two positions twice restores the hashes. */
  lemma SwapTwice<T>(s: seq<T>, i: nat, j: nat)
    requires i < |s| && j < |s|
    ensures var t := s[i := s[j]][j := s[i]];
            t[i := t[j]][j := t[i]] == s
  {
  }

  class CachedHashes {
    var hashTotal: Hash
    var rangeHashes: seq<Hash>

    constructor ()
      ensures hashTotal == 0 && rangeHashes == []
    {
      hashTotal := 0;
      rangeHashes := [];
    }

    method AssignRangeHash(index: nat, newHash: Hash)
      requires index < |rangeHashes|
      modifies this
      ensures rangeHashes == old(rangeHashes)[index := newHash] && hashTotal == old(hashTotal)
    {
      rangeHashes := rangeHashes[index := newHash];
    }

    method SwapRangeHashes(index1: nat, index2: nat)
      requires index1 < |rangeHashes| && index2 < |rangeHashes|
      modifies this
      ensures rangeHashes == old(rangeHashes[index1 := rangeHashes[index2]][index2 := rangeHashes[index1]])
      ensures multiset(rangeHashes) == multiset(old(rangeHashes))
      ensures hashTotal == old(hashTotal)
    {
      rangeHashes := rangeHashes[index1 := rangeHashes[index2]][index2 := rangeHashes[index1]];
    }

    method AddNewHash(hash: Hash)
      modifies this
      ensures rangeHashes == old(rangeHashes) + [hash] && hashTotal == old(hashTotal)
    {
      rangeHashes := rangeHashes + [hash];
    }

    /** Removes the hash at index, moving the last hash into its place. */
    method RemoveHash(index: nat) returns (removedHash: Hash)
      requires index < |rangeHashes|
      modifies this
      ensures removedHash == old(rangeHashes[index])
      ensures rangeHashes == SwapRemove(old(rangeHashes), index)
      ensures multiset(rangeHashes) + multiset{removedHash} == multiset(old(rangeHashes))
      ensures hashTotal == old(hashTotal)
    {
      removedHash := rangeHashes[index];
      SwapRemoveMultiset(rangeHashes, index);
      var last := |rangeHashes| - 1;
      rangeHashes := rangeHashes[index := rangeHashes[last]];
      rangeHashes := rangeHashes[..last];
    }
  }
}
