// Set views and values.  A set keeps its members in a vector; each member's
// hash is cached in indexHashMap (position -> hash) and hashIndexMap (hash ->
// position), and cachedHashTotal is the sum of the mixed member hashes, so
// that the set as a whole has a hash independent of member order.
//
// Members are values of a type M with an opaque hash function `hashOf`.  A
// member that changed in place (through its own reference) makes the cached
// hash at its position stale until memberChanged/membersChanged is called;
// `ValidExcept(stale)` describes that intermediate state.

module Sets {
  import opened Common
  import opened SizeAttrs
  import opened HashSums
  import opened FastIterableIntSets

  /** The hashes hs[idx[0]], ..., hs[idx[k-1]]. */
  ghost function HashesAt(hs: seq<Hash>, idx: seq<nat>, k: nat): (r: set<Hash>)
    requires k <= |idx| && forall j :: 0 <= j < |idx| ==> idx[j] < |hs|
  {
    set j | 0 <= j < k :: hs[idx[j]]
  }

  lemma HashesAtStep(hs: seq<Hash>, idx: seq<nat>, k: nat)
    requires k < |idx| && forall j :: 0 <= j < |idx| ==> idx[j] < |hs|
    ensures HashesAt(hs, idx, k + 1) == HashesAt(hs, idx, k) + {hs[idx[k]]}
  {
  }

  /** mix(hs[idx[0]]) + ... + mix(hs[idx[k-1]]). */
  function SumAt(mix: Hash -> int, hs: seq<Hash>, idx: seq<nat>, k: nat): (r: int)
    requires k <= |idx| && forall j :: 0 <= j < |idx| ==> idx[j] < |hs|
  {
    if k == 0 then 0 else SumAt(mix, hs, idx, k - 1) + mix(hs[idx[k - 1]])
  }


  /** m is base with hs[idx[j]] mapped to idx[j] for every j < k. */
  ghost predicate InsertedUpTo(m: map<Hash, nat>, base: map<Hash, nat>, hs: seq<Hash>, idx: seq<nat>, k: nat)
    requires k <= |idx| && forall j :: 0 <= j < |idx| ==> idx[j] < |hs|
  {
    (forall h :: h in m <==> h in base || h in HashesAt(hs, idx, k))
    && (forall h :: h in base ==> m[h] == base[h])
    && (forall j :: 0 <= j < k ==> hs[idx[j]] in m && m[hs[idx[j]]] == idx[j])
  }

  /** A sequence of positions without repeats. */
  ghost predicate DistinctIndices(idx: seq<nat>) {
    forall j, j' :: 0 <= j < j' < |idx| ==> idx[j] != idx[j']
  }

  /** One more insertion of a key that is new extends InsertedUpTo by one. */
  lemma InsertedStep(m: map<Hash, nat>, base: map<Hash, nat>, hs: seq<Hash>, idx: seq<nat>, k: nat)
    requires k < |idx| && forall j :: 0 <= j < |idx| ==> idx[j] < |hs|
    requires InsertedUpTo(m, base, hs, idx, k)
    requires hs[idx[k]] !in base
    requires forall j :: 0 <= j < k ==> hs[idx[j]] != hs[idx[k]]
    ensures InsertedUpTo(m[hs[idx[k]] := idx[k]], base, hs, idx, k + 1)
  {
    HashesAtStep(hs, idx, k);
    var m' := m[hs[idx[k]] := idx[k]];
    forall h | h in base ensures m'[h] == base[h] {
      assert h != hs[idx[k]];
    }
  }

  /** base with hs[idx[j]] mapped to idx[j], for j = 0 .. k-1 in turn. */
  ghost function Inserted(base: map<Hash, nat>, hs: seq<Hash>, idx: seq<nat>, k: nat): (r: map<Hash, nat>)
    requires k <= |idx| && forall j :: 0 <= j < |idx| ==> idx[j] < |hs|
  {
    if k == 0 then base else Inserted(base, hs, idx, k - 1)[hs[idx[k - 1]] := idx[k - 1]]
  }

  /** hs with position idx[j] overwritten by ns[idx[j]], for j = 0 .. k-1 in turn. */
  ghost function UpdatedAt(hs: seq<Hash>, ns: seq<Hash>, idx: seq<nat>, k: nat): (r: seq<Hash>)
    requires |hs| == |ns| && k <= |idx| && forall j :: 0 <= j < |idx| ==> idx[j] < |hs|
    ensures |r| == |hs|
  {
    if k == 0 then hs else UpdatedAt(hs, ns, idx, k - 1)[idx[k - 1] := ns[idx[k - 1]]]
  }

  /** Inserting fresh, pairwise different keys one by one gives InsertedUpTo. */
  lemma {:induction false} InsertedFacts(base: map<Hash, nat>, hs: seq<Hash>, idx: seq<nat>, k: nat)
    requires k <= |idx| && forall j :: 0 <= j < |idx| ==> idx[j] < |hs|
    requires forall j :: 0 <= j < |idx| ==> hs[idx[j]] !in base
    requires forall j, j' :: 0 <= j < j' < |idx| ==> hs[idx[j]] != hs[idx[j']]
    ensures InsertedUpTo(Inserted(base, hs, idx, k), base, hs, idx, k)
  {
    if k > 0 {
      InsertedFacts(base, hs, idx, k - 1);
      InsertedStep(Inserted(base, hs, idx, k - 1), base, hs, idx, k - 1);
    }
  }

  /** UpdatedAt has overwritten exactly the first k listed positions. */
  lemma {:induction false} UpdatedAtFacts(hs: seq<Hash>, ns: seq<Hash>, idx: seq<nat>, k: nat)
    requires |hs| == |ns| && k <= |idx| && forall j :: 0 <= j < |idx| ==> idx[j] < |hs|
    requires DistinctIndices(idx)
    ensures forall j :: 0 <= j < k ==> UpdatedAt(hs, ns, idx, k)[idx[j]] == ns[idx[j]]
    ensures forall j :: k <= j < |idx| ==> UpdatedAt(hs, ns, idx, k)[idx[j]] == hs[idx[j]]
    ensures forall i :: 0 <= i < |hs| && i !in idx ==> UpdatedAt(hs, ns, idx, k)[i] == hs[i]
  {
    if k > 0 {
      UpdatedAtFacts(hs, ns, idx, k - 1);
    }
  }

  /** The mixed total of UpdatedAt trades the old mixes for the new ones. */
  lemma {:induction false} UpdatedAtSum(mix: Hash -> int, hs: seq<Hash>, ns: seq<Hash>, idx: seq<nat>, k: nat)
    requires |hs| == |ns| && k <= |idx| && forall j :: 0 <= j < |idx| ==> idx[j] < |hs|
    requires DistinctIndices(idx)
    ensures MixSum(mix, UpdatedAt(hs, ns, idx, k))
            == MixSum(mix, hs) - SumAt(mix, hs, idx, k) + SumAt(mix, ns, idx, k)
  {
    if k > 0 {
      UpdatedAtSum(mix, hs, ns, idx, k - 1);
      UpdatedAtFacts(hs, ns, idx, k - 1);
      MixSumUpdate(mix, UpdatedAt(hs, ns, idx, k - 1), idx[k - 1], ns[idx[k - 1]]);
    }
  }

  /** Overwriting the listed positions of O with those of Nw gives Nw when the two agree elsewhere. */
  lemma {:induction false} ChangedSeq(O: seq<Hash>, Nw: seq<Hash>, indices: seq<nat>)
    requires |O| == |Nw| && DistinctIndices(indices)
    requires forall j :: 0 <= j < |indices| ==> indices[j] < |O|
    requires forall i :: 0 <= i < |O| && i !in indices ==> O[i] == Nw[i]
    ensures UpdatedAt(O, Nw, indices, |indices|) == Nw
  {
    UpdatedAtFacts(O, Nw, indices, |indices|);
    var r := UpdatedAt(O, Nw, indices, |indices|);
    forall i | 0 <= i < |O| ensures r[i] == Nw[i] {
      if i in indices {
        var j :| 0 <= j < |indices| && indices[j] == i;
      }
    }
  }

  /** The total after the update is the mixed sum of the new hashes. */
  lemma {:induction false} ChangedTotal(mix: Hash -> int, O: seq<Hash>, Nw: seq<Hash>, indices: seq<nat>)
    requires |O| == |Nw| && DistinctIndices(indices)
    requires forall j :: 0 <= j < |indices| ==> indices[j] < |O|
    requires forall i :: 0 <= i < |O| && i !in indices ==> O[i] == Nw[i]
    ensures UpdatedAt(O, Nw, indices, |indices|) == Nw
    ensures MixSum(mix, O) - SumAt(mix, O, indices, |indices|) + SumAt(mix, Nw, indices, |indices|) == MixSum(mix, Nw)
  {
    UpdatedAtSum(mix, O, Nw, indices, |indices|);
    ChangedSeq(O, Nw, indices);
  }

  /** A new hash is not among the kept old ones (old hashes minus the changed ones). */
  lemma FreshNotInBase(O: seq<Hash>, M0: map<Hash, nat>, Nw: seq<Hash>, indices: seq<nat>)
    requires |O| == |Nw|
    requires forall j :: 0 <= j < |indices| ==> indices[j] < |O|
    requires forall h :: h in M0 ==> M0[h] < |O| && O[M0[h]] == h
    requires forall j, i :: 0 <= j < |indices| && 0 <= i < |O| && i !in indices ==> Nw[indices[j]] != O[i]
    ensures forall j :: 0 <= j < |indices| ==> Nw[indices[j]] !in M0 - HashesAt(O, indices, |indices|)
  {
    forall j | 0 <= j < |indices|
      ensures Nw[indices[j]] !in M0 - HashesAt(O, indices, |indices|)
    {
      var h := Nw[indices[j]];
      if h in M0 {
        var p := M0[h];
        if p in indices {
          var j' :| 0 <= j' < |indices| && indices[j'] == p;
          assert O[indices[j']] in HashesAt(O, indices, |indices|);
        }
      }
    }
  }

  /**
   * The map after removing position i, re-adding its hash at the end and
   * swapping the values of the two keys involved is the original map.
   */
  lemma RemoveUndoMap(ihm0: seq<Hash>, him0: map<Hash, nat>, him1: map<Hash, nat>, i: nat)
    requires i < |ihm0|
    requires forall j :: 0 <= j < |ihm0| ==> ihm0[j] in him0 && him0[ihm0[j]] == j
    requires forall h :: h in him0 ==> him0[h] < |ihm0| && ihm0[him0[h]] == h
    requires him1 == if i < |ihm0| - 1
                     then (him0 - {ihm0[i]})[ihm0[|ihm0| - 1] := i]
                     else him0 - {ihm0[i]}
    ensures var last := |ihm0| - 1;
            var m := him1[ihm0[i] := last];
            var a, b := ihm0[i], ihm0[last];
            m[a := m[b]][b := m[a]] == him0
  {
    var last := |ihm0| - 1;
    var m := him1[ihm0[i] := last];
    var a, b := ihm0[i], ihm0[last];
    var r := m[a := m[b]][b := m[a]];
    forall h ensures h in r <==> h in him0 {
    }
    forall h | h in r ensures r[h] == him0[h] {
      if h != a && h != b {
        assert him0[h] != i && him0[h] != last;
      }
    }
  }

  /**
   * Dropping the new hashes and re-inserting the old ones, as a rejected
   * membersChanged is undone, gives back the original maps.
   */
  lemma RestoredMaps(O: seq<Hash>, M0: map<Hash, nat>, Nw: seq<Hash>, M1: map<Hash, nat>, indices: seq<nat>)
    requires |O| == |Nw| && DistinctIndices(indices)
    requires forall j :: 0 <= j < |indices| ==> indices[j] < |O|
    requires forall i :: 0 <= i < |O| ==> O[i] in M0 && M0[O[i]] == i
    requires forall h :: h in M0 ==> M0[h] < |O| && O[M0[h]] == h
    requires forall i :: 0 <= i < |Nw| ==> Nw[i] in M1 && M1[Nw[i]] == i
    requires forall h :: h in M1 ==> M1[h] < |Nw| && Nw[M1[h]] == h
    requires forall i :: 0 <= i < |O| && i !in indices ==> O[i] == Nw[i]
    requires forall j, i :: 0 <= j < |indices| && 0 <= i < |O| && i !in indices ==> Nw[indices[j]] != O[i]
    ensures Inserted(M1 - HashesAt(Nw, indices, |indices|), O, indices, |indices|) == M0
    ensures UpdatedAt(Nw, O, indices, |indices|) == O
  {
    var base := M1 - HashesAt(Nw, indices, |indices|);
    RestoredFresh(O, M0, Nw, M1, indices);
    InsertedFacts(base, O, indices, |indices|);
    RestoredKeys(O, M0, Nw, M1, indices, Inserted(base, O, indices, |indices|));
    RestoredSeq(O, Nw, indices);
  }

  /** Writing the old hashes back over the new ones gives the old sequence. */
  lemma RestoredSeq(O: seq<Hash>, Nw: seq<Hash>, indices: seq<nat>)
    requires |O| == |Nw| && DistinctIndices(indices)
    requires forall j :: 0 <= j < |indices| ==> indices[j] < |O|
    requires forall i :: 0 <= i < |O| && i !in indices ==> O[i] == Nw[i]
    ensures UpdatedAt(Nw, O, indices, |indices|) == O
  {
    UpdatedAtFacts(Nw, O, indices, |indices|);
    var u := UpdatedAt(Nw, O, indices, |indices|);
    forall i | 0 <= i < |O| ensures u[i] == O[i] {
      if i in indices {
        var j :| 0 <= j < |indices| && indices[j] == i;
      }
    }
  }

  /** The old hashes to re-insert are pairwise different and absent from the kept map. */
  lemma RestoredFresh(O: seq<Hash>, M0: map<Hash, nat>, Nw: seq<Hash>, M1: map<Hash, nat>, indices: seq<nat>)
    requires |O| == |Nw| && DistinctIndices(indices)
    requires forall j :: 0 <= j < |indices| ==> indices[j] < |O|
    requires forall i :: 0 <= i < |O| ==> O[i] in M0 && M0[O[i]] == i
    requires forall h :: h in M0 ==> M0[h] < |O| && O[M0[h]] == h
    requires forall i :: 0 <= i < |Nw| ==> Nw[i] in M1 && M1[Nw[i]] == i
    requires forall h :: h in M1 ==> M1[h] < |Nw| && Nw[M1[h]] == h
    requires forall i :: 0 <= i < |O| && i !in indices ==> O[i] == Nw[i]
    requires forall j, i :: 0 <= j < |indices| && 0 <= i < |O| && i !in indices ==> Nw[indices[j]] != O[i]
    ensures forall j :: 0 <= j < |indices| ==> O[indices[j]] !in M1 - HashesAt(Nw, indices, |indices|)
    ensures forall j, j' :: 0 <= j < j' < |indices| ==> O[indices[j]] != O[indices[j']]
  {
    var base := M1 - HashesAt(Nw, indices, |indices|);
    forall j | 0 <= j < |indices| ensures O[indices[j]] !in base {
      var h := O[indices[j]];
      if h in M1 {
        var p := M1[h];
        if p in indices {
          var j' :| 0 <= j' < |indices| && indices[j'] == p;
          assert Nw[indices[j']] in HashesAt(Nw, indices, |indices|);
        }
      }
    }
    forall j, j' | 0 <= j < j' < |indices| ensures O[indices[j]] != O[indices[j']] {
      assert M0[O[indices[j]]] == indices[j];
    }
  }

  /** The re-built map has the keys and values of the original one. */
  lemma RestoredKeys(O: seq<Hash>, M0: map<Hash, nat>, Nw: seq<Hash>, M1: map<Hash, nat>, indices: seq<nat>,
                     r: map<Hash, nat>)
    requires |O| == |Nw| && DistinctIndices(indices)
    requires forall j :: 0 <= j < |indices| ==> indices[j] < |O|
    requires forall i :: 0 <= i < |O| ==> O[i] in M0 && M0[O[i]] == i
    requires forall h :: h in M0 ==> M0[h] < |O| && O[M0[h]] == h
    requires forall i :: 0 <= i < |Nw| ==> Nw[i] in M1 && M1[Nw[i]] == i
    requires forall h :: h in M1 ==> M1[h] < |Nw| && Nw[M1[h]] == h
    requires forall i :: 0 <= i < |O| && i !in indices ==> O[i] == Nw[i]
    requires forall j, i :: 0 <= j < |indices| && 0 <= i < |O| && i !in indices ==> Nw[indices[j]] != O[i]
    requires InsertedUpTo(r, M1 - HashesAt(Nw, indices, |indices|), O, indices, |indices|)
    ensures r == M0
  {
    var base := M1 - HashesAt(Nw, indices, |indices|);
    forall h ensures h in r <==> h in M0 {
      if h in M0 {
        var p := M0[h];
        if p in indices {
          var j :| 0 <= j < |indices| && indices[j] == p;
          assert O[indices[j]] in HashesAt(O, indices, |indices|);
        } else {
          assert Nw[p] == h;
          assert h in M1;
        }
      }
    }
    forall h | h in r ensures r[h] == M0[h] {
      if h in base {
        assert O[M1[h]] == h;
      } else {
        var j :| 0 <= j < |indices| && O[indices[j]] == h;
        assert M0[O[indices[j]]] == indices[j];
      }
    }
  }

  class SetView<M> {
    const hashOf: M -> Hash
    const mix: Hash -> int
    var members: seq<M>
    var indexHashMap: seq<Hash>
    var hashIndexMap: map<Hash, nat>
    var cachedHashTotal: int

    /** Hash h is recorded at a position whose cached hash is h. */
    ghost predicate HashPoints(h: Hash)
      reads this
      requires h in hashIndexMap
    {
      hashIndexMap[h] < |indexHashMap| && indexHashMap[hashIndexMap[h]] == h
    }

    /** The two maps are inverse bijections and the total is the sum of mixes. */
    ghost predicate Indexed()
      reads this
    {
      |members| == |indexHashMap|
      && (forall i :: 0 <= i < |indexHashMap| ==>
            indexHashMap[i] in hashIndexMap && hashIndexMap[indexHashMap[i]] == i)
      && (forall h :: h in hashIndexMap ==> HashPoints(h))
      && cachedHashTotal == MixSum(mix, indexHashMap)
    }

    /** Indexed, and every cached hash outside `stale` is its member's hash. */
    ghost predicate ValidExcept(stale: set<nat>)
      reads this
    {
      Indexed()
      && forall i :: 0 <= i < |members| && i !in stale ==> indexHashMap[i] == hashOf(members[i])
    }

    ghost predicate Valid()
      reads this
    {
      ValidExcept({})
    }

    /** Valid, stated over the values of the fields. */
    ghost predicate ValidValues(ms: seq<M>, ihm: seq<Hash>, him: map<Hash, nat>, total: int) {
      |ms| == |ihm|
      && (forall i :: 0 <= i < |ihm| ==> ihm[i] in him && him[ihm[i]] == i)
      && (forall h :: h in him ==> him[h] < |ihm| && ihm[him[h]] == h)
      && total == MixSum(mix, ihm)
      && forall i :: 0 <= i < |ms| ==> ihm[i] == hashOf(ms[i])
    }

    lemma ValidAsValues()
      ensures Valid() <==> ValidValues(members, indexHashMap, hashIndexMap, cachedHashTotal)
    {
    }

    constructor (hashOf: M -> Hash, mix: Hash -> int)
      ensures Valid() && members == [] && hashIndexMap == map[] && cachedHashTotal == 0
      ensures this.hashOf == hashOf && this.mix == mix
    {
      this.hashOf := hashOf;
      this.mix := mix;
      members := [];
      indexHashMap := [];
      hashIndexMap := map[];
      cachedHashTotal := 0;
    }

    /** The two maps have the same size. */
    lemma SizesAgree()
      requires Indexed()
      ensures |hashIndexMap| == |indexHashMap| == |members|
    {
      assert Distinct(indexHashMap) by {
        forall i, j | 0 <= i < j < |indexHashMap| ensures indexHashMap[i] != indexHashMap[j] {
          assert hashIndexMap[indexHashMap[i]] == i;
          assert hashIndexMap[indexHashMap[j]] == j;
        }
      }
      DistinctCardinality(indexHashMap);
      assert hashIndexMap.Keys == Elems(indexHashMap) by {
        forall h | h in hashIndexMap ensures h in Elems(indexHashMap) {
          assert HashPoints(h);
        }
      }
    }

    /** Whether a member with m's hash is in the set. */
    function ContainsMember(m: M): (r: bool)
      reads this
      requires Valid()
      ensures r <==> exists i :: 0 <= i < |members| && hashOf(members[i]) == hashOf(m)
    {
      var h := hashOf(m);
      if h in hashIndexMap then
        assert HashPoints(h);
        assert hashOf(members[hashIndexMap[h]]) == h;
        true
      else
        false
    }

    function NumberElements(): (n: nat)
      reads this
      requires Valid()
      ensures n == |members| == |hashIndexMap|
    {
      SizesAgree();
      |indexHashMap|
    }

    /** Appends m unless a member with its hash is present. */
    method AddMember(m: M) returns (added: bool)
      requires Valid()
      modifies this
      ensures Valid()
      ensures added == !old(ContainsMember(m))
      ensures added ==> members == old(members) + [m]
                        && indexHashMap == old(indexHashMap) + [hashOf(m)]
                        && hashIndexMap == old(hashIndexMap)[hashOf(m) := old(|members|)]
                        && cachedHashTotal == old(cachedHashTotal) + mix(hashOf(m))
      ensures !added ==> members == old(members) && indexHashMap == old(indexHashMap)
                         && hashIndexMap == old(hashIndexMap) && cachedHashTotal == old(cachedHashTotal)
    {
      var h := hashOf(m);
      if h in hashIndexMap {
        return false;
      }
      ghost var ihm0, him0 := indexHashMap, hashIndexMap;
      members := members + [m];
      indexHashMap := indexHashMap + [h];
      hashIndexMap := hashIndexMap[h := |indexHashMap| - 1];
      MixSumAppend(mix, ihm0, h);
      cachedHashTotal := cachedHashTotal + mix(h);
      forall k | k in hashIndexMap ensures HashPoints(k) {
        if k != h {
          assert k in him0 && him0[k] < |ihm0| && ihm0[him0[k]] == k;
        }
      }
      return true;
    }

    /**
     * Removes the member at index, moving the last member into its place;
     * returns the removed member.
     */
    method RemoveMember(index: nat) returns (removed: M)
      requires Valid() && index < |members|
      modifies this
      ensures Valid()
      ensures removed == old(members[index])
      ensures members == SwapRemove(old(members), index)
      ensures indexHashMap == SwapRemove(old(indexHashMap), index)
      ensures hashIndexMap == if index < |indexHashMap|
                              then (old(hashIndexMap) - {old(indexHashMap[index])})[indexHashMap[index] := index]
                              else old(hashIndexMap) - {old(indexHashMap[index])}
      ensures cachedHashTotal == old(cachedHashTotal) - mix(old(indexHashMap[index]))
    {
      var h := indexHashMap[index];
      ghost var ihm0, him0 := indexHashMap, hashIndexMap;
      hashIndexMap := hashIndexMap - {h};
      MixSumSwapRemove(mix, indexHashMap, index);
      cachedHashTotal := cachedHashTotal - mix(h);
      removed := members[index];
      var n := |members|;
      members := SwapRemove(members, index);
      indexHashMap := SwapRemove(indexHashMap, index);
      if index < |indexHashMap| {
        hashIndexMap := hashIndexMap[indexHashMap[index] := index];
      }
      RemoveIndexed(ihm0, him0, index);
    }

    /** The maps after RemoveMember's updates still index each other. */
    lemma RemoveIndexed(ihm0: seq<Hash>, him0: map<Hash, nat>, index: nat)
      requires index < |ihm0|
      requires forall i :: 0 <= i < |ihm0| ==> ihm0[i] in him0 && him0[ihm0[i]] == i
      requires forall h :: h in him0 ==> him0[h] < |ihm0| && ihm0[him0[h]] == h
      requires indexHashMap == SwapRemove(ihm0, index)
      requires hashIndexMap == if index < |indexHashMap|
                               then (him0 - {ihm0[index]})[indexHashMap[index] := index]
                               else him0 - {ihm0[index]}
      ensures forall i :: 0 <= i < |indexHashMap| ==>
                indexHashMap[i] in hashIndexMap && hashIndexMap[indexHashMap[i]] == i
      ensures forall h :: h in hashIndexMap ==> HashPoints(h)
    {
      var n := |ihm0|;
      forall i | 0 <= i < |indexHashMap|
        ensures indexHashMap[i] in hashIndexMap && hashIndexMap[indexHashMap[i]] == i
      {
        if i != index {
          assert indexHashMap[i] == ihm0[i];
          assert him0[ihm0[i]] == i;
        }
      }
      forall h | h in hashIndexMap ensures HashPoints(h) {
        if index < |indexHashMap| && h == indexHashMap[index] {
        } else {
          assert h in him0 && h != ihm0[index];
          var p := him0[h];
          assert ihm0[p] == h;
          assert p != index;
        }
      }
    }

    /**
     * Re-reads the hash of the member at index after it changed in place;
     * an unchanged hash leaves the set as it was.
     */
    method MemberChanged(index: nat) returns (newHash: Hash)
      requires index < |members| && ValidExcept({index})
      requires hashOf(members[index]) == indexHashMap[index] || hashOf(members[index]) !in hashIndexMap
      modifies this
      ensures Valid()
      ensures members == old(members) && newHash == hashOf(members[index])
      ensures indexHashMap == old(indexHashMap)[index := newHash]
      ensures hashIndexMap == (old(hashIndexMap) - {old(indexHashMap[index])})[newHash := index]
      ensures cachedHashTotal == old(cachedHashTotal) - mix(old(indexHashMap[index])) + mix(newHash)
      ensures newHash == old(indexHashMap[index]) ==>
                indexHashMap == old(indexHashMap) && hashIndexMap == old(hashIndexMap)
                && cachedHashTotal == old(cachedHashTotal)
    {
      var oldHash := indexHashMap[index];
      newHash := hashOf(members[index]);
      if newHash != oldHash {
        ChangeHash(index, newHash);
      } else {
        assert (hashIndexMap - {oldHash})[newHash := index] == hashIndexMap;
      }
    }

    /** Re-keys position index from its cached hash to h, adjusting the total. */
    method ChangeHash(index: nat, h: Hash)
      requires index < |members| && Indexed()
      requires h !in hashIndexMap
      modifies this
      ensures Indexed() && members == old(members)
      ensures indexHashMap == old(indexHashMap)[index := h]
      ensures hashIndexMap == (old(hashIndexMap) - {old(indexHashMap[index])})[h := index]
      ensures cachedHashTotal == old(cachedHashTotal) - mix(old(indexHashMap[index])) + mix(h)
    {
      var oldHash := indexHashMap[index];
      ghost var ihm0, him0 := indexHashMap, hashIndexMap;
      hashIndexMap := hashIndexMap - {oldHash};
      hashIndexMap := hashIndexMap[h := index];
      indexHashMap := indexHashMap[index := h];
      MixSumUpdate(mix, ihm0, index, h);
      cachedHashTotal := cachedHashTotal - mix(oldHash);
      cachedHashTotal := cachedHashTotal + mix(h);
      forall i | 0 <= i < |indexHashMap|
        ensures indexHashMap[i] in hashIndexMap && hashIndexMap[indexHashMap[i]] == i
      {
        if i != index {
          assert him0[ihm0[i]] == i;
        }
      }
      forall k | k in hashIndexMap ensures HashPoints(k) {
        if k != h {
          assert k in him0 && him0[k] < |ihm0| && ihm0[him0[k]] == k;
        }
      }
    }

    /**
     * The members at `indices` changed in place: every cached hash of theirs
     * is re-read.  The new hashes must be pairwise different and different
     * from the hashes of the other members.
     */
    ghost predicate FreshHashes(indices: seq<nat>)
      reads this
      requires forall j :: 0 <= j < |indices| ==> indices[j] < |members| == |indexHashMap|
    {
      (forall j, j' :: 0 <= j < j' < |indices| ==>
         hashOf(members[indices[j]]) != hashOf(members[indices[j']]))
      && (forall j, i :: 0 <= j < |indices| && 0 <= i < |members| && i !in indices ==>
            hashOf(members[indices[j]]) != indexHashMap[i])
    }

    method MembersChanged(indices: seq<nat>)
      requires Indexed() && DistinctIndices(indices)
      requires forall j :: 0 <= j < |indices| ==> indices[j] < |members|
      requires ValidExcept(Elems(indices)) && FreshHashes(indices)
      modifies this
      ensures Valid() && members == old(members)
      ensures indexHashMap == Hashes(hashOf, members)
    {
      ghost var O, M0, Nw, T0 := indexHashMap, hashIndexMap, Hashes(hashOf, members), cachedHashTotal;
      assert forall i :: 0 <= i < |O| && i !in indices ==> O[i] == Nw[i] by {
        forall i | 0 <= i < |O| && i !in indices ensures O[i] == Nw[i] {
          assert i !in Elems(indices);
        }
      }
      ForgetHashes(indices);
      RecordHashes(indices);
      ChangedValid(O, M0, Nw, indices, T0);
    }

    /** The state left by the two loops of membersChanged is valid again. */
    lemma ChangedValid(O: seq<Hash>, M0: map<Hash, nat>, Nw: seq<Hash>, indices: seq<nat>, T0: int)
      requires |O| == |members| && Nw == Hashes(hashOf, members)
      requires DistinctIndices(indices) && forall j :: 0 <= j < |indices| ==> indices[j] < |O|
      requires forall i :: 0 <= i < |O| ==> O[i] in M0 && M0[O[i]] == i
      requires forall h :: h in M0 ==> M0[h] < |O| && O[M0[h]] == h
      requires T0 == MixSum(mix, O)
      requires forall i :: 0 <= i < |O| && i !in indices ==> O[i] == Nw[i]
      requires forall j, j' :: 0 <= j < j' < |indices| ==> Nw[indices[j]] != Nw[indices[j']]
      requires forall j, i :: 0 <= j < |indices| && 0 <= i < |O| && i !in indices ==> Nw[indices[j]] != O[i]
      requires hashIndexMap == Inserted(M0 - HashesAt(O, indices, |indices|), Nw, indices, |indices|)
      requires indexHashMap == UpdatedAt(O, Nw, indices, |indices|)
      requires cachedHashTotal == T0 - SumAt(mix, O, indices, |indices|) + SumAt(mix, Nw, indices, |indices|)
      ensures Valid() && indexHashMap == Nw
    {
      var base := M0 - HashesAt(O, indices, |indices|);
      FreshNotInBase(O, M0, Nw, indices);
      InsertedFacts(base, Nw, indices, |indices|);
      ChangedTotal(mix, O, Nw, indices);
      ChangedIndexed(O, M0, Nw, indices, base);
    }

    /** The first loop of membersChanged: drops the cached hashes at indices. */
    method ForgetHashes(indices: seq<nat>)
      requires Indexed()
      requires forall j :: 0 <= j < |indices| ==> indices[j] < |members|
      modifies this
      ensures members == old(members) && indexHashMap == old(indexHashMap)
      ensures hashIndexMap == old(hashIndexMap) - HashesAt(indexHashMap, indices, |indices|)
      ensures cachedHashTotal == old(cachedHashTotal) - SumAt(mix, indexHashMap, indices, |indices|)
    {
      var k := 0;
      while k < |indices|
        invariant 0 <= k <= |indices|
        invariant members == old(members) && indexHashMap == old(indexHashMap)
        invariant hashIndexMap == old(hashIndexMap) - HashesAt(indexHashMap, indices, k)
        invariant cachedHashTotal == old(cachedHashTotal) - SumAt(mix, indexHashMap, indices, k)
      {
        var oldHash := indexHashMap[indices[k]];
        cachedHashTotal := cachedHashTotal - mix(oldHash);
        HashesAtStep(indexHashMap, indices, k);
        hashIndexMap := hashIndexMap - {oldHash};
        k := k + 1;
      }
    }

    /** The second loop of membersChanged: records the members' current hashes. */
    method RecordHashes(indices: seq<nat>)
      requires |indexHashMap| == |members|
      requires forall j :: 0 <= j < |indices| ==> indices[j] < |members|
      modifies this
      ensures members == old(members)
      ensures hashIndexMap == Inserted(old(hashIndexMap), Hashes(hashOf, members), indices, |indices|)
      ensures indexHashMap == UpdatedAt(old(indexHashMap), Hashes(hashOf, members), indices, |indices|)
      ensures cachedHashTotal == old(cachedHashTotal) + SumAt(mix, Hashes(hashOf, members), indices, |indices|)
    {
      ghost var Nw := Hashes(hashOf, members);
      var k := 0;
      while k < |indices|
        invariant 0 <= k <= |indices|
        invariant members == old(members)
        invariant hashIndexMap == Inserted(old(hashIndexMap), Nw, indices, k)
        invariant indexHashMap == UpdatedAt(old(indexHashMap), Nw, indices, k)
        invariant cachedHashTotal == old(cachedHashTotal) + SumAt(mix, Nw, indices, k)
      {
        var index := indices[k];
        var newHash := hashOf(members[index]);
        cachedHashTotal := cachedHashTotal + mix(newHash);
        hashIndexMap := hashIndexMap[newHash := index];
        indexHashMap := indexHashMap[index := newHash];
        k := k + 1;
      }
    }

    /** After both loops of MembersChanged the maps index the new hashes. */
    lemma ChangedIndexed(O: seq<Hash>, M0: map<Hash, nat>, Nw: seq<Hash>, indices: seq<nat>, base: map<Hash, nat>)
      requires |O| == |Nw| == |indexHashMap| && indexHashMap == Nw
      requires forall j :: 0 <= j < |indices| ==> indices[j] < |O|
      requires forall i :: 0 <= i < |O| ==> O[i] in M0 && M0[O[i]] == i
      requires forall h :: h in M0 ==> M0[h] < |O| && O[M0[h]] == h
      requires forall i :: 0 <= i < |O| && i !in indices ==> Nw[i] == O[i]
      requires base == M0 - HashesAt(O, indices, |indices|)
      requires InsertedUpTo(hashIndexMap, base, Nw, indices, |indices|)
      ensures forall i :: 0 <= i < |indexHashMap| ==>
                indexHashMap[i] in hashIndexMap && hashIndexMap[indexHashMap[i]] == i
      ensures forall h :: h in hashIndexMap ==> HashPoints(h)
    {
      forall i | 0 <= i < |indexHashMap|
        ensures indexHashMap[i] in hashIndexMap && hashIndexMap[indexHashMap[i]] == i
      {
        if i in indices {
          var j :| 0 <= j < |indices| && indices[j] == i;
          assert Nw[indices[j]] in hashIndexMap;
        } else {
          assert O[i] in base;
        }
      }
      forall h | h in hashIndexMap ensures HashPoints(h) {
        if h in base {
        } else {
          assert h in HashesAt(Nw, indices, |indices|);
          var j :| 0 <= j < |indices| && Nw[indices[j]] == h;
        }
      }
    }

    /**
     * Adds m, then asks `accept`; a rejected addition is undone by removing
     * the member just appended.
     */
    method TryAddMember(m: M, accept: bool) returns (added: bool)
      requires Valid()
      modifies this
      ensures Valid()
      ensures added == (accept && !old(ContainsMember(m)))
      ensures added ==> members == old(members) + [m]
                        && indexHashMap == old(indexHashMap) + [hashOf(m)]
                        && hashIndexMap == old(hashIndexMap)[hashOf(m) := old(|members|)]
                        && cachedHashTotal == old(cachedHashTotal) + mix(hashOf(m))
      ensures !added ==> members == old(members) && indexHashMap == old(indexHashMap)
                         && hashIndexMap == old(hashIndexMap) && cachedHashTotal == old(cachedHashTotal)
    {
      ghost var ms0, ihm0, him0, t0 := members, indexHashMap, hashIndexMap, cachedHashTotal;
      var ok := AddMember(m);
      if ok {
        if accept {
          return true;
        }
        RemoveAdded(m, ms0, ihm0, him0, t0);
      }
      return false;
    }

    /** The rejected branch of tryAddMember: removing the member just appended gives back the set as it was. */
    method RemoveAdded(m: M, ghost ms0: seq<M>, ghost ihm0: seq<Hash>, ghost him0: map<Hash, nat>, ghost t0: int)
      requires Valid() && hashOf(m) !in him0
      requires members == ms0 + [m] && indexHashMap == ihm0 + [hashOf(m)]
      requires hashIndexMap == him0[hashOf(m) := |ms0|] && cachedHashTotal == t0 + mix(hashOf(m))
      modifies this
      ensures members == ms0 && indexHashMap == ihm0 && hashIndexMap == him0 && cachedHashTotal == t0
    {
      var _ := RemoveMember(|members| - 1);
      SwapRemoveLast(ms0, m);
      SwapRemoveLast(ihm0, hashOf(m));
      assert (him0[hashOf(m) := |ms0|]) - {hashOf(m)} == him0;
    }

    /**
     * Removes the member at index, then asks `accept`; a rejected removal
     * re-adds the member at the end and swaps it back into index.
     */
    method TryRemoveMember(index: nat, accept: bool) returns (removed: Option<M>)
      requires Valid() && index < |members|
      modifies this
      ensures Valid()
      ensures accept ==> removed == Some(old(members[index]))
                         && members == SwapRemove(old(members), index)
                         && indexHashMap == SwapRemove(old(indexHashMap), index)
                         && cachedHashTotal == old(cachedHashTotal) - mix(old(indexHashMap[index]))
      ensures !accept ==> removed == None && members == old(members) && indexHashMap == old(indexHashMap)
                          && hashIndexMap == old(hashIndexMap) && cachedHashTotal == old(cachedHashTotal)
    {
      ghost var ms0, ihm0, him0, t0 := members, indexHashMap, hashIndexMap, cachedHashTotal;
      ValidAsValues();
      var member := RemoveMember(index);
      if accept {
        return Some(member);
      }
      ReaddRemoved(index, member, ms0, ihm0, him0, t0);
      ValidAsValues();
      return None;
    }

    /**
     * The rejected branch of tryRemoveMember: the removed member is added
     * again and swapped back into index, which gives back the set as it was
     * before the removal.
     */
    method ReaddRemoved(index: nat, member: M, ghost ms0: seq<M>, ghost ihm0: seq<Hash>, ghost him0: map<Hash, nat>, ghost t0: int)
      requires ValidValues(ms0, ihm0, him0, t0) && index < |ms0| && member == ms0[index]
      requires Valid() && members == SwapRemove(ms0, index) && indexHashMap == SwapRemove(ihm0, index)
      requires hashIndexMap == if index < |indexHashMap|
                               then (him0 - {ihm0[index]})[indexHashMap[index] := index]
                               else him0 - {ihm0[index]}
      requires cachedHashTotal == t0 - mix(ihm0[index])
      modifies this
      ensures members == ms0 && indexHashMap == ihm0 && hashIndexMap == him0 && cachedHashTotal == t0
    {
      ghost var him1, t1 := hashIndexMap, cachedHashTotal;
      assert hashOf(member) == ihm0[index];
      assert ihm0[index] !in him1 by {
        if index < |ms0| - 1 {
          assert him0[ihm0[|ms0| - 1]] == |ms0| - 1;
        }
      }
      var readded := AddMember(member);
      assert readded && cachedHashTotal == t1 + mix(ihm0[index]);
      SwapWithLast(index);
      SwapRemoveUndo(ms0, index);
      SwapRemoveUndo(ihm0, index);
      RemoveUndoMap(ihm0, him0, him1, index);
    }

    /** The three swaps that move the re-added last member back to position index. */
    method SwapWithLast(index: nat)
      requires index < |members| == |indexHashMap|
      requires indexHashMap[index] in hashIndexMap && indexHashMap[|indexHashMap| - 1] in hashIndexMap
      modifies this
      ensures var last := old(|members|) - 1;
              && members == old(members)[index := old(members)[last]][last := old(members)[index]]
              && indexHashMap == old(indexHashMap)[index := old(indexHashMap)[last]][last := old(indexHashMap)[index]]
      ensures var a, b := old(indexHashMap)[old(|members|) - 1], old(indexHashMap)[index];
              hashIndexMap == old(hashIndexMap)[a := old(hashIndexMap)[b]][b := old(hashIndexMap)[a]]
      ensures cachedHashTotal == old(cachedHashTotal)
    {
      var last := |members| - 1;
      members := members[index := members[last]][last := members[index]];
      indexHashMap := indexHashMap[index := indexHashMap[last]][last := indexHashMap[index]];
      var a, b := indexHashMap[index], indexHashMap[last];
      var va, vb := hashIndexMap[a], hashIndexMap[b];
      hashIndexMap := hashIndexMap[a := vb][b := va];
    }

    /**
     * Re-reads the hash of the member at index, then asks `accept`; a
     * rejected change puts the old hash back into both maps and the total.
     */
    method TryMemberChange(index: nat, accept: bool) returns (changed: bool)
      requires index < |members| && ValidExcept({index})
      requires hashOf(members[index]) == indexHashMap[index] || hashOf(members[index]) !in hashIndexMap
      modifies this
      ensures members == old(members) && changed == accept
      ensures accept ==> Valid() && indexHashMap == old(indexHashMap)[index := hashOf(members[index])]
      ensures !accept ==> ValidExcept({index}) && indexHashMap == old(indexHashMap)
                          && hashIndexMap == old(hashIndexMap) && cachedHashTotal == old(cachedHashTotal)
    {
      ghost var him0 := hashIndexMap;
      var oldHash := indexHashMap[index];
      var newHash := MemberChanged(index);
      if accept {
        return true;
      }
      if oldHash != newHash {
        hashIndexMap := hashIndexMap[oldHash := index];
        hashIndexMap := hashIndexMap - {newHash};
        indexHashMap := indexHashMap[index := oldHash];
        cachedHashTotal := cachedHashTotal - mix(newHash);
        cachedHashTotal := cachedHashTotal + mix(oldHash);
        assert hashIndexMap == him0;
        assert cachedHashTotal == old(cachedHashTotal);
      }
      return false;
    }

    /**
     * Re-reads the hashes of the members at indices, then asks `accept`; a
     * rejected change restores the saved total, drops the new hashes and
     * puts the old hashes back.
     */
    method TryMembersChange(indices: seq<nat>, accept: bool) returns (changed: bool)
      requires Indexed() && DistinctIndices(indices)
      requires forall j :: 0 <= j < |indices| ==> indices[j] < |members|
      requires ValidExcept(Elems(indices)) && FreshHashes(indices)
      modifies this
      ensures members == old(members) && changed == accept
      ensures accept ==> Valid() && indexHashMap == Hashes(hashOf, members)
      ensures !accept ==> indexHashMap == old(indexHashMap) && hashIndexMap == old(hashIndexMap)
                          && cachedHashTotal == old(cachedHashTotal)
    {
      ghost var O, M0 := indexHashMap, hashIndexMap;
      var oldHashes := [];
      var k := 0;
      while k < |indices|
        invariant 0 <= k <= |indices| && |oldHashes| == k
        invariant forall j :: 0 <= j < k ==> oldHashes[j] == O[indices[j]]
      {
        oldHashes := oldHashes + [indexHashMap[indices[k]]];
        k := k + 1;
      }
      var cachedHashTotalBackup := cachedHashTotal;
      assert forall i :: 0 <= i < |O| && i !in indices ==> O[i] == hashOf(members[i]) by {
        forall i | 0 <= i < |O| && i !in indices ensures O[i] == hashOf(members[i]) {
          assert i !in Elems(indices);
        }
      }
      MembersChanged(indices);
      if accept {
        return true;
      }
      UndoMembersChange(indices, oldHashes, cachedHashTotalBackup, O, M0);
      return false;
    }

    /**
     * The rejected branch of tryMembersChange: the saved total comes back,
     * the new hashes are dropped and the saved ones put back, which gives
     * back the maps as they were.
     */
    method UndoMembersChange(indices: seq<nat>, oldHashes: seq<Hash>, backup: int, ghost O: seq<Hash>, ghost M0: map<Hash, nat>)
      requires Valid() && indexHashMap == Hashes(hashOf, members) && |O| == |members|
      requires DistinctIndices(indices) && |oldHashes| == |indices|
      requires forall j :: 0 <= j < |indices| ==> indices[j] < |O| && oldHashes[j] == O[indices[j]]
      requires forall i :: 0 <= i < |O| ==> O[i] in M0 && M0[O[i]] == i
      requires forall h :: h in M0 ==> M0[h] < |O| && O[M0[h]] == h
      requires forall i :: 0 <= i < |O| && i !in indices ==> O[i] == hashOf(members[i])
      requires forall j, i :: 0 <= j < |indices| && 0 <= i < |O| && i !in indices ==>
                 hashOf(members[indices[j]]) != O[i]
      modifies this
      ensures members == old(members) && indexHashMap == O && hashIndexMap == M0 && cachedHashTotal == backup
    {
      ghost var Nw, M1 := indexHashMap, hashIndexMap;
      assert forall h :: h in M1 ==> M1[h] < |Nw| && Nw[M1[h]] == h by {
        forall h | h in M1 ensures M1[h] < |Nw| && Nw[M1[h]] == h {
          assert HashPoints(h);
        }
      }
      cachedHashTotal := backup;
      DropHashes(indices);
      RestoreHashes(indices, oldHashes, O);
      RestoredMaps(O, M0, Nw, M1, indices);
    }

    /** The first rollback loop of tryMembersChange: drops the cached hashes at indices. */
    method DropHashes(indices: seq<nat>)
      requires |indexHashMap| == |members|
      requires forall j :: 0 <= j < |indices| ==> indices[j] < |members|
      modifies this
      ensures members == old(members) && indexHashMap == old(indexHashMap)
      ensures cachedHashTotal == old(cachedHashTotal)
      ensures hashIndexMap == old(hashIndexMap) - HashesAt(indexHashMap, indices, |indices|)
    {
      var k := 0;
      while k < |indices|
        invariant 0 <= k <= |indices|
        invariant members == old(members) && indexHashMap == old(indexHashMap)
        invariant cachedHashTotal == old(cachedHashTotal)
        invariant hashIndexMap == old(hashIndexMap) - HashesAt(indexHashMap, indices, k)
      {
        HashesAtStep(indexHashMap, indices, k);
        hashIndexMap := hashIndexMap - {indexHashMap[indices[k]]};
        k := k + 1;
      }
    }

    /** The second rollback loop of tryMembersChange: puts the saved hashes back. */
    method RestoreHashes(indices: seq<nat>, hashes: seq<Hash>, ghost O: seq<Hash>)
      requires |indexHashMap| == |members| == |O| && |hashes| == |indices|
      requires forall j :: 0 <= j < |indices| ==> indices[j] < |members| && hashes[j] == O[indices[j]]
      modifies this
      ensures members == old(members) && cachedHashTotal == old(cachedHashTotal)
      ensures hashIndexMap == Inserted(old(hashIndexMap), O, indices, |indices|)
      ensures indexHashMap == UpdatedAt(old(indexHashMap), O, indices, |indices|)
    {
      var i := 0;
      while i < |indices|
        invariant 0 <= i <= |indices|
        invariant members == old(members) && cachedHashTotal == old(cachedHashTotal)
        invariant hashIndexMap == Inserted(old(hashIndexMap), O, indices, i)
        invariant indexHashMap == UpdatedAt(old(indexHashMap), O, indices, i)
      {
        var index := indices[i];
        var hash := hashes[i];
        hashIndexMap := hashIndexMap[hash := index];
        indexHashMap := indexHashMap[index := hash];
        i := i + 1;
      }
    }

    /** Empties the set. */
    method SilentClear()
      modifies this
      ensures Valid() && members == [] && indexHashMap == []
      ensures hashIndexMap == map[] && cachedHashTotal == 0
    {
      cachedHashTotal := 0;
      hashIndexMap := map[];
      indexHashMap := [];
      members := [];
    }
  }

  /** The domain of a set: its size attribute and the size of its member domain. */
  class SetDomain {
    var sizeAttr: SizeAttr
    const innerDomainSize: nat

    /**
     * Builds the domain and trims its maximum size to the member domain's
     * size; the trimmed maximum is below the minimum exactly where the
     * source aborts.
     */
    constructor (sizeAttr: SizeAttr, innerDomainSize: nat)
      ensures this.innerDomainSize == innerDomainSize
      ensures this.sizeAttr == sizeAttr.(maxSize := if innerDomainSize < sizeAttr.maxSize
                                                    then innerDomainSize else sizeAttr.maxSize)
      ensures this.sizeAttr.maxSize <= innerDomainSize && this.sizeAttr.maxSize <= sizeAttr.maxSize
    {
      this.sizeAttr := sizeAttr;
      this.innerDomainSize := innerDomainSize;
      new;
      var ok := TrimMaxSize();
    }

    /**
     * Caps the maximum size at the number of values of the member domain;
     * returns false (the source aborts) when the cap falls below the minimum.
     */
    method TrimMaxSize() returns (ok: bool)
      modifies this
      ensures sizeAttr.maxSize == if innerDomainSize < old(sizeAttr.maxSize)
                                  then innerDomainSize else old(sizeAttr.maxSize)
      ensures sizeAttr.minSize == old(sizeAttr.minSize) && sizeAttr.sizeType == old(sizeAttr.sizeType)
      ensures ok <==> sizeAttr.minSize <= sizeAttr.maxSize
      ensures ok ==> sizeAttr.maxSize <= innerDomainSize
    {
      if innerDomainSize < sizeAttr.maxSize {
        sizeAttr := sizeAttr.(maxSize := innerDomainSize);
      }
      ok := sizeAttr.minSize <= sizeAttr.maxSize;
    }
  }
}
