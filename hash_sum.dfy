// Totals of mixed hashes, and the swap-with-last removal that every
// hash-indexed container of the solver uses.

module HashSums {
  import opened Common

  /** mix(h0) + mix(h1) + ... over a sequence of hashes. */
  function MixSum(mix: Hash -> int, hs: seq<Hash>): (r: int) {
    if |hs| == 0 then 0 else MixSum(mix, hs[..|hs| - 1]) + mix(hs[|hs| - 1])
  }

  /** s with its last entry moved into position i and the last position dropped. */
  function SwapRemove<T>(s: seq<T>, i: nat): (r: seq<T>)
    requires i < |s|
    ensures |r| == |s| - 1
    ensures forall j :: 0 <= j < |r| && j != i ==> r[j] == s[j]
    ensures i < |r| ==> r[i] == s[|s| - 1]
  {
    s[i := s[|s| - 1]][..|s| - 1]
  }

  /** Nothing is lost or gained by a swap-with-last removal but s[i]. */
  lemma SwapRemoveMultiset<T>(s: seq<T>, i: nat)
    requires i < |s|
    ensures multiset(SwapRemove(s, i)) + multiset{s[i]} == multiset(s)
  {
    var n := |s|;
    var t := s[i := s[n - 1]];
    assert t[..n - 1] + [t[n - 1]] == t;
    assert multiset(t) == multiset(s) - multiset{s[i]} + multiset{s[n - 1]};
    assert t[n - 1] == s[n - 1];
  }

  /** Removing the last entry is just dropping it. */
  lemma SwapRemoveLast<T>(s: seq<T>, x: T)
    ensures SwapRemove(s + [x], |s|) == s
  {
  }

  /**
   * Re-appending the removed entry and swapping it with the last position
   * restores the original sequence.
   */
  lemma SwapRemoveUndo<T>(s: seq<T>, i: nat)
    requires i < |s|
    ensures var t := SwapRemove(s, i) + [s[i]];
            var last := |s| - 1;
            t[i := t[last]][last := t[i]] == s
  {
  }

  lemma MixSumAppend(mix: Hash -> int, hs: seq<Hash>, h: Hash)
    ensures MixSum(mix, hs + [h]) == MixSum(mix, hs) + mix(h)
  {
    assert (hs + [h])[..|hs|] == hs;
  }

  /** Replacing one hash changes the total by the difference of the mixes. */
  lemma {:induction false} MixSumUpdate(mix: Hash -> int, hs: seq<Hash>, i: nat, h: Hash)
    requires i < |hs|
    ensures MixSum(mix, hs[i := h]) == MixSum(mix, hs) - mix(hs[i]) + mix(h)
  {
    var n := |hs|;
    if i == n - 1 {
      assert hs[i := h][..n - 1] == hs[..n - 1];
    } else {
      assert hs[i := h][..n - 1] == hs[..n - 1][i := h];
      MixSumUpdate(mix, hs[..n - 1], i, h);
    }
  }

  /** A swap-with-last removal takes exactly mix(hs[i]) off the total. */
  lemma MixSumSwapRemove(mix: Hash -> int, hs: seq<Hash>, i: nat)
    requires i < |hs|
    ensures MixSum(mix, SwapRemove(hs, i)) == MixSum(mix, hs) - mix(hs[i])
  {
    var n := |hs|;
    MixSumUpdate(mix, hs, i, hs[n - 1]);
    var t := hs[i := hs[n - 1]];
    assert SwapRemove(hs, i) == t[..n - 1];
    assert t[n - 1] == hs[n - 1];
    assert MixSum(mix, t) == MixSum(mix, t[..n - 1]) + mix(t[n - 1]);
  }

  /** Removing a present key shrinks a map by one. */
  lemma MapRemoveCard<K>(m: map<K, int>, k: K)
    requires k in m
    ensures |m - {k}| == |m| - 1
  {
    assert (m - {k}).Keys == m.Keys - {k};
  }

  /** The sum of the values of a map. */
  ghost function MapSum<K>(m: map<K, int>): (r: int)
    decreases |m|
  {
    if |m| == 0 then 0
    else
      var k :| k in m;
      MapRemoveCard(m, k);
      m[k] + MapSum(m - {k})
  }

  /** MapSum may take out any key first. */
  lemma {:induction false} MapSumRemove<K>(m: map<K, int>, k: K)
    requires k in m
    ensures MapSum(m) == m[k] + MapSum(m - {k})
    decreases |m|
  {
    var k' :| k' in m && MapSum(m) == m[k'] + MapSum(m - {k'});
    if k' != k {
      MapRemoveCard(m, k);
      MapRemoveCard(m, k');
      var a, b := m - {k'}, m - {k};
      assert k in a && k' in b;
      MapSumRemove(a, k);
      MapSumRemove(b, k');
      RemoveBoth(m, k, k');
    }
  }

  /** Taking out two keys in either order leaves the same map. */
  lemma RemoveBoth<K>(m: map<K, int>, k: K, k': K)
    ensures m - {k'} - {k} == m - {k} - {k'}
  {
  }

  /** Setting the value of a key changes MapSum by the difference. */
  lemma MapSumUpdate<K>(m: map<K, int>, k: K, v: int)
    ensures MapSum(m[k := v]) == MapSum(m) - (if k in m then m[k] else 0) + v
  {
    MapSumRemove(m[k := v], k);
    UpdateThenRemove(m, k, v);
    if k in m {
      MapSumRemove(m, k);
    }
  }

  /** A key set and then taken out leaves the map without that key. */
  lemma UpdateThenRemove<K>(m: map<K, int>, k: K, v: int)
    ensures m[k := v] - {k} == m - {k}
    ensures k !in m ==> m - {k} == m
  {
  }

  /** The hashes of a sequence of members. */
  function Hashes<M>(hashOf: M -> Hash, ms: seq<M>): (hs: seq<Hash>)
    ensures |hs| == |ms|
    ensures forall i :: 0 <= i < |ms| ==> hs[i] == hashOf(ms[i])
  {
    seq(|ms|, i requires 0 <= i < |ms| => hashOf(ms[i]))
  }
}
