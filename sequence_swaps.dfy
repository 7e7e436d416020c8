// Position swaps on sequences: a single swap, the reversal of an inclusive
// range done by swapping its ends inwards, and a shuffle given as a list
// of swaps applied forwards or, to undo it, backwards.

module SequenceSwaps {

  /** s with positions i and j exchanged. */
  function Swapped<T>(s: seq<T>, i: nat, j: nat): (r: seq<T>)
    requires i < |s| && j < |s|
    ensures |r| == |s|
    ensures r[i] == s[j] && r[j] == s[i]
    ensures forall k :: 0 <= k < |s| && k != i && k != j ==> r[k] == s[k]
  {
    s[i := s[j]][j := s[i]]
  }

  /** Swapping the same two positions again restores the sequence. */
  lemma SwapTwice<T>(s: seq<T>, i: nat, j: nat)
    requires i < |s| && j < |s|
    ensures Swapped(Swapped(s, i, j), i, j) == s
  {
    var t := Swapped(Swapped(s, i, j), i, j);
    assert forall k :: 0 <= k < |s| ==> t[k] == s[k];
  }

  // ---- reversal of [lo, hi] ----

  /** The reversal loop: swap lo with hi, then move both inwards. */
  function ReverseRange<T>(s: seq<T>, lo: nat, hi: nat): (r: seq<T>)
    requires lo < hi ==> hi < |s|
    ensures |r| == |s|
    decreases hi - lo
  {
    if lo < hi then ReverseRange(Swapped(s, lo, hi), lo + 1, hi - 1) else s
  }

  /** Position k after the reversal loop. */
  lemma {:induction false} ReverseRangeAt<T>(s: seq<T>, lo: nat, hi: nat, k: nat)
    requires (lo < hi ==> hi < |s|) && k < |s|
    ensures ReverseRange(s, lo, hi)[k] == if lo <= k <= hi then s[lo + hi - k] else s[k]
    decreases hi - lo
  {
    if lo < hi {
      ReverseRangeAt(Swapped(s, lo, hi), lo + 1, hi - 1, k);
    }
  }

  /** The reversal loop reverses [lo, hi] and keeps everything else. */
  lemma ReverseRangeSpec<T>(s: seq<T>, lo: nat, hi: nat)
    requires lo < hi ==> hi < |s|
    ensures forall k :: 0 <= k < |s| ==>
              ReverseRange(s, lo, hi)[k] == if lo <= k <= hi then s[lo + hi - k] else s[k]
  {
    forall k | 0 <= k < |s| {
      ReverseRangeAt(s, lo, hi, k);
    }
  }

  /** Reversing the same range twice restores the sequence. */
  lemma ReverseTwice<T>(s: seq<T>, lo: nat, hi: nat)
    requires lo < hi ==> hi < |s|
    ensures ReverseRange(ReverseRange(s, lo, hi), lo, hi) == s
  {
    var t := ReverseRange(s, lo, hi);
    forall k | 0 <= k < |s| ensures ReverseRange(t, lo, hi)[k] == s[k] {
      ReverseRangeAt(t, lo, hi, k);
      if lo <= k <= hi {
        ReverseRangeAt(s, lo, hi, lo + hi - k);
      } else {
        ReverseRangeAt(s, lo, hi, k);
      }
    }
  }

  // ---- shuffles given as swap lists ----

  /** Every swap of the list stays inside s once shifted by offset. */
  ghost predicate SwapsFit(n: nat, offset: nat, swaps: seq<nat>) {
    offset + |swaps| <= n && forall k :: 0 <= k < |swaps| ==> swaps[k] + offset < n
  }

  /** The first k swaps applied in order: position i + offset with swaps[i] + offset. */
  function Forward<T>(s: seq<T>, offset: nat, swaps: seq<nat>, k: nat): (r: seq<T>)
    requires SwapsFit(|s|, offset, swaps) && k <= |swaps|
    ensures |r| == |s|
  {
    if k == 0 then s
    else Swapped(Forward(s, offset, swaps, k - 1), k - 1 + offset, swaps[k - 1] + offset)
  }

  /** The last k swaps applied from the last one down. */
  function Backward<T>(s: seq<T>, offset: nat, swaps: seq<nat>, k: nat): (r: seq<T>)
    requires SwapsFit(|s|, offset, swaps) && k <= |swaps|
    ensures |r| == |s|
  {
    if k == 0 then s
    else
      var index := |swaps| - k;
      Swapped(Backward(s, offset, swaps, k - 1), index + offset, swaps[index] + offset)
  }

  /** The first k steps of the swap loop, in either direction. */
  function Applied<T>(s: seq<T>, offset: nat, swaps: seq<nat>, isInverse: bool, k: nat): (r: seq<T>)
    requires SwapsFit(|s|, offset, swaps) && k <= |swaps|
    ensures |r| == |s|
  {
    if isInverse then Backward(s, offset, swaps, k) else Forward(s, offset, swaps, k)
  }

  /** Step k of the swap loop exchanges position index + offset with swaps[index] + offset. */
  lemma AppliedStep<T>(s: seq<T>, offset: nat, swaps: seq<nat>, isInverse: bool, k: nat)
    requires SwapsFit(|s|, offset, swaps) && k < |swaps|
    ensures var index := if !isInverse then k else |swaps| - 1 - k;
            Applied(s, offset, swaps, isInverse, k + 1)
            == Swapped(Applied(s, offset, swaps, isInverse, k), index + offset, swaps[index] + offset)
  {
  }

  /** Undoing k swaps backwards after all of them leaves the first |swaps| - k. */
  lemma {:induction false} BackwardUndoes<T>(s: seq<T>, offset: nat, swaps: seq<nat>, k: nat)
    requires SwapsFit(|s|, offset, swaps) && k <= |swaps|
    ensures Backward(Forward(s, offset, swaps, |swaps|), offset, swaps, k)
            == Forward(s, offset, swaps, |swaps| - k)
  {
    if k > 0 {
      BackwardUndoes(s, offset, swaps, k - 1);
      var index := |swaps| - k;
      var before := Forward(s, offset, swaps, index);
      assert Forward(s, offset, swaps, index + 1) == Swapped(before, index + offset, swaps[index] + offset);
      SwapTwice(before, index + offset, swaps[index] + offset);
    }
  }

  /** Applying the swaps backwards undoes applying them forwards. */
  lemma InverseRestores<T>(s: seq<T>, offset: nat, swaps: seq<nat>)
    requires SwapsFit(|s|, offset, swaps)
    ensures Backward(Forward(s, offset, swaps, |swaps|), offset, swaps, |swaps|) == s
  {
    BackwardUndoes(s, offset, swaps, |swaps|);
  }

  /**
   * Applying the swaps forwards a second time does not undo them: with
   * swaps [1, 2] at offset 0, [a, b, c] becomes [b, c, a] and then [c, a, b].
   */
  lemma ForwardTwiceDoesNotRestore()
    ensures var s := [0, 1, 2];
            var once := Forward(s, 0, [1, 2], 2);
            once == [1, 2, 0] && Forward(once, 0, [1, 2], 2) == [2, 0, 1] != s
  {
    var swaps: seq<nat> := [1, 2];
    assert Swapped([0, 1, 2], 0, 1) == [1, 0, 2];
    assert Swapped([1, 0, 2], 1, 2) == [1, 2, 0];
    assert Swapped([1, 2, 0], 0, 1) == [2, 1, 0];
    assert Swapped([2, 1, 0], 1, 2) == [2, 0, 1];
    assert Forward([0, 1, 2], 0, swaps, 1) == [1, 0, 2];
    assert Forward([1, 2, 0], 0, swaps, 1) == [2, 1, 0];
  }
}
