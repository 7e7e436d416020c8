// A sequence of inner sequences flattened one level, and the starting index
// of each inner sequence within the flattened sequence (the prefix sums of
// the inner lengths).  The lemmas say how both move when an inner sequence
// or the outer sequence changes.

module Flattens {
  import opened Common
  import opened Sums
  import opened SequenceSwaps
  import opened ExtremeIndices

  /** The lengths of the inner sequences. */
  function Lengths<T>(inner: seq<seq<T>>): (r: seq<nat>)
    ensures |r| == |inner|
    ensures forall i :: 0 <= i < |inner| ==> r[i] == |inner[i]|
  {
    seq(|inner|, i requires 0 <= i < |inner| => |inner[i]|)
  }

  /** The inner sequences concatenated in order. */
  function Flatten<T>(inner: seq<seq<T>>): (r: seq<T>) {
    if |inner| == 0 then []
    else Flatten(inner[..|inner| - 1]) + inner[|inner| - 1]
  }

  /** The flattened sequence is as long as the inner sequences together. */
  lemma {:induction false} FlattenLength<T>(inner: seq<seq<T>>)
    ensures |Flatten(inner)| == Sum(Lengths(inner))
  {
    if |inner| > 0 {
      var init := inner[..|inner| - 1];
      FlattenLength(init);
      assert Lengths(init) == Lengths(inner)[..|inner| - 1];
    }
  }

  /**
   * s holds the starting index of every inner sequence: entry i is the sum
   * of the lengths before i.
   */
  ghost predicate IsStarts(s: seq<int>, lengths: seq<nat>) {
    |s| == |lengths| && forall i :: 0 <= i < |s| ==> s[i] == Sum(lengths[..i])
  }

  /** Flattening distributes over concatenation of the outer sequence. */
  lemma {:induction false} FlattenConcat<T>(a: seq<seq<T>>, b: seq<seq<T>>)
    ensures Flatten(a + b) == Flatten(a) + Flatten(b)
    decreases |b|
  {
    if |b| == 0 {
      assert a + b == a;
    } else {
      DropLastConcat(a, b);
      FlattenConcat(a, b[..|b| - 1]);
    }
  }

  /** The prefix of the lengths is the lengths of the prefix. */
  lemma LengthsPrefix<T>(inner: seq<seq<T>>, i: nat)
    requires i <= |inner|
    ensures Lengths(inner[..i]) == Lengths(inner)[..i]
    ensures |Flatten(inner[..i])| == Sum(Lengths(inner)[..i])
  {
    FlattenLength(inner[..i]);
    assert Lengths(inner[..i]) == Lengths(inner)[..i];
  }

  /**
   * The flattened sequence around inner sequence i: what comes before it,
   * the inner sequence itself at its starting index, and what follows.
   */
  lemma FlattenAt<T>(inner: seq<seq<T>>, i: nat)
    requires i < |inner|
    ensures Flatten(inner) == Flatten(inner[..i]) + inner[i] + Flatten(inner[i + 1..])
    ensures |Flatten(inner[..i])| == Sum(Lengths(inner)[..i])
  {
    assert inner == inner[..i] + [inner[i]] + inner[i + 1..];
    FlattenConcat(inner[..i] + [inner[i]], inner[i + 1..]);
    FlattenConcat(inner[..i], [inner[i]]);
    assert Flatten([inner[i]]) == inner[i] by {
      assert [inner[i]][..0] == [];
    }
    LengthsPrefix(inner, i);
  }

  /**
   * Member j of inner sequence i sits at its starting index plus j in the
   * flattened sequence.
   */
  lemma FlattenMember<T>(inner: seq<seq<T>>, i: nat, j: nat)
    requires i < |inner| && j < |inner[i]|
    ensures Sum(Lengths(inner)[..i]) + j < |Flatten(inner)|
    ensures Flatten(inner)[Sum(Lengths(inner)[..i]) + j] == inner[i][j]
  {
    FlattenAt(inner, i);
  }

  /**
   * Replacing inner sequence index by t replaces its block in the flattened
   * sequence.
   */
  lemma FlattenReplaced<T>(inner: seq<seq<T>>, index: nat, t: seq<T>)
    requires index < |inner|
    ensures Flatten(inner[index := t]) == Flatten(inner[..index]) + t + Flatten(inner[index + 1..])
  {
    FlattenAt(inner[index := t], index);
    assert inner[index := t][..index] == inner[..index];
    assert inner[index := t][index + 1..] == inner[index + 1..];
  }

  /** Inserting inside the middle block of a + x + b. */
  lemma InsertedWithin<T>(a: seq<T>, x: seq<T>, b: seq<T>, k: nat, y: T)
    requires k <= |x|
    ensures a + Inserted(x, k, y) + b == Inserted(a + x + b, |a| + k, y)
  {
  }

  /** Removing inside the middle block of a + x + b. */
  lemma RemovedWithin<T>(a: seq<T>, x: seq<T>, b: seq<T>, k: nat)
    requires k < |x|
    ensures a + Removed(x, k) + b == Removed(a + x + b, |a| + k)
  {
    var lhs, rhs := a + Removed(x, k) + b, Removed(a + x + b, |a| + k);
    forall m | 0 <= m < |lhs| ensures lhs[m] == rhs[m] {
      if |a| + k <= m < |a| + |x| - 1 {
        assert lhs[m] == x[m - |a| + 1];
      }
    }
  }

  /** Swapping inside the middle block of a + x + b. */
  lemma SwappedWithin<T>(a: seq<T>, x: seq<T>, b: seq<T>, k1: nat, k2: nat)
    requires k1 < |x| && k2 < |x|
    ensures a + Swapped(x, k1, k2) + b == Swapped(a + x + b, |a| + k1, |a| + k2)
  {
    var lhs, rhs := a + Swapped(x, k1, k2) + b, Swapped(a + x + b, |a| + k1, |a| + k2);
    forall m | 0 <= m < |lhs| ensures lhs[m] == rhs[m] {
      if |a| <= m < |a| + |x| {
        assert lhs[m] == Swapped(x, k1, k2)[m - |a|];
      }
    }
  }

  /** Inserting into inner sequence index inserts at its start plus the offset. */
  lemma FlattenInnerInserted<T>(inner: seq<seq<T>>, index: nat, k: nat, x: T)
    requires index < |inner| && k <= |inner[index]|
    ensures var p := Sum(Lengths(inner)[..index]);
            p + k <= |Flatten(inner)| &&
            Flatten(inner[index := Inserted(inner[index], k, x)]) == Inserted(Flatten(inner), p + k, x)
  {
    FlattenAt(inner, index);
    FlattenReplaced(inner, index, Inserted(inner[index], k, x));
    InsertedWithin(Flatten(inner[..index]), inner[index], Flatten(inner[index + 1..]), k, x);
  }

  /** Removing from inner sequence index removes at its start plus the offset. */
  lemma FlattenInnerRemoved<T>(inner: seq<seq<T>>, index: nat, k: nat)
    requires index < |inner| && k < |inner[index]|
    ensures var p := Sum(Lengths(inner)[..index]);
            p + k < |Flatten(inner)| &&
            Flatten(inner[index := Removed(inner[index], k)]) == Removed(Flatten(inner), p + k)
  {
    FlattenAt(inner, index);
    FlattenReplaced(inner, index, Removed(inner[index], k));
    RemovedWithin(Flatten(inner[..index]), inner[index], Flatten(inner[index + 1..]), k);
  }

  /** Swapping within inner sequence index swaps at its start plus the offsets. */
  lemma FlattenInnerSwapped<T>(inner: seq<seq<T>>, index: nat, k1: nat, k2: nat)
    requires index < |inner| && k1 < |inner[index]| && k2 < |inner[index]|
    ensures var p := Sum(Lengths(inner)[..index]);
            p + k1 < |Flatten(inner)| && p + k2 < |Flatten(inner)| &&
            Flatten(inner[index := Swapped(inner[index], k1, k2)]) == Swapped(Flatten(inner), p + k1, p + k2)
  {
    FlattenAt(inner, index);
    FlattenReplaced(inner, index, Swapped(inner[index], k1, k2));
    SwappedWithin(Flatten(inner[..index]), inner[index], Flatten(inner[index + 1..]), k1, k2);
  }

  /** Removing inner sequence index removes its whole block. */
  lemma FlattenOuterRemoved<T>(inner: seq<seq<T>>, index: nat)
    requires index < |inner|
    ensures Flatten(inner) == Flatten(inner[..index]) + inner[index] + Flatten(inner[index + 1..])
    ensures Flatten(Removed(inner, index)) == Flatten(inner[..index]) + Flatten(inner[index + 1..])
  {
    FlattenAt(inner, index);
    assert Removed(inner, index) == inner[..index] + inner[index + 1..];
    FlattenConcat(inner[..index], inner[index + 1..]);
  }

  /** Inserting inner sequence t at index inserts its block at the start of index. */
  lemma FlattenOuterInserted<T>(inner: seq<seq<T>>, index: nat, t: seq<T>)
    requires index <= |inner|
    ensures Flatten(inner) == Flatten(inner[..index]) + Flatten(inner[index..])
    ensures |Flatten(inner[..index])| == Sum(Lengths(inner)[..index])
    ensures Flatten(Inserted(inner, index, t)) == Flatten(inner[..index]) + t + Flatten(inner[index..])
  {
    assert inner == inner[..index] + inner[index..];
    FlattenConcat(inner[..index], inner[index..]);
    LengthsPrefix(inner, index);
    assert Inserted(inner, index, t) == inner[..index] + [t] + inner[index..];
    FlattenConcat(inner[..index] + [t], inner[index..]);
    FlattenConcat(inner[..index], [t]);
    assert Flatten([t]) == t by {
      assert [t][..0] == [];
    }
  }

  /**
   * Swapping inner sequences i < j exchanges their blocks and leaves what is
   * before, between and after them in place.
   */
  lemma FlattenOuterSwapped<T>(inner: seq<seq<T>>, i: nat, j: nat)
    requires i < j < |inner|
    ensures |Flatten(inner[..i])| == Sum(Lengths(inner)[..i])
    ensures |Flatten(inner[..i])| + |inner[i]| + |Flatten(inner[i + 1..j])| == Sum(Lengths(inner)[..j])
    ensures Flatten(inner)
            == Flatten(inner[..i]) + inner[i] + Flatten(inner[i + 1..j]) + inner[j] + Flatten(inner[j + 1..])
    ensures Flatten(Swapped(inner, i, j))
            == Flatten(inner[..i]) + inner[j] + Flatten(inner[i + 1..j]) + inner[i] + Flatten(inner[j + 1..])
  {
    assert inner == inner[..i] + [inner[i]] + inner[i + 1..j] + [inner[j]] + inner[j + 1..];
    assert Swapped(inner, i, j) == inner[..i] + [inner[j]] + inner[i + 1..j] + [inner[i]] + inner[j + 1..];
    FlattenPieces(inner[..i], inner[i], inner[i + 1..j], inner[j], inner[j + 1..]);
    FlattenPieces(inner[..i], inner[j], inner[i + 1..j], inner[i], inner[j + 1..]);
    LengthsPrefix(inner, i);
    LengthsPrefix(inner, j);
    assert inner[..j] == inner[..i] + [inner[i]] + inner[i + 1..j];
    FlattenConcat(inner[..i] + [inner[i]], inner[i + 1..j]);
    FlattenConcat(inner[..i], [inner[i]]);
    assert Flatten([inner[i]]) == inner[i] by {
      assert [inner[i]][..0] == [];
    }
  }

  /** Flattening five consecutive pieces, the second and fourth single sequences. */
  lemma FlattenPieces<T>(a: seq<seq<T>>, x: seq<T>, b: seq<seq<T>>, y: seq<T>, c: seq<seq<T>>)
    ensures Flatten(a + [x] + b + [y] + c) == Flatten(a) + x + Flatten(b) + y + Flatten(c)
  {
    assert Flatten([x]) == x by {
      assert [x][..0] == [];
    }
    assert Flatten([y]) == y by {
      assert [y][..0] == [];
    }
    FlattenConcat(a + [x] + b + [y], c);
    FlattenConcat(a + [x] + b, [y]);
    FlattenConcat(a + [x], b);
    FlattenConcat(a, [x]);
  }

  /** Consecutive starting indices differ by the length between them; the last one by the rest of the total. */
  lemma StartsDifference(s: seq<int>, lengths: seq<nat>, k: nat)
    requires IsStarts(s, lengths) && k < |s|
    ensures k + 1 < |s| ==> s[k + 1] - s[k] == lengths[k]
    ensures k + 1 == |s| ==> Sum(lengths) - s[k] == lengths[k]
  {
    SumPrefixExtend(lengths, k);
    if k + 1 == |s| {
      assert lengths[..k + 1] == lengths;
    }
  }

  /** Changing one length moves every later starting index by the difference. */
  lemma StartsLengthChanged(s: seq<int>, lengths: seq<nat>, index: nat, v: nat, s2: seq<int>)
    requires IsStarts(s, lengths) && index < |lengths| && |s2| == |s|
    requires forall k {:trigger s2[k]} :: 0 <= k < |s2| ==> s2[k] == if k > index then s[k] - lengths[index] + v else s[k]
    ensures IsStarts(s2, lengths[index := v])
  {
    forall k | 0 <= k < |s2| ensures s2[k] == Sum(lengths[index := v][..k]) {
      SumPrefixUpdated(lengths, index, v, k);
    }
  }

  /**
   * Removing length r drops its starting index; the later ones move down by
   * that length.
   */
  lemma StartsRemoved(s: seq<int>, lengths: seq<nat>, r: nat, d: int, s2: seq<int>)
    requires IsStarts(s, lengths) && r < |lengths| && d == lengths[r] && |s2| == |s| - 1
    requires forall k {:trigger s2[k]} :: 0 <= k < |s2| ==> s2[k] == if k < r then s[k] else s[k + 1] - d
    ensures IsStarts(s2, Removed(lengths, r))
  {
    var rem: seq<nat> := Removed(lengths, r);
    forall k | 0 <= k < |s2| ensures s2[k] == Sum(rem[..k]) {
      SumPrefixRemoved(lengths, r, k);
      if k < r {
        assert s2[k] == s[k];
      } else {
        assert s2[k] == s[k + 1] - lengths[r];
        assert s[k + 1] == Sum(lengths[..k + 1]);
        if k == r {
          SumPrefixExtend(lengths, r);
        }
      }
    }
  }

  /** The starting indices followed by the total: entry k is the sum of the first k lengths, for k up to the count. */
  lemma StartsWithTotal(s: seq<int>, lengths: seq<nat>)
    requires IsStarts(s, lengths)
    ensures forall k :: 0 <= k < |s| + 1 ==> (s + [Sum(lengths)])[k] == Sum(lengths[..k])
  {
    assert lengths[..|s|] == lengths;
  }

  /**
   * Inserting length v at index keeps the earlier starting indices, gives the
   * new one the total of the lengths before it, and moves the later ones up by v.
   */
  lemma StartsInserted(lengths: seq<nat>, index: nat, v: nat, s2: seq<int>)
    requires index <= |lengths| && |s2| == |lengths| + 1
    requires forall k {:trigger s2[k]} :: 0 <= k < |s2| ==>
               s2[k] == if k <= index then Sum(lengths[..k]) else Sum(lengths[..k - 1]) + v
    ensures IsStarts(s2, Inserted(lengths, index, v))
  {
    var ins: seq<nat> := Inserted(lengths, index, v);
    forall k | 0 <= k < |s2| ensures s2[k] == Sum(ins[..k]) {
      SumPrefixInserted(lengths, index, v, k);
      if k <= index {
        assert s2[k] == Sum(lengths[..k]);
      } else {
        assert s2[k] == Sum(lengths[..k - 1]) + v;
      }
    }
  }

  /**
   * Swapping lengths i < j moves the starting indices after i up to j by the
   * difference of the two lengths.
   */
  lemma StartsSwapped(s: seq<int>, lengths: seq<nat>, i: nat, j: nat, s2: seq<int>)
    requires IsStarts(s, lengths) && i < j < |lengths| && |s2| == |s|
    requires forall k :: 0 <= k < |s2| ==> s2[k] == if i < k <= j then s[k] - lengths[i] + lengths[j] else s[k]
    ensures IsStarts(s2, Swapped(lengths, i, j))
  {
    forall k | 0 <= k < |s2| ensures s2[k] == Sum(Swapped(lengths, i, j)[..k]) {
      SumPrefixSwapped(lengths, i, j, k);
    }
  }

  /** The lengths after one inner sequence is replaced. */
  lemma LengthsReplaced<T>(inner: seq<seq<T>>, index: nat, t: seq<T>)
    requires index < |inner|
    ensures Lengths(inner[index := t]) == Lengths(inner)[index := |t|]
  {
  }

  /** Removing an inner sequence removes its length. */
  lemma LengthsRemoved<T>(inner: seq<seq<T>>, index: nat)
    requires index < |inner|
    ensures Lengths(Removed(inner, index)) == Removed(Lengths(inner), index)
  {
  }

  /** Swapping two inner sequences swaps their lengths. */
  lemma LengthsSwapped<T>(inner: seq<seq<T>>, i: nat, j: nat)
    requires i < |inner| && j < |inner|
    ensures Lengths(Swapped(inner, i, j)) == Swapped(Lengths(inner), i, j)
  {
  }

  /** Inserting an inner sequence inserts its length, also at the end. */
  lemma LengthsInserted<T>(inner: seq<seq<T>>, index: nat, t: seq<T>)
    requires index <= |inner|
    ensures Lengths(Inserted(inner, index, t)) == Inserted(Lengths(inner), index, |t|)
  {
  }
}
