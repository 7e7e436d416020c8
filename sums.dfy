// Sums of sequences of naturals, as kept by the operators and containers
// that maintain a running total of violations.

module Sums {
  import opened Common
  import opened SequenceSwaps
  import opened ExtremeIndices

  /** The sum of a sequence of naturals. */
  function Sum(s: seq<nat>): (r: nat) {
    if |s| == 0 then 0 else Sum(s[..|s| - 1]) + s[|s| - 1]
  }

  /** Changing one entry changes the sum by the difference. */
  lemma {:induction false} SumUpdate(s: seq<nat>, i: nat, v: nat)
    requires i < |s|
    ensures Sum(s[i := v]) == Sum(s) - s[i] + v
  {
    var n := |s|;
    if i == n - 1 {
      assert s[i := v][..n - 1] == s[..n - 1];
    } else {
      assert s[i := v][..n - 1] == s[..n - 1][i := v];
      SumUpdate(s[..n - 1], i, v);
    }
  }

  /** Padding with zeros leaves the sum alone. */
  lemma {:induction false} SumPadded(s: seq<nat>, k: nat)
    ensures Sum(s + seq(k, _ => 0)) == Sum(s)
  {
    var t := s + seq(k, _ => 0);
    if k == 0 {
      assert t == s;
    } else {
      assert t[..|t| - 1] == s + seq(k - 1, _ => 0);
      assert t[|t| - 1] == 0;
      SumPadded(s, k - 1);
    }
  }

  /** A sequence of zeros sums to zero. */
  lemma {:induction false} SumZeros(k: nat)
    ensures Sum(seq(k, _ => 0)) == 0
  {
    SumPadded([], k);
    assert [] + seq(k, _ => 0) == seq(k, _ => 0);
  }

  /** No entry exceeds the sum. */
  lemma {:induction false} EntryAtMostSum(s: seq<nat>, i: nat)
    requires i < |s|
    ensures s[i] <= Sum(s)
  {
    if i < |s| - 1 {
      EntryAtMostSum(s[..|s| - 1], i);
    }
  }

  /** The sum of a concatenation is the sum of the parts. */
  lemma {:induction false} SumConcat(a: seq<nat>, b: seq<nat>)
    ensures Sum(a + b) == Sum(a) + Sum(b)
    decreases |b|
  {
    if |b| == 0 {
      assert a + b == a;
    } else {
      DropLastConcat(a, b);
      SumConcat(a, b[..|b| - 1]);
    }
  }

  /** The sum is zero exactly when every entry is. */
  lemma {:induction false} SumZeroIffAllZero(s: seq<nat>)
    ensures Sum(s) == 0 <==> forall i :: 0 <= i < |s| ==> s[i] == 0
  {
    if |s| > 0 {
      SumZeroIffAllZero(s[..|s| - 1]);
      if Sum(s) == 0 {
        forall i | 0 <= i < |s| ensures s[i] == 0 {
          if i < |s| - 1 {
            assert s[i] == s[..|s| - 1][i];
          }
        }
      } else if s[|s| - 1] == 0 {
        var i :| 0 <= i < |s| - 1 && s[..|s| - 1][i] != 0;
        assert s[i] != 0;
      }
    }
  }

  /** The sum of a slice is at most the sum of the whole. */
  lemma SumSliceAtMost(s: seq<nat>, lo: nat, hi: nat)
    requires lo <= hi <= |s|
    ensures Sum(s[lo..hi]) <= Sum(s)
  {
    assert s == s[..lo] + s[lo..hi] + s[hi..];
    SumConcat(s[..lo] + s[lo..hi], s[hi..]);
    SumConcat(s[..lo], s[lo..hi]);
  }

  /** Extending a slice by one entry adds that entry to its sum. */
  lemma SumSliceExtend(s: seq<nat>, lo: nat, hi: nat)
    requires lo <= hi < |s|
    ensures Sum(s[lo..hi + 1]) == Sum(s[lo..hi]) + s[hi]
  {
    assert s[lo..hi + 1][..hi - lo] == s[lo..hi];
  }

  /** A single entry sums to itself. */
  lemma SumOne(v: nat)
    ensures Sum([v]) == v
  {
    assert [v][..0] == [];
  }

  /** The sum of a concatenation of three. */
  lemma SumConcat3(a: seq<nat>, b: seq<nat>, c: seq<nat>)
    ensures Sum(a + b + c) == Sum(a) + Sum(b) + Sum(c)
  {
    SumConcat(a + b, c);
    SumConcat(a, b);
  }

  /** Inserting an entry adds it to the sum. */
  lemma SumInserted(s: seq<nat>, index: nat, v: nat)
    requires index <= |s|
    ensures Sum(Inserted(s, index, v)) == Sum(s) + v
  {
    SplitPrefix(s, index);
    SumConcat(s[..index], s[index..]);
    SumConcat3(s[..index], [v], s[index..]);
    SumOne(v);
  }

  /** Removing an entry takes it off the sum. */
  lemma SumRemoved(s: seq<nat>, index: nat)
    requires index < |s|
    ensures Sum(Removed(s, index)) == Sum(s) - s[index]
  {
    SplitAt(s, index);
    SumConcat3(s[..index], [s[index]], s[index + 1..]);
    SumConcat(s[..index], s[index + 1..]);
    SumOne(s[index]);
  }

  /** Swapping two entries keeps the sum. */
  lemma SumSwapped(s: seq<nat>, i: nat, j: nat)
    requires i < |s| && j < |s|
    ensures Sum(Swapped(s, i, j)) == Sum(s)
  {
    SumUpdate(s, i, s[j]);
    SumUpdate(s[i := s[j]], j, s[i]);
  }

  /** The sum of a prefix after one entry changed. */
  lemma SumPrefixUpdated(s: seq<nat>, index: nat, v: nat, k: nat)
    requires index < |s| && k <= |s|
    ensures Sum(s[index := v][..k]) == if k <= index then Sum(s[..k]) else Sum(s[..k]) - s[index] + v
  {
    if k <= index {
      assert s[index := v][..k] == s[..k];
    } else {
      assert s[index := v][..k] == s[..k][index := v];
      SumUpdate(s[..k], index, v);
    }
  }

  /** The sum of a prefix after an entry was inserted. */
  lemma SumPrefixInserted(s: seq<nat>, index: nat, v: nat, k: nat)
    requires index <= |s| && k <= |s| + 1
    ensures Sum(Inserted(s, index, v)[..k]) == if k <= index then Sum(s[..k]) else Sum(s[..k - 1]) + v
  {
    if k <= index {
      assert Inserted(s, index, v)[..k] == s[..k];
    } else {
      assert Inserted(s, index, v)[..k] == Inserted(s[..k - 1], index, v);
      SumInserted(s[..k - 1], index, v);
    }
  }

  /** The sum of a prefix after an entry was removed. */
  lemma SumPrefixRemoved(s: seq<nat>, index: nat, k: nat)
    requires index < |s| && k < |s|
    ensures Sum(Removed(s, index)[..k]) == if k <= index then Sum(s[..k]) else Sum(s[..k + 1]) - s[index]
  {
    if k <= index {
      assert Removed(s, index)[..k] == s[..k];
    } else {
      assert Removed(s, index)[..k] == Removed(s[..k + 1], index);
      SumRemoved(s[..k + 1], index);
    }
  }

  /** The sum of a prefix after entries i < j were swapped. */
  lemma SumPrefixSwapped(s: seq<nat>, i: nat, j: nat, k: nat)
    requires i < j < |s| && k <= |s|
    ensures Sum(Swapped(s, i, j)[..k])
            == if k <= i || j < k then Sum(s[..k]) else Sum(s[..k]) - s[i] + s[j]
  {
    if k <= i {
      assert Swapped(s, i, j)[..k] == s[..k];
    } else if k <= j {
      assert Swapped(s, i, j)[..k] == s[..k][i := s[j]];
      SumUpdate(s[..k], i, s[j]);
    } else {
      assert Swapped(s, i, j)[..k] == Swapped(s[..k], i, j);
      SumSwapped(s[..k], i, j);
    }
  }

  /** Extending a prefix by one entry adds that entry to its sum. */
  lemma SumPrefixExtend(s: seq<nat>, k: nat)
    requires k < |s|
    ensures Sum(s[..k + 1]) == Sum(s[..k]) + s[k]
  {
    assert s[..k + 1][..k] == s[..k];
  }
}
