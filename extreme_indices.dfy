// The sets of operand positions that hold a given value, as kept by the
// operators that track which operands attain their minimum or maximum, and
// how those sets move when an operand is inserted, removed, changed or
// swapped with another.

module ExtremeIndices {
  import opened ShiftIndices
  import opened SequenceSwaps

  /** The positions of s holding x. */
  function IndicesOf<T(==)>(s: seq<T>, x: T): (r: set<int>)
    ensures forall k :: k in r <==> 0 <= k < |s| && s[k] == x
  {
    set k | 0 <= k < |s| && s[k] == x
  }

  /** Extending a prefix by position i adds i when it holds x. */
  lemma IndicesOfPrefix<T>(s: seq<T>, i: nat, x: T)
    requires i < |s|
    ensures IndicesOf(s[..i + 1], x) == IndicesOf(s[..i], x) + (if s[i] == x then {i} else {})
  {
  }

  /** The sequence with y inserted at position index. */
  function Inserted<T>(s: seq<T>, index: nat, y: T): (r: seq<T>)
    requires index <= |s|
    ensures |r| == |s| + 1 && r[index] == y
    ensures forall k :: 0 <= k < index ==> r[k] == s[k]
    ensures forall k :: index < k < |r| ==> r[k] == s[k - 1]
  {
    s[..index] + [y] + s[index..]
  }

  /** The sequence with position index taken out. */
  function Removed<T>(s: seq<T>, index: nat): (r: seq<T>)
    requires index < |s|
    ensures |r| == |s| - 1
    ensures forall k :: 0 <= k < index ==> r[k] == s[k]
    ensures forall k :: index <= k < |r| ==> r[k] == s[k + 1]
  {
    s[..index] + s[index + 1..]
  }

  /** Removing what was inserted gives back the original sequence. */
  lemma RemovedInserted<T>(s: seq<T>, index: nat, y: T)
    requires index <= |s|
    ensures Removed(Inserted(s, index, y), index) == s
  {
    var t := Removed(Inserted(s, index, y), index);
    assert |t| == |s|;
    forall k | 0 <= k < |s| ensures t[k] == s[k] {
      if k >= index {
        assert t[k] == Inserted(s, index, y)[k + 1];
      }
    }
  }

  /** Inserting an operand renumbers the later positions and adds the new one if it holds x. */
  lemma IndicesOfInserted<T>(s: seq<T>, index: nat, y: T, x: T)
    requires index <= |s|
    ensures IndicesOf(Inserted(s, index, y), x)
            == ShiftedUp(IndicesOf(s, x), index) + (if y == x then {index} else {})
  {
    var t := Inserted(s, index, y);
    var lhs := IndicesOf(t, x);
    var rhs := ShiftedUp(IndicesOf(s, x), index) + (if y == x then {index} else {});
    forall k | k in lhs ensures k in rhs {
      if k < index {
        assert k in IndicesOf(s, x);
      } else if k > index {
        assert k - 1 in IndicesOf(s, x);
      }
    }
    forall k | k in rhs ensures k in lhs {
      if k != index || y != x {
        var e :| e in IndicesOf(s, x) && k == (if e >= index then e + 1 else e);
      }
    }
  }

  /** Removing an operand drops its position and renumbers the later ones. */
  lemma IndicesOfRemoved<T>(s: seq<T>, index: nat, x: T)
    requires index < |s|
    ensures IndicesOf(Removed(s, index), x) == ShiftedDown(IndicesOf(s, x) - {index}, index)
  {
    var t := Removed(s, index);
    var lhs := IndicesOf(t, x);
    var rhs := ShiftedDown(IndicesOf(s, x) - {index}, index);
    forall k | k in lhs ensures k in rhs {
      if k < index {
        assert k in IndicesOf(s, x) - {index};
      } else {
        assert k + 1 in IndicesOf(s, x) - {index};
      }
    }
    forall k | k in rhs ensures k in lhs {
      var e :| e in IndicesOf(s, x) - {index} && k == (if e > index then e - 1 else e);
    }
  }

  /** Changing one operand adds or drops its position only. */
  lemma IndicesOfUpdated<T>(s: seq<T>, index: nat, y: T, x: T)
    requires index < |s|
    ensures IndicesOf(s[index := y], x)
            == if y == x then IndicesOf(s, x) + {index} else IndicesOf(s, x) - {index}
  {
  }

  /**
   * The membership of two positions in an index set exchanged: when exactly
   * one of them is in the set, it is replaced by the other.
   */
  function SwappedMembership(m: set<int>, i: int, j: int): (r: set<int>)
    ensures i in r <==> j in m
    ensures j in r <==> i in m
    ensures forall k :: k != i && k != j ==> (k in r <==> k in m)
  {
    if i in m && j !in m then m - {i} + {j}
    else if i !in m && j in m then m - {j} + {i}
    else m
  }

  /** Swapping two operands exchanges the membership of their positions. */
  lemma IndicesOfSwapped<T>(s: seq<T>, i: nat, j: nat, x: T)
    requires i < |s| && j < |s|
    ensures IndicesOf(Swapped(s, i, j), x) == SwappedMembership(IndicesOf(s, x), i, j)
  {
  }

  /** Exchanging membership twice restores the set, and never changes its size. */
  lemma SwappedMembershipTwice(m: set<int>, i: int, j: int)
    ensures SwappedMembership(SwappedMembership(m, i, j), i, j) == m
    ensures |SwappedMembership(m, i, j)| == |m|
  {
    var r := SwappedMembership(m, i, j);
    if i in m && j !in m {
      assert |m - {i}| == |m| - 1;
    } else if i !in m && j in m {
      assert |m - {j}| == |m| - 1;
    }
  }
}
