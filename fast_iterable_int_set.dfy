// An integer set over a fixed range [minElement, maxElement] that can be
// iterated quickly: `contents` lists the elements in insertion order (with
// swap-with-last removal) and `elementIndexes` maps each value of the range to
// its position in `contents` plus one, 0 meaning "not present".

module FastIterableIntSets {
  import opened Common

  /** A sequence without repeated elements. */
  ghost predicate Distinct<T>(s: seq<T>) {
    forall i, j :: 0 <= i < j < |s| ==> s[i] != s[j]
  }

  /** The set of elements of a sequence. */
  ghost function Elems<T>(s: seq<T>): (r: set<T>) {
    set x | x in s
  }

  /** A sequence without repeats has as many elements as its set. */
  lemma {:induction false} DistinctCardinality<T>(s: seq<T>)
    requires Distinct(s)
    ensures |Elems(s)| == |s|
  {
    if |s| > 0 {
      var t := s[..|s| - 1];
      assert Distinct(t);
      DistinctCardinality(t);
      assert Elems(s) == Elems(t) + {s[|s| - 1]};
      assert s[|s| - 1] !in Elems(t);
    }
  }

  /** Slot k of elementIndexes is empty or names the position of value k + minElement. */
  ghost predicate SlotPoints(minElement: int, contents: seq<int>, elementIndexes: seq<nat>, k: int)
    requires 0 <= k < |elementIndexes|
  {
    elementIndexes[k] != 0 ==>
      elementIndexes[k] - 1 < |contents| && contents[elementIndexes[k] - 1] == k + minElement
  }

  /** Every listed element points back at its slot and every occupied slot at its element. */
  ghost predicate Consistent(minElement: int, contents: seq<int>, elementIndexes: seq<nat>) {
    (forall i :: 0 <= i < |contents| ==>
       minElement <= contents[i] < minElement + |elementIndexes|
       && elementIndexes[contents[i] - minElement] == i + 1)
    && (forall k :: 0 <= k < |elementIndexes| ==> SlotPoints(minElement, contents, elementIndexes, k))
  }

  /** The swap-with-last removal keeps the two vectors consistent. */
  lemma EraseConsistent(m: int, c: seq<int>, ei: seq<nat>, e: int)
    requires Consistent(m, c, ei) && m <= e < m + |ei| && ei[e - m] != 0
    requires SlotPoints(m, c, ei, e - m)
    ensures var index := ei[e - m] - 1;
            var last := c[|c| - 1];
            var c2 := c[index := last][..|c| - 1];
            var ei2 := ei[last - m := index + 1][e - m := 0];
            Consistent(m, c2, ei2) && Elems(c2) == Elems(c) - {e}
  {
    var index := ei[e - m] - 1;
    var n := |c|;
    var last := c[n - 1];
    var c2 := c[index := last][..n - 1];
    var ei2 := ei[last - m := index + 1][e - m := 0];
    assert SlotPoints(m, c, ei, e - m);
    assert c[index] == e;
    forall i | 0 <= i < |c2|
      ensures m <= c2[i] < m + |ei2| && ei2[c2[i] - m] == i + 1
    {
      if i == index {
        assert c2[i] == last;
      } else {
        assert c2[i] == c[i];
        assert ei[c[i] - m] == i + 1;
        assert ei[last - m] == n;
      }
    }
    forall k | 0 <= k < |ei2|
      ensures SlotPoints(m, c2, ei2, k)
    {
      if k == last - m || ei2[k] == 0 {
      } else {
        assert ei2[k] == ei[k];
        assert SlotPoints(m, c, ei, k);
        var j := ei[k] - 1;
        assert c[j] == k + m;
        assert j != index;
      }
    }
    forall x ensures x in Elems(c2) <==> x in Elems(c) - {e} {
      if x in Elems(c) - {e} {
        var i :| 0 <= i < n && c[i] == x;
        if i == n - 1 { assert c2[index] == x; } else { assert i != index; assert c2[i] == x; }
      }
      if x in Elems(c2) {
        var i :| 0 <= i < |c2| && c2[i] == x;
        assert ei2[x - m] == i + 1;
      }
    }
  }

  class FastIterableIntSet {
    const minElement: int
    var contents: seq<int>
    var elementIndexes: seq<nat>

    /** Values the set can hold: the range given to the constructor. */
    ghost predicate InRange(e: int)
      reads this
    {
      minElement <= e < minElement + |elementIndexes|
    }

    /** contents and elementIndexes describe each other (index + 1 stored). */
    ghost predicate Valid()
      reads this
    {
      Consistent(minElement, contents, elementIndexes)
    }

    ghost function Elements(): (r: set<int>)
      reads this
    {
      Elems(contents)
    }

    lemma ContentsDistinct()
      requires Valid()
      ensures Distinct(contents)
    {
      forall i, j | 0 <= i < j < |contents| ensures contents[i] != contents[j] {
        assert elementIndexes[contents[i] - minElement] == i + 1;
        assert elementIndexes[contents[j] - minElement] == j + 1;
      }
    }

    constructor (minElement: int, maxElement: int)
      requires minElement <= maxElement + 1
      ensures Valid() && Elements() == {}
      ensures this.minElement == minElement
      ensures |elementIndexes| == maxElement + 1 - minElement
    {
      this.minElement := minElement;
      contents := [];
      elementIndexes := seq(maxElement + 1 - minElement, _ => 0);
    }

    /** 1 when the element is present, 0 otherwise. */
    function Count(e: int): (c: nat)
      reads this
      requires Valid() && InRange(e)
      ensures c == (if e in Elements() then 1 else 0)
    {
      if elementIndexes[e - minElement] != 0 then
        assert SlotPoints(minElement, contents, elementIndexes, e - minElement);
        assert contents[elementIndexes[e - minElement] - 1] == e;
        1
      else
        assert forall i :: 0 <= i < |contents| ==> contents[i] != e by {
          forall i | 0 <= i < |contents| ensures contents[i] != e {
            assert elementIndexes[contents[i] - minElement] == i + 1;
          }
        }
        0
    }

    /** The number of elements of the set. */
    function Size(): (n: nat)
      reads this
      requires Valid()
      ensures n == |Elements()|
    {
      ContentsDistinct();
      DistinctCardinality(contents);
      |contents|
    }

    /** Inserts e unless present; the result says whether it was inserted. */
    method Insert(e: int) returns (inserted: bool)
      requires Valid() && InRange(e)
      modifies this
      ensures Valid()
      ensures inserted == (e !in old(Elements()))
      ensures Elements() == old(Elements()) + {e}
      ensures |contents| == old(|contents|) + (if inserted then 1 else 0)
      ensures !inserted ==> contents == old(contents) && elementIndexes == old(elementIndexes)
      ensures |elementIndexes| == old(|elementIndexes|)
    {
      var c := Count(e);
      if c == 1 {
        inserted := false;
      } else {
        ghost var c0, ei0 := contents, elementIndexes;
        contents := contents + [e];
        elementIndexes := elementIndexes[e - minElement := |contents|];
        inserted := true;
        forall k | 0 <= k < |elementIndexes|
          ensures SlotPoints(minElement, contents, elementIndexes, k)
        {
          assert SlotPoints(minElement, c0, ei0, k);
        }
        assert contents[|contents| - 1] == e;
        assert Elements() == old(Elements()) + {e} by {
          assert contents[..|contents| - 1] == old(contents);
        }
      }
    }

    /** Removes e if present, moving the last element into its slot; returns 1 or 0. */
    method Erase(e: int) returns (removed: nat)
      requires Valid() && InRange(e)
      modifies this
      ensures Valid()
      ensures removed == (if e in old(Elements()) then 1 else 0)
      ensures Elements() == old(Elements()) - {e}
      ensures |contents| == old(|contents|) - removed
      ensures removed == 0 ==> contents == old(contents) && elementIndexes == old(elementIndexes)
      ensures |elementIndexes| == old(|elementIndexes|)
    {
      var c := Count(e);
      if c == 0 {
        removed := 0;
      } else {
        assert SlotPoints(minElement, contents, elementIndexes, e - minElement);
        EraseConsistent(minElement, contents, elementIndexes, e);
        var index := elementIndexes[e - minElement] - 1;
        var n := |contents|;
        var last := contents[n - 1];
        contents := contents[index := last];
        elementIndexes := elementIndexes[last - minElement := index + 1];
        contents := contents[..n - 1];
        elementIndexes := elementIndexes[e - minElement := 0];
        removed := 1;
      }
    }
  }
}
