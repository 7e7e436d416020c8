// A cache of the last value seen for each operand position.  Operators keep
// it aligned with their operand sequence: inserting or erasing an operand
// inserts or erases the cached entry at the same position.

module PreviousValueCaches {

  class PreviousValueCache<V> {
    var contents: seq<V>

    constructor ()
      ensures contents == []
    {
      contents := [];
    }

    function Size(): (n: nat)
      reads this
      ensures n == |contents|
    {
      |contents|
    }

    /** The cached value at index. */
    function Get(index: nat): (v: V)
      reads this
      requires index < |contents|
      ensures v == contents[index] && v in contents
    {
      contents[index]
    }

    /** Overwrites the entry at index. */
    method Set(index: nat, value: V)
      requires index < |contents|
      modifies this
      ensures |contents| == old(|contents|)
      ensures contents[index] == value
      ensures forall i :: 0 <= i < |contents| && i != index ==> contents[i] == old(contents[i])
    {
      contents := contents[index := value];
    }

    /** Stores value at index and returns what was there before. */
    method GetAndSet(index: nat, value: V) returns (oldValue: V)
      requires index < |contents|
      modifies this
      ensures oldValue == old(contents[index])
      ensures contents == old(contents)[index := value]
    {
      oldValue := Get(index);
      Set(index, value);
    }

    /** Inserts value before position index, moving later entries one right. */
    method Insert(index: nat, value: V)
      requires index <= |contents|
      modifies this
      ensures |contents| == old(|contents|) + 1
      ensures contents[index] == value
      ensures forall i :: 0 <= i < index ==> contents[i] == old(contents[i])
      ensures forall i :: index < i < |contents| ==> contents[i] == old(contents[i - 1])
    {
      contents := contents[..index] + [value] + contents[index..];
    }

    /** Removes the entry at index, moving later entries one left; returns it. */
    method Erase(index: nat) returns (oldValue: V)
      requires index < |contents|
      modifies this
      ensures oldValue == old(contents[index])
      ensures |contents| == old(|contents|) - 1
      ensures forall i :: 0 <= i < index ==> contents[i] == old(contents[i])
      ensures forall i :: index <= i < |contents| ==> contents[i] == old(contents[i + 1])
      ensures old(contents) == contents[..index] + [oldValue] + contents[index..]
    {
      oldValue := Get(index);
      contents := contents[..index] + contents[index + 1..];
    }

    /**
     * Removes the entry at index by moving the last entry into its place;
     * returns the removed entry.
     */
    method SwapErase(index: nat) returns (oldValue: V)
      requires index < |contents|
      modifies this
      ensures oldValue == old(contents[index])
      ensures |contents| == old(|contents|) - 1
      ensures index < |contents| ==> contents[index] == old(contents[|contents| - 1])
      ensures forall i :: 0 <= i < |contents| && i != index ==> contents[i] == old(contents[i])
      ensures multiset(old(contents)) == multiset(contents) + multiset{oldValue}
    {
      var last := |contents| - 1;
      var a, b := contents[index], contents[last];
      contents := contents[index := b][last := a];
      assert multiset(contents) == multiset(old(contents));
      oldValue := Erase(last);
      assert contents + [oldValue] == old(contents)[index := b][last := a];
    }
  }
}
