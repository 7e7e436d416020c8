// A fixed set of boolean flags packed eight to a byte.  Flag number i lives
// in bit i % 8 of byte i / 8.

module FlagSets {

  /** ARRAY_SIZE: enough bytes for n flags, that is n / 8 rounded up. */
  function ArraySize(n: nat): (r: nat)
    ensures n <= 8 * r < n + 8
    ensures forall i: nat :: i < n ==> i / 8 < r
  {
    n / 8 + if n % 8 != 0 then 1 else 0
  }

  /** Bit k of a byte. */
  function BitOf(flag: bv8, k: nat): (r: bool)
    requires k < 8
  {
    flag & ((1 as bv8) << k) != 0
  }

  /**
   * Reference::operator=: clears bit k of the byte, then ors in the new
   * value shifted into place.
   */
  function SetBit(flag: bv8, k: nat, value: bool): (r: bv8)
    requires k < 8
  {
    var cleared := flag & !((1 as bv8) << k);
    var mask: bv8 := if value then 1 else 0;
    cleared | (mask << k)
  }

  /** After SetBit, bit k holds the value. */
  lemma SetBitSame(flag: bv8, k: nat, value: bool)
    requires k < 8
    ensures BitOf(SetBit(flag, k, value), k) == value
  {
  }

  /** SetBit leaves every other bit as it was. */
  lemma SetBitOther(flag: bv8, k: nat, value: bool, j: nat)
    requires k < 8 && j < 8 && j != k
    ensures BitOf(SetBit(flag, k, value), j) == BitOf(flag, j)
  {
    var a: bv8 := (1 as bv8) << k;
    var b: bv8 := (1 as bv8) << j;
    assert a & b == 0;
  }

  class FlagSet {
    /** NUMBER_FLAGS: how many flags the set holds. */
    const numberFlags: nat
    /** bits: the packed flags. */
    const bits: array<bv8>

    ghost predicate Valid()
      reads this
    {
      bits.Length == ArraySize(numberFlags)
    }

    /** The value of flag rawIndex (get and Reference's conversion to bool). */
    function Get(rawIndex: nat): (r: bool)
      reads this, bits
      requires Valid() && rawIndex < numberFlags
    {
      BitOf(bits[rawIndex / 8], rawIndex % 8)
    }

    /** The default constructor: every flag false. */
    constructor (numberFlags: nat)
      ensures Valid() && this.numberFlags == numberFlags && fresh(bits)
      ensures forall i: nat :: i < numberFlags ==> !Get(i)
    {
      this.numberFlags := numberFlags;
      bits := new bv8[ArraySize(numberFlags)](_ => 0);
    }

    /** Construction from an array of booleans, one per flag, set in order. */
    constructor FromArray(initArray: seq<bool>)
      ensures Valid() && numberFlags == |initArray| && fresh(bits)
      ensures forall i: nat :: i < numberFlags ==> Get(i) == initArray[i]
    {
      numberFlags := |initArray|;
      bits := new bv8[ArraySize(|initArray|)](_ => 0);
      new;
      var index := 0;
      while index < |initArray|
        invariant 0 <= index <= |initArray| && Valid()
        invariant forall i: nat :: i < index ==> Get(i) == initArray[i]
      {
        Set(index, initArray[index]);
        index := index + 1;
      }
    }

    /**
     * Assigning through a Reference: flag rawIndex takes the given value and
     * every other flag keeps its own.
     */
    method Set(rawIndex: nat, value: bool)
      requires Valid() && rawIndex < numberFlags
      modifies bits
      ensures Valid()
      ensures Get(rawIndex) == value
      ensures forall i: nat :: i < numberFlags && i != rawIndex ==> Get(i) == old(Get(i))
    {
      var arrayIndex := rawIndex / 8;
      var flag := bits[arrayIndex];
      bits[arrayIndex] := SetBit(flag, rawIndex % 8, value);
      SetBitSame(flag, rawIndex % 8, value);
      forall i: nat | i < numberFlags && i != rawIndex
        ensures Get(i) == old(Get(i))
      {
        if i / 8 == arrayIndex {
          SetBitOther(flag, rawIndex % 8, value, i % 8);
        }
      }
    }
  }
}
