// Size attributes of collection domains: an optional lower and upper bound
// on the number of members, with a tag saying which bounds the model gave.

module SizeAttrs {
  import opened Common

  datatype SizeAttrType = NO_SIZE | EXACT_SIZE | MIN_SIZE | MAX_SIZE | SIZE_RANGE

  datatype SizeAttr = SizeAttr(sizeType: SizeAttrType, minSize: nat, maxSize: nat)

  /** The sizes an attribute allows. */
  predicate Admits(attr: SizeAttr, size: nat) {
    attr.minSize <= size <= attr.maxSize
  }

  /** No bound: every representable size is allowed. */
  function NoSize(): (r: SizeAttr)
    ensures r.sizeType == NO_SIZE
    ensures forall n: nat :: Admits(r, n) <==> n <= UINT64_MAX
  {
    SizeAttr(NO_SIZE, 0, UINT64_MAX)
  }

  /** Exactly `size` members. */
  function ExactSize(size: nat): (r: SizeAttr)
    ensures r.sizeType == EXACT_SIZE
    ensures forall n: nat :: Admits(r, n) <==> n == size
  {
    SizeAttr(EXACT_SIZE, size, size)
  }

  /** At least `minSize` members, with no upper bound below the integer range. */
  function MinSize(minSize: nat): (r: SizeAttr)
    ensures r.sizeType == MIN_SIZE
    ensures forall n: nat :: Admits(r, n) <==> minSize <= n <= UINT64_MAX
  {
    SizeAttr(MIN_SIZE, minSize, UINT64_MAX)
  }

  /** At most `maxSize` members. */
  function MaxSize(maxSize: nat): (r: SizeAttr)
    ensures r.sizeType == MAX_SIZE
    ensures forall n: nat :: Admits(r, n) <==> n <= maxSize
  {
    SizeAttr(MAX_SIZE, 0, maxSize)
  }

  /** Between `minSize` and `maxSize` members, both stored as given. */
  function SizeRange(minSize: nat, maxSize: nat): (r: SizeAttr)
    ensures r.sizeType == SIZE_RANGE && r.minSize == minSize && r.maxSize == maxSize
    ensures forall n: nat :: Admits(r, n) <==> minSize <= n <= maxSize
  {
    SizeAttr(SIZE_RANGE, minSize, maxSize)
  }
}
