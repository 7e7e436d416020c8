// Partition domains and values.  A domain tightens its size attributes
// (number of parts, size of each part) against the number of elements of
// the inner domain; a value is built by assigning each member to a part.

module Partitions {
  import opened Common
  import opened SizeAttrs

  /** l / r rounded up. */
  function CeilDiv(l: nat, r: nat): (q: nat)
    requires r > 0
    ensures q * r >= l
    ensures q == 0 || (q - 1) * r < l
  {
    var q := l / r + (if l % r != 0 then 1 else 0);
    assert l == (l / r) * r + l % r;
    q
  }

  /** The elements taken by `parts` parts of `size` elements each. */
  function Filled(parts: nat, size: nat): (r: nat) {
    parts * size
  }

  /** How many parts of `size` elements fit into n elements. */
  function Fitting(n: nat, size: nat): (r: nat)
    requires size > 0
  {
    n / size
  }

  /** Unsigned 64-bit subtraction, wrapping below zero. */
  function SubWrap(a: nat, b: nat): (r: nat)
    ensures r <= UINT64_MAX
    ensures a <= UINT64_MAX && b <= a ==> r == a - b
  {
    (a - b) % (UINT64_MAX + 1)
  }

  /**
   * np and ps are the attributes fixAttributes assigns to np0 and ps0 over
   * n elements: minimums raised to 1, maximums lowered to n, the maximum
   * number of parts to n / minimum part size, the maximum part size to what
   * is left after filling all but one part with minimum-sized parts, and
   * the minimum number of parts to n / maximum part size rounded up (the
   * last step only when that maximum is not 0, where the source divides by
   * zero).
   */
  ghost predicate Fixed(np0: SizeAttr, ps0: SizeAttr, n: nat, np: SizeAttr, ps: SizeAttr) {
    var psMin := Max(ps0.minSize, 1);
    var npMin := Max(np0.minSize, 1);
    var psMax := Min(Min(ps0.maxSize, n), SubWrap(n, Filled(npMin - 1, psMin)));
    && ps.minSize == psMin
    && ps.maxSize == psMax
    && np.maxSize == Min(Min(np0.maxSize, n), Fitting(n, psMin))
    && np.minSize == (if psMax == 0 then npMin else Max(npMin, CeilDiv(n, psMax)))
  }

  class PartitionDomain {
    var regular: bool
    var numberParts: SizeAttr
    var partSize: SizeAttr
    const numberElements: nat

    /**
     * Builds the domain and fixes its attributes against the number of
     * elements, so that the attributes are consistent from the start.
     */
    constructor (regular: bool, numberParts: SizeAttr, partSize: SizeAttr, numberElements: nat)
      requires numberElements <= UINT64_MAX
      ensures this.numberElements == numberElements
      ensures Fixed(numberParts, partSize, numberElements, this.numberParts, this.partSize)
      ensures this.partSize.maxSize > 0 ==>
                this.regular == (regular || this.partSize.minSize == this.partSize.maxSize)
      ensures this.partSize.maxSize > 0 ==>
                (this.partSize.sizeType == EXACT_SIZE <==> this.partSize.minSize == this.partSize.maxSize)
      ensures this.partSize.maxSize > 0 ==>
                (this.numberParts.sizeType == EXACT_SIZE <==> this.numberParts.minSize == this.numberParts.maxSize)
      ensures this.partSize.sizeType in {EXACT_SIZE, SIZE_RANGE} && this.numberParts.sizeType in {EXACT_SIZE, SIZE_RANGE}
    {
      this.regular := regular;
      this.numberParts := numberParts;
      this.partSize := partSize;
      this.numberElements := numberElements;
      new;
      var ok := FixAttributes();
    }

    /**
     * Makes the attributes consistent with numberElements: minimums at least
     * 1, maximums at most numberElements, then each bound tightened by the
     * others.  Returns false where the source would divide by zero (the
     * tightened maximum part size is 0), leaving the attributes part-way.
     */
    method FixAttributes() returns (ok: bool)
      requires numberElements <= UINT64_MAX
      modifies this
      ensures Fixed(old(numberParts), old(partSize), numberElements, numberParts, partSize)
      ensures ok <==> partSize.maxSize != 0
      ensures ok ==> partSize.minSize >= 1 && numberParts.minSize >= 1
      ensures ok ==> partSize.maxSize <= numberElements && numberParts.maxSize <= numberElements
      ensures ok ==> numberParts.maxSize <= numberElements / partSize.minSize
      ensures ok ==> partSize.maxSize >= 1
                     && numberParts.minSize >= CeilDiv(numberElements, partSize.maxSize)
      ensures ok ==> (partSize.sizeType == EXACT_SIZE <==> partSize.minSize == partSize.maxSize)
      ensures ok ==> partSize.sizeType in {EXACT_SIZE, SIZE_RANGE}
      ensures ok ==> (numberParts.sizeType == EXACT_SIZE <==> numberParts.minSize == numberParts.maxSize)
      ensures ok ==> numberParts.sizeType in {EXACT_SIZE, SIZE_RANGE}
      ensures ok ==> regular == (old(regular) || partSize.minSize == partSize.maxSize)
      ensures !ok ==> regular == old(regular)
                      && partSize.sizeType == SIZE_RANGE && numberParts.sizeType == SIZE_RANGE
    {
      partSize := partSize.(minSize := Max(partSize.minSize, 1));
      numberParts := numberParts.(minSize := Max(numberParts.minSize, 1));
      partSize := partSize.(maxSize := Min(partSize.maxSize, numberElements));
      numberParts := numberParts.(maxSize := Min(numberParts.maxSize, numberElements));
      partSize := partSize.(sizeType := SIZE_RANGE);
      numberParts := numberParts.(sizeType := SIZE_RANGE);

      numberParts := numberParts.(maxSize := Min(numberParts.maxSize, Fitting(numberElements, partSize.minSize)));
      partSize := partSize.(maxSize := Min(partSize.maxSize,
        SubWrap(numberElements, Filled(numberParts.minSize - 1, partSize.minSize))));
      if partSize.maxSize == 0 {
        return false;
      }
      numberParts := numberParts.(minSize := Max(numberParts.minSize, CeilDiv(numberElements, partSize.maxSize)));

      if partSize.maxSize == partSize.minSize {
        partSize := partSize.(sizeType := EXACT_SIZE);
        regular := true;
      }
      if numberParts.minSize == numberParts.maxSize {
        numberParts := numberParts.(sizeType := EXACT_SIZE);
      }
      return true;
    }
  }

  function Max(a: nat, b: nat): (r: nat)
    ensures r >= a && r >= b && (r == a || r == b)
  {
    if a >= b then a else b
  }

  function Min(a: nat, b: nat): (r: nat)
    ensures r <= a && r <= b && (r == a || r == b)
  {
    if a <= b then a else b
  }

  /** The first n entries of s, padded with fill (std::vector::resize). */
  function Resize<T>(s: seq<T>, n: nat, fill: T): (r: seq<T>)
    ensures |r| == n
    ensures forall i :: 0 <= i < n && i < |s| ==> r[i] == s[i]
    ensures forall i :: |s| <= i < n ==> r[i] == fill
  {
    if n <= |s| then s[..n] else s + seq(n - |s|, _ => fill)
  }

  /** The sum of the parts' mixed hashes: the partition's hash. */
  function PartHashTotal(mixes: seq<Hash>): (t: Hash) {
    if |mixes| == 0 then 0 else PartHashTotal(mixes[..|mixes| - 1]) + mixes[|mixes| - 1]
  }

  /** Replacing one part's mixed hash changes the total by the difference. */
  lemma {:induction false} PartHashTotalUpdate(mixes: seq<Hash>, i: nat, m: Hash)
    requires i < |mixes|
    ensures PartHashTotal(mixes[i := m]) == PartHashTotal(mixes) - mixes[i] + m
  {
    var n := |mixes|;
    if i == n - 1 {
      assert mixes[i := m][..n - 1] == mixes[..n - 1];
    } else {
      assert mixes[i := m][..n - 1] == mixes[..n - 1][i := m];
      PartHashTotalUpdate(mixes[..n - 1], i, m);
    }
  }

  /** Parts whose mixed hash is 0 add nothing to the total. */
  lemma {:induction false} PartHashTotalPadded(mixes: seq<Hash>, k: nat)
    ensures PartHashTotal(mixes + seq(k, _ => 0)) == PartHashTotal(mixes)
  {
    var t := mixes + seq(k, _ => 0);
    if k == 0 {
      assert t == mixes;
    } else {
      assert t[..|t| - 1] == mixes + seq(k - 1, _ => 0);
      PartHashTotalPadded(mixes, k - 1);
    }
  }

  /**
   * A partition under construction: members are placed at fixed positions,
   * each assigned a part; parts with at least one member are in `parts`,
   * the others in `emptyParts`.  Each part has a mixed hash (partMixes),
   * and cachedHashTotal caches their sum.
   */
  class PartitionValue<M> {
    var members: seq<Option<M>>
    var memberPartMap: seq<nat>
    var hashIndexMap: map<Hash, nat>
    var partSizes: seq<nat>
    var partMixes: seq<Hash>
    var cachedHashTotal: Hash
    var parts: set<nat>
    var emptyParts: set<nat>

    /** The cached total is the sum of the parts' mixed hashes. */
    ghost predicate HashTotalCached()
      reads this
    {
      cachedHashTotal == PartHashTotal(partMixes)
    }

    ghost predicate Valid()
      reads this
    {
      |memberPartMap| == |members| && |partMixes| == |partSizes|
      && (forall h :: h in hashIndexMap ==> hashIndexMap[h] < |members|)
      && (forall p :: p in parts ==> p < |partSizes|)
      && (forall p :: 0 <= p < |partSizes| ==> (p in parts <==> partSizes[p] > 0))
      && (forall p :: 0 <= p < |partSizes| ==> (p in emptyParts <==> partSizes[p] == 0))
      && (forall p :: p in emptyParts ==> p < |partSizes|)
    }

    constructor ()
      ensures Valid()
      ensures members == [] && partSizes == [] && hashIndexMap == map[]
      ensures HashTotalCached()
    {
      members := [];
      partMixes := [];
      cachedHashTotal := 0;
      memberPartMap := [];
      hashIndexMap := map[];
      partSizes := [];
      parts := {};
      emptyParts := {};
    }

    /** Sizes a fresh partition: n empty member slots and n empty parts. */
    method SetNumberElements(n: nat)
      requires Valid() && parts == {} && members == []
      modifies this
      ensures Valid()
      ensures members == seq(n, _ => None)
      ensures |partSizes| == n && |memberPartMap| == n
      ensures forall p :: p in emptyParts <==> 0 <= p < n
      ensures parts == {} && hashIndexMap == map[]
      ensures partMixes == Resize(old(partMixes), n, 0) && cachedHashTotal == old(cachedHashTotal)
      ensures old(HashTotalCached()) && |old(partMixes)| <= n ==> HashTotalCached()
    {
      if |partMixes| <= n {
        PartHashTotalPadded(partMixes, n - |partMixes|);
        assert Resize(partMixes, n, 0) == partMixes + seq(n - |partMixes|, _ => 0);
      }
      partMixes := Resize(partMixes, n, 0);
      assert hashIndexMap.Keys == {} by {
        forall h | h in hashIndexMap ensures hashIndexMap[h] < 0 { }
      }
      assert hashIndexMap == map[];
      members := seq(n, _ => None);
      partSizes := Resize(partSizes, n, 0);
      memberPartMap := Resize(memberPartMap, n, 0);
      assert forall p :: 0 <= p < |partSizes| ==> partSizes[p] == 0 by {
        forall p | 0 <= p < |partSizes| ensures partSizes[p] == 0 {
          if p < |old(partSizes)| {
            assert old(partSizes)[p] == 0 by {
              assert p !in old(parts);
            }
          }
        }
      }
      var empty: set<nat> := {};
      var i := 0;
      while i < n
        invariant 0 <= i <= n
        invariant forall p :: p in empty <==> 0 <= p < i
      {
        empty := empty + {i};
        i := i + 1;
      }
      emptyParts := empty;
    }

    /**
     * Takes a part's mixed hash off the total, replaces it with newPartMix
     * and adds that to the total.
     */
    method TradePartMix(part: nat, newPartMix: Hash)
      requires part < |partMixes|
      modifies this
      ensures partMixes == old(partMixes)[part := newPartMix]
      ensures cachedHashTotal == old(cachedHashTotal) - old(partMixes[part]) + newPartMix
      ensures members == old(members) && memberPartMap == old(memberPartMap) && hashIndexMap == old(hashIndexMap)
      ensures partSizes == old(partSizes) && parts == old(parts) && emptyParts == old(emptyParts)
      ensures old(HashTotalCached()) ==> HashTotalCached()
    {
      PartHashTotalUpdate(partMixes, part, newPartMix);
      cachedHashTotal := cachedHashTotal - partMixes[part];
      partMixes := partMixes[part := newPartMix];
      cachedHashTotal := cachedHashTotal + newPartMix;
    }

    /**
     * Places member (with the given hash) at memberIndex in part `part`.
     * A member whose hash is already placed is rejected.  newPartMix is the
     * part's mixed hash once the member is added; the total trades the
     * part's old mixed hash for it.
     */
    method AssignMember(memberIndex: nat, part: nat, member: M, hash: Hash, newPartMix: Hash) returns (placed: bool)
      requires Valid() && memberIndex < |members| && part < |partSizes|
      modifies this
      ensures Valid()
      ensures placed == (hash !in old(hashIndexMap))
      ensures !placed ==> members == old(members) && hashIndexMap == old(hashIndexMap)
                            && partSizes == old(partSizes) && parts == old(parts)
                            && emptyParts == old(emptyParts) && memberPartMap == old(memberPartMap)
                            && partMixes == old(partMixes) && cachedHashTotal == old(cachedHashTotal)
      ensures placed ==> hashIndexMap == old(hashIndexMap)[hash := memberIndex]
                           && memberPartMap == old(memberPartMap)[memberIndex := part]
                           && members == old(members)[memberIndex := Some(member)]
                           && partSizes == old(partSizes)[part := old(partSizes)[part] + 1]
      ensures placed ==> parts == old(parts) + {part} && emptyParts == old(emptyParts) - {part}
      ensures placed ==> partMixes == old(partMixes)[part := newPartMix]
                           && cachedHashTotal == old(cachedHashTotal) - old(partMixes[part]) + newPartMix
      ensures old(HashTotalCached()) ==> HashTotalCached()
    {
      if hash in hashIndexMap {
        return false;
      }
      GrowPart(part);
      TradePartMix(part, newPartMix);
      hashIndexMap := hashIndexMap[hash := memberIndex];
      memberPartMap := memberPartMap[memberIndex := part];
      members := members[memberIndex := Some(member)];
      return true;
    }

    /** One more member in part `part`, which is then no longer empty. */
    method GrowPart(part: nat)
      requires Valid() && part < |partSizes|
      modifies this
      ensures Valid()
      ensures partSizes == old(partSizes)[part := old(partSizes)[part] + 1]
      ensures parts == old(parts) + {part} && emptyParts == old(emptyParts) - {part}
      ensures members == old(members) && memberPartMap == old(memberPartMap) && hashIndexMap == old(hashIndexMap)
      ensures partMixes == old(partMixes) && cachedHashTotal == old(cachedHashTotal)
    {
      partSizes := partSizes[part := partSizes[part] + 1];
      if partSizes[part] == 1 {
        parts := parts + {part};
        emptyParts := emptyParts - {part};
      }
    }
  }
}
