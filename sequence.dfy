// Sequence values: an ordered list of members with a cached total of
// position-dependent member hashes, a count of undefined members and, for
// injective sequences, the set of member hashes.  Members carry an id that
// the value keeps equal to their position once an operation is complete.

module Sequences {
  import opened Common
  import opened SizeAttrs
  import opened SequenceSwaps

  // ---- domain ----

  datatype SequenceDomain = SequenceDomain(sizeAttr: SizeAttr, injective: bool)

  /**
   * A sequence domain must bound its size from above: one built with no size
   * or only a minimum size is refused (the source aborts).
   */
  function MakeSequenceDomain(sizeAttr: SizeAttr, injective: bool): (r: Option<SequenceDomain>)
    ensures r.Some? <==> sizeAttr.sizeType.EXACT_SIZE? || sizeAttr.sizeType.MAX_SIZE? || sizeAttr.sizeType.SIZE_RANGE?
    ensures r.Some? ==> r.value.sizeAttr == sizeAttr && r.value.injective == injective
  {
    if sizeAttr.sizeType == NO_SIZE || sizeAttr.sizeType == MIN_SIZE then None
    else Some(SequenceDomain(sizeAttr, injective))
  }

  /** The size constructors that give an upper bound are accepted, the others refused. */
  lemma MakeSequenceDomainBySize(n: nat, injective: bool)
    ensures MakeSequenceDomain(NoSize(), injective).None?
    ensures MakeSequenceDomain(MinSize(n), injective).None?
    ensures MakeSequenceDomain(MaxSize(n), injective).Some?
    ensures MakeSequenceDomain(ExactSize(n), injective).Some?
    ensures MakeSequenceDomain(SizeRange(0, n), injective).Some?
  {
  }

  // ---- specification functions ----

  /** The sum of the hashes of every member paired with its position. */
  function HashTotal<M>(memberHash: (nat, M) -> Hash, ms: seq<M>): (r: int) {
    if |ms| == 0 then 0
    else HashTotal(memberHash, ms[..|ms| - 1]) + memberHash(|ms| - 1, ms[|ms| - 1])
  }

  /** Replacing the member at position i replaces its term in the total. */
  lemma {:induction false} HashTotalUpdate<M>(memberHash: (nat, M) -> Hash, ms: seq<M>, i: nat, x: M)
    requires i < |ms|
    ensures HashTotal(memberHash, ms[i := x])
            == HashTotal(memberHash, ms) - memberHash(i, ms[i]) + memberHash(i, x)
  {
    var n := |ms|;
    if i == n - 1 {
      assert ms[i := x][..n - 1] == ms[..n - 1];
    } else {
      assert ms[i := x][..n - 1] == ms[..n - 1][i := x];
      HashTotalUpdate(memberHash, ms[..n - 1], i, x);
    }
  }

  /** Swapping two positions changes the total by the four terms the swap recomputes. */
  lemma HashTotalSwap<M>(memberHash: (nat, M) -> Hash, ms: seq<M>, i: nat, j: nat)
    requires i < |ms| && j < |ms|
    ensures HashTotal(memberHash, Swapped(ms, i, j))
            == HashTotal(memberHash, ms) - memberHash(i, ms[i]) - memberHash(j, ms[j])
               + memberHash(i, ms[j]) + memberHash(j, ms[i])
  {
    if i == j {
      assert Swapped(ms, i, j) == ms;
    } else {
      HashTotalUpdate(memberHash, ms, i, ms[j]);
      HashTotalUpdate(memberHash, ms[i := ms[j]], j, ms[i]);
    }
  }

  /** The number of members that do not appear defined. */
  function CountUndefined<M>(appearsDefined: M -> bool, ms: seq<M>): (r: nat) {
    if |ms| == 0 then 0
    else (if appearsDefined(ms[0]) then 0 else 1) + CountUndefined(appearsDefined, ms[1..])
  }

  lemma {:induction false} CountUndefinedConcat<M>(appearsDefined: M -> bool, a: seq<M>, b: seq<M>)
    ensures CountUndefined(appearsDefined, a + b)
            == CountUndefined(appearsDefined, a) + CountUndefined(appearsDefined, b)
  {
    if |a| == 0 {
      assert a + b == b;
    } else {
      assert (a + b)[0] == a[0];
      assert (a + b)[1..] == a[1..] + b;
      CountUndefinedConcat(appearsDefined, a[1..], b);
    }
  }

  /** Inserting x at position i adds one exactly when x is undefined. */
  lemma CountUndefinedInsert<M>(appearsDefined: M -> bool, ms: seq<M>, i: nat, x: M)
    requires i <= |ms|
    ensures CountUndefined(appearsDefined, ms[..i] + [x] + ms[i..])
            == CountUndefined(appearsDefined, ms) + (if appearsDefined(x) then 0 else 1)
  {
    var p, q := ms[..i], ms[i..];
    CountUndefinedConcat(appearsDefined, p + [x], q);
    CountUndefinedConcat(appearsDefined, p, [x]);
    CountUndefinedConcat(appearsDefined, p, q);
    SplitPrefix(ms, i);
    CountUndefinedOne(appearsDefined, x);
  }

  /** A single member counts one exactly when it is undefined. */
  lemma CountUndefinedOne<M>(appearsDefined: M -> bool, x: M)
    ensures CountUndefined(appearsDefined, [x]) == if appearsDefined(x) then 0 else 1
  {
    assert [x][1..] == [];
  }

  /** Removing position i subtracts one exactly when that member is undefined. */
  lemma CountUndefinedRemove<M>(appearsDefined: M -> bool, ms: seq<M>, i: nat)
    requires i < |ms|
    ensures CountUndefined(appearsDefined, ms[..i] + ms[i + 1..])
            == CountUndefined(appearsDefined, ms) - (if appearsDefined(ms[i]) then 0 else 1)
  {
    var rest := ms[..i] + ms[i + 1..];
    CountUndefinedInsert(appearsDefined, rest, i, ms[i]);
    ReinsertRemoved(ms, i);
  }

  /** Putting back the member taken out at i restores the sequence. */
  lemma ReinsertRemoved<M>(ms: seq<M>, i: nat)
    requires i < |ms|
    ensures var rest := ms[..i] + ms[i + 1..];
            rest[..i] + [ms[i]] + rest[i..] == ms
  {
    var rest := ms[..i] + ms[i + 1..];
    assert rest[..i] == ms[..i] && rest[i..] == ms[i + 1..];
  }

  /** Replacing one member changes the count by that member's contribution only. */
  lemma CountUndefinedUpdate<M>(appearsDefined: M -> bool, ms: seq<M>, i: nat, x: M)
    requires i < |ms|
    ensures CountUndefined(appearsDefined, ms[i := x])
            == CountUndefined(appearsDefined, ms) - (if appearsDefined(ms[i]) then 0 else 1)
               + (if appearsDefined(x) then 0 else 1)
  {
    CountUndefinedRemove(appearsDefined, ms, i);
    CountUndefinedInsert(appearsDefined, ms[..i] + ms[i + 1..], i, x);
    var rest := ms[..i] + ms[i + 1..];
    assert rest[..i] + [x] + rest[i..] == ms[i := x];
  }

  /** Swapping two members leaves the number of undefined members alone. */
  lemma CountUndefinedSwap<M>(appearsDefined: M -> bool, ms: seq<M>, i: nat, j: nat)
    requires i < |ms| && j < |ms|
    ensures CountUndefined(appearsDefined, Swapped(ms, i, j)) == CountUndefined(appearsDefined, ms)
  {
    if i == j {
      assert Swapped(ms, i, j) == ms;
    } else {
      CountUndefinedUpdate(appearsDefined, ms, i, ms[j]);
      CountUndefinedUpdate(appearsDefined, ms[i := ms[j]], j, ms[i]);
    }
  }

  /** The hashes of the members, as a set. */
  ghost function HashSetOf<M>(hashOf: M -> Hash, ms: seq<M>): (r: set<Hash>) {
    set m | m in ms :: hashOf(m)
  }

  /** No two members share a hash. */
  ghost predicate DistinctHashes<M>(hashOf: M -> Hash, ms: seq<M>) {
    forall i, j :: 0 <= i < j < |ms| ==> hashOf(ms[i]) != hashOf(ms[j])
  }

  /** The same members in any order have the same hashes. */
  lemma SwappedHashes<M>(hashOf: M -> Hash, ms: seq<M>, i: nat, j: nat)
    requires i < |ms| && j < |ms|
    ensures HashSetOf(hashOf, Swapped(ms, i, j)) == HashSetOf(hashOf, ms)
    ensures DistinctHashes(hashOf, ms) ==> DistinctHashes(hashOf, Swapped(ms, i, j))
  {
    var t := Swapped(ms, i, j);
    assert forall m :: m in t <==> m in ms by {
      forall m ensures m in t <==> m in ms {
        if m in ms {
          var k :| 0 <= k < |ms| && ms[k] == m;
          if k == i { assert t[j] == m; } else if k == j { assert t[i] == m; } else { assert t[k] == m; }
        }
        if m in t {
          var k :| 0 <= k < |t| && t[k] == m;
          if k == i { assert ms[j] == m; } else if k == j { assert ms[i] == m; } else { assert ms[k] == m; }
        }
      }
    }
    if DistinctHashes(hashOf, ms) {
      forall a, b | 0 <= a < b < |t| ensures hashOf(t[a]) != hashOf(t[b]) {
        var a' := if a == i then j else if a == j then i else a;
        var b' := if b == i then j else if b == j then i else b;
        assert t[a] == ms[a'] && t[b] == ms[b'] && a' != b';
      }
    }
  }

  /** Inserting a member whose hash is new keeps the hashes distinct and adds its hash. */
  lemma InsertHashes<M>(hashOf: M -> Hash, ms: seq<M>, i: nat, x: M)
    requires i <= |ms| && DistinctHashes(hashOf, ms) && hashOf(x) !in HashSetOf(hashOf, ms)
    ensures var t := ms[..i] + [x] + ms[i..];
            DistinctHashes(hashOf, t) && HashSetOf(hashOf, t) == HashSetOf(hashOf, ms) + {hashOf(x)}
  {
    InsertDistinct(hashOf, ms, i, x);
    InsertHashSet(hashOf, ms, i, x);
  }

  /** The members after inserting x at position i, by their old positions. */
  lemma InsertedAt<M>(ms: seq<M>, i: nat, x: M)
    requires i <= |ms|
    ensures var t := ms[..i] + [x] + ms[i..];
            |t| == |ms| + 1 && t[i] == x
            && forall k :: 0 <= k < |t| && k != i ==> t[k] == ms[if k < i then k else k - 1]
  {
  }

  lemma InsertDistinct<M>(hashOf: M -> Hash, ms: seq<M>, i: nat, x: M)
    requires i <= |ms| && DistinctHashes(hashOf, ms) && hashOf(x) !in HashSetOf(hashOf, ms)
    ensures DistinctHashes(hashOf, ms[..i] + [x] + ms[i..])
  {
    var t := ms[..i] + [x] + ms[i..];
    InsertedAt(ms, i, x);
    forall a, b | 0 <= a < b < |t| ensures hashOf(t[a]) != hashOf(t[b]) {
      if a == i {
        var b' := b - 1;
        assert t[b] == ms[b'] && hashOf(ms[b']) in HashSetOf(hashOf, ms);
      } else if b == i {
        assert t[a] == ms[a] && hashOf(ms[a]) in HashSetOf(hashOf, ms);
      } else {
        var a' := if a < i then a else a - 1;
        var b' := if b < i then b else b - 1;
        assert t[a] == ms[a'] && t[b] == ms[b'] && a' < b';
      }
    }
  }

  lemma InsertHashSet<M>(hashOf: M -> Hash, ms: seq<M>, i: nat, x: M)
    requires i <= |ms|
    ensures HashSetOf(hashOf, ms[..i] + [x] + ms[i..]) == HashSetOf(hashOf, ms) + {hashOf(x)}
  {
    var t := ms[..i] + [x] + ms[i..];
    assert forall m :: m in t <==> m in ms || m == x by {
      assert ms == ms[..i] + ms[i..];
    }
  }

  /** Removing a member of distinct hashes removes exactly its hash. */
  lemma RemoveHashes<M>(hashOf: M -> Hash, ms: seq<M>, i: nat)
    requires i < |ms| && DistinctHashes(hashOf, ms)
    ensures var t := ms[..i] + ms[i + 1..];
            DistinctHashes(hashOf, t) && HashSetOf(hashOf, t) == HashSetOf(hashOf, ms) - {hashOf(ms[i])}
  {
    RemoveDistinct(hashOf, ms, i);
    RemoveHashSet(hashOf, ms, i);
  }

  /** The members left after removing position i, by their old positions. */
  lemma RemovedAt<M>(ms: seq<M>, i: nat)
    requires i < |ms|
    ensures var t := ms[..i] + ms[i + 1..];
            |t| == |ms| - 1 && forall k :: 0 <= k < |t| ==> t[k] == ms[if k < i then k else k + 1]
  {
  }

  lemma RemoveDistinct<M>(hashOf: M -> Hash, ms: seq<M>, i: nat)
    requires i < |ms| && DistinctHashes(hashOf, ms)
    ensures DistinctHashes(hashOf, ms[..i] + ms[i + 1..])
  {
    var t := ms[..i] + ms[i + 1..];
    RemovedAt(ms, i);
    forall a, b | 0 <= a < b < |t| ensures hashOf(t[a]) != hashOf(t[b]) {
      var a' := if a < i then a else a + 1;
      var b' := if b < i then b else b + 1;
      assert t[a] == ms[a'] && t[b] == ms[b'] && a' < b';
    }
  }

  lemma RemoveHashSet<M>(hashOf: M -> Hash, ms: seq<M>, i: nat)
    requires i < |ms| && DistinctHashes(hashOf, ms)
    ensures HashSetOf(hashOf, ms[..i] + ms[i + 1..]) == HashSetOf(hashOf, ms) - {hashOf(ms[i])}
  {
    var t := ms[..i] + ms[i + 1..];
    RemovedAt(ms, i);
    forall h | h in HashSetOf(hashOf, t) ensures h in HashSetOf(hashOf, ms) && h != hashOf(ms[i]) {
      var m :| m in t && hashOf(m) == h;
      var k :| 0 <= k < |t| && t[k] == m;
      var k' := if k < i then k else k + 1;
      assert ms[k'] == m && k' != i;
    }
    forall h | h in HashSetOf(hashOf, ms) && h != hashOf(ms[i]) ensures h in HashSetOf(hashOf, t) {
      var m :| m in ms && hashOf(m) == h;
      var k :| 0 <= k < |ms| && ms[k] == m;
      assert k != i;
      assert t[if k < i then k else k - 1] == m;
    }
  }

  /** Reversing a range keeps the members' hashes and their distinctness. */
  lemma {:induction false} ReverseRangeHashes<M>(hashOf: M -> Hash, ms: seq<M>, lo: nat, hi: nat)
    requires lo < hi ==> hi < |ms|
    ensures HashSetOf(hashOf, ReverseRange(ms, lo, hi)) == HashSetOf(hashOf, ms)
    ensures DistinctHashes(hashOf, ms) ==> DistinctHashes(hashOf, ReverseRange(ms, lo, hi))
    decreases hi - lo
  {
    if lo < hi {
      SwappedHashes(hashOf, ms, lo, hi);
      ReverseRangeHashes(hashOf, Swapped(ms, lo, hi), lo + 1, hi - 1);
    }
  }

  /** Applying swaps forwards keeps the members' hashes and their distinctness. */
  lemma {:induction false} ForwardHashes<M>(hashOf: M -> Hash, ms: seq<M>, offset: nat, swaps: seq<nat>, k: nat)
    requires SwapsFit(|ms|, offset, swaps) && k <= |swaps|
    ensures HashSetOf(hashOf, Forward(ms, offset, swaps, k)) == HashSetOf(hashOf, ms)
    ensures DistinctHashes(hashOf, ms) ==> DistinctHashes(hashOf, Forward(ms, offset, swaps, k))
  {
    if k > 0 {
      ForwardHashes(hashOf, ms, offset, swaps, k - 1);
      SwappedHashes(hashOf, Forward(ms, offset, swaps, k - 1), k - 1 + offset, swaps[k - 1] + offset);
    }
  }

  /** Ids that match positions, as every complete operation leaves them. */
  ghost predicate IdsMatch(ids: seq<nat>) {
    forall i :: 0 <= i < |ids| ==> ids[i] == i
  }

  // ---- the value ----

  class SequenceValue<M> {
    /** Hash of a member's value. */
    const hashOf: M -> Hash
    /** Hash of a member at a position (the source's calcMemberHash). */
    const memberHash: (nat, M) -> Hash
    /** Whether a member's view is currently defined. */
    const appearsDefined: M -> bool
    const injective: bool

    var members: seq<M>
    /** The id stored in each member, listed in member order. */
    var ids: seq<nat>
    var cachedHashTotal: Option<int>
    var numberUndefined: nat
    var memberHashes: set<Hash>

    /** The view's counters agree with its members; an invalid cache claims nothing. */
    ghost predicate ViewValid()
      reads this
    {
      |ids| == |members|
      && numberUndefined == CountUndefined(appearsDefined, members)
      && (cachedHashTotal.Some? ==> cachedHashTotal.value == HashTotal(memberHash, members))
    }

    /** An injective value records the distinct hashes of its members; others record none. */
    ghost predicate HashesValid()
      reads this
    {
      if injective then DistinctHashes(hashOf, members) && memberHashes == HashSetOf(hashOf, members)
      else memberHashes == {}
    }

    ghost predicate Valid()
      reads this
    {
      ViewValid() && HashesValid() && IdsMatch(ids)
    }

    constructor (hashOf: M -> Hash, memberHash: (nat, M) -> Hash, appearsDefined: M -> bool, injective: bool)
      ensures Valid() && members == []
      ensures this.hashOf == hashOf && this.memberHash == memberHash
      ensures this.appearsDefined == appearsDefined && this.injective == injective
      ensures cachedHashTotal == Some(0)
    {
      this.hashOf := hashOf;
      this.memberHash := memberHash;
      this.appearsDefined := appearsDefined;
      this.injective := injective;
      members := [];
      ids := [];
      cachedHashTotal := Some(0);
      numberUndefined := 0;
      memberHashes := {};
    }

    /** For an injective value, whether a member with the same hash is present. */
    function ContainsMember(m: M): (contained: bool)
      reads this
      requires Valid() && injective
      ensures contained <==> exists i :: 0 <= i < |members| && hashOf(members[i]) == hashOf(m)
    {
      assert forall i :: 0 <= i < |members| ==> hashOf(members[i]) in HashSetOf(hashOf, members);
      hashOf(m) in memberHashes
    }

    // ---- view operations ----

    /**
     * Inserts m at index (carrying the given id).  The cached total follows
     * only a defined member appended at the end; otherwise it is dropped.
     */
    method ViewAddMember(index: nat, m: M, id: nat)
      requires ViewValid() && index <= |members|
      modifies this
      ensures ViewValid()
      ensures members == old(members[..index]) + [m] + old(members[index..])
      ensures ids == old(ids[..index]) + [id] + old(ids[index..])
      ensures numberUndefined == old(numberUndefined) + (if appearsDefined(m) then 0 else 1)
      ensures cachedHashTotal == if appearsDefined(m) && index == old(|members|) && old(cachedHashTotal).Some?
                                 then Some(old(cachedHashTotal).value + memberHash(index, m))
                                 else None
      ensures memberHashes == old(memberHashes)
    {
      CountUndefinedInsert(appearsDefined, members, index, m);
      members := members[..index] + [m] + members[index..];
      ids := ids[..index] + [id] + ids[index..];
      if appearsDefined(m) && index == |members| - 1 {
        if cachedHashTotal.Some? {
          assert members[..|members| - 1] == old(members);
          cachedHashTotal := Some(cachedHashTotal.value + memberHash(index, m));
        }
      } else {
        cachedHashTotal := None;
      }
      if !appearsDefined(m) {
        numberUndefined := numberUndefined + 1;
      }
    }

    /**
     * Removes the member at index and returns it.  The cached total follows
     * only the removal of the last member; otherwise it is dropped.
     */
    method ViewRemoveMember(index: nat) returns (removed: M)
      requires ViewValid() && index < |members|
      modifies this
      ensures ViewValid()
      ensures removed == old(members[index])
      ensures members == old(members[..index]) + old(members[index + 1..])
      ensures ids == old(ids[..index]) + old(ids[index + 1..])
      ensures numberUndefined == old(numberUndefined) - (if appearsDefined(removed) then 0 else 1)
      ensures cachedHashTotal == if index == |members| && old(cachedHashTotal).Some?
                                 then Some(old(cachedHashTotal).value - memberHash(index, removed))
                                 else None
      ensures memberHashes == old(memberHashes)
    {
      removed := members[index];
      CountUndefinedRemove(appearsDefined, members, index);
      ghost var before := members;
      members := members[..index] + members[index + 1..];
      ids := ids[..index] + ids[index + 1..];
      if index == |members| {
        if cachedHashTotal.Some? {
          assert before[..|before| - 1] == members;
          cachedHashTotal := Some(cachedHashTotal.value - memberHash(index, removed));
        }
      } else {
        cachedHashTotal := None;
      }
      if !appearsDefined(removed) {
        numberUndefined := numberUndefined - 1;
      }
    }

    /** Exchanges two members, recomputing the four affected terms of the cached total. */
    method SwapPositions(index1: nat, index2: nat)
      requires ViewValid() && index1 < |members| && index2 < |members|
      modifies this
      ensures ViewValid()
      ensures members == Swapped(old(members), index1, index2)
      ensures ids == Swapped(old(ids), index1, index2)
      ensures cachedHashTotal.Some? == old(cachedHashTotal).Some?
      ensures numberUndefined == old(numberUndefined) && memberHashes == old(memberHashes)
    {
      HashTotalSwap(memberHash, members, index1, index2);
      CountUndefinedSwap(appearsDefined, members, index1, index2);
      members := Swapped(members, index1, index2);
      ids := Swapped(ids, index1, index2);
      if cachedHashTotal.Some? {
        var value := cachedHashTotal.value;
        value := value - memberHash(index1, members[index2]);
        value := value - memberHash(index2, members[index1]);
        value := value + memberHash(index1, members[index1]);
        value := value + memberHash(index2, members[index2]);
        cachedHashTotal := Some(value);
      }
    }

    /** Forgets all members; the cached total becomes invalid. */
    method SilentClear()
      modifies this
      ensures Valid() && members == [] && cachedHashTotal == None
    {
      members := [];
      ids := [];
      cachedHashTotal := None;
      numberUndefined := 0;
      memberHashes := {};
    }

    // ---- value operations ----

    /** Sets the id of every member from start onwards to its position. */
    method ReassignIndicesToEnd(start: nat)
      requires |ids| == |members| && start <= |ids|
      modifies this
      ensures members == old(members) && cachedHashTotal == old(cachedHashTotal)
      ensures |ids| == |members|
      ensures forall i :: 0 <= i < start ==> ids[i] == old(ids[i])
      ensures forall i :: start <= i < |ids| ==> ids[i] == i
      ensures numberUndefined == old(numberUndefined) && memberHashes == old(memberHashes)
    {
      var i := start;
      while i < |members|
        invariant start <= i <= |members| && |ids| == |members|
        invariant forall k :: 0 <= k < start ==> ids[k] == old(ids[k])
        invariant forall k :: start <= k < i ==> ids[k] == k
        invariant members == old(members) && cachedHashTotal == old(cachedHashTotal)
        invariant numberUndefined == old(numberUndefined) && memberHashes == old(memberHashes)
      {
        ids := ids[i := i];
        i := i + 1;
      }
    }

    /**
     * Inserts m at index; an injective value refuses a member whose hash is
     * already present and then changes nothing.
     */
    method AddMember(index: nat, m: M) returns (added: bool)
      requires Valid() && index <= |members|
      modifies this
      ensures Valid()
      ensures added <==> !(injective && hashOf(m) in old(memberHashes))
      ensures added ==> members == old(members[..index]) + [m] + old(members[index..])
      ensures !added ==> members == old(members) && cachedHashTotal == old(cachedHashTotal)
    {
      if injective && hashOf(m) in memberHashes {
        return false;
      }
      if injective {
        InsertHashes(hashOf, members, index, m);
        memberHashes := memberHashes + {hashOf(m)};
      }
      // the new member's id is overwritten by the reassignment below
      ViewAddMember(index, m, index);
      ReassignIndicesToEnd(index);
      added := true;
    }

    /**
     * Inserts m at index and keeps it only when accept holds; a refused or
     * rejected insertion leaves the members, ids and hashes as they were.
     */
    method TryAddMember(index: nat, m: M, accept: bool) returns (added: bool)
      requires Valid() && index <= |members|
      modifies this
      ensures Valid()
      ensures added <==> accept && !(injective && hashOf(m) in old(memberHashes))
      ensures added ==> members == old(members[..index]) + [m] + old(members[index..])
      ensures !added ==> members == old(members) && ids == old(ids) && memberHashes == old(memberHashes)
      ensures !added ==> cachedHashTotal == if injective && hashOf(m) in old(memberHashes) then old(cachedHashTotal)
                                            else if appearsDefined(m) && index == old(|members|) then old(cachedHashTotal)
                                            else None
    {
      if injective && hashOf(m) in memberHashes {
        return false;
      }
      ViewAddMember(index, m, index);
      if accept {
        if injective {
          InsertHashes(hashOf, old(members), index, m);
          memberHashes := memberHashes + {hashOf(m)};
        }
        ReassignIndicesToEnd(index);
        added := true;
      } else {
        var _ := ViewRemoveMember(index);
        assert members == old(members);
        assert ids == old(ids);
        added := false;
      }
    }

    /** Removes and returns the member at index; an injective value forgets its hash. */
    method RemoveMember(index: nat) returns (removed: M)
      requires Valid() && index < |members|
      modifies this
      ensures Valid()
      ensures removed == old(members[index])
      ensures members == old(members[..index]) + old(members[index + 1..])
      ensures injective ==> memberHashes == old(memberHashes) - {hashOf(removed)}
    {
      if injective {
        RemoveHashes(hashOf, members, index);
      }
      removed := ViewRemoveMember(index);
      ReassignIndicesToEnd(index);
      if injective {
        memberHashes := memberHashes - {hashOf(removed)};
      }
    }

    /**
     * Removes the member at index and keeps it removed only when accept
     * holds; a rejected removal puts the member back at the same index.
     */
    method TryRemoveMember(index: nat, accept: bool) returns (ok: bool, removed: Option<M>)
      requires Valid() && index < |members|
      modifies this
      ensures Valid()
      ensures ok == accept
      ensures removed == if accept then Some(old(members[index])) else None
      ensures accept ==> members == old(members[..index]) + old(members[index + 1..])
      ensures accept && injective ==> memberHashes == old(memberHashes) - {hashOf(old(members[index]))}
      ensures !accept ==> members == old(members) && ids == old(ids) && memberHashes == old(memberHashes)
      ensures !accept ==> cachedHashTotal == if index == old(|members|) - 1 && appearsDefined(old(members[index]))
                                             then old(cachedHashTotal) else None
    {
      ghost var id := ids[index];
      var m := ViewRemoveMember(index);
      if accept {
        if injective {
          RemoveHashes(hashOf, old(members), index);
          memberHashes := memberHashes - {hashOf(m)};
        }
        ReassignIndicesToEnd(index);
        ok, removed := true, Some(m);
      } else {
        ViewAddMember(index, m, index);
        assert members == old(members);
        assert ids == old(ids);
        ok, removed := false, None;
      }
    }

    /** Swaps two members and keeps the swap only when accept holds. */
    method TrySwapPositions(index1: nat, index2: nat, accept: bool) returns (swapped: bool)
      requires Valid() && index1 < |members| && index2 < |members|
      modifies this
      ensures Valid()
      ensures swapped == accept
      ensures accept ==> members == Swapped(old(members), index1, index2)
      ensures !accept ==> members == old(members) && ids == old(ids) && cachedHashTotal == old(cachedHashTotal)
      ensures memberHashes == old(memberHashes)
    {
      if injective {
        SwappedHashes(hashOf, members, index1, index2);
      }
      SwapPositions(index1, index2);
      if accept {
        ids := ids[index1 := index1][index2 := index2];
        swapped := true;
      } else {
        SwapPositions(index1, index2);
        SwapTwice(old(members), index1, index2);
        SwapTwice(old(ids), index1, index2);
        swapped := false;
      }
    }
    // ---- reversal and shuffle of a subsequence ----

    /**
     * Reverses positions [start, end] by swapping the ends inwards.  With
     * trigger set each swapped member's id is reset to its new position, so
     * ids that matched positions still do; otherwise the ids travel with
     * their members.
     */
    method ReversePositions(start: nat, end: nat, trigger: bool)
      requires ViewValid() && (start < end ==> end < |members|)
      requires trigger ==> IdsMatch(ids)
      modifies this
      ensures ViewValid()
      ensures members == ReverseRange(old(members), start, end)
      ensures trigger ==> ids == old(ids)
      ensures !trigger ==> ids == ReverseRange(old(ids), start, end)
      ensures cachedHashTotal.Some? == old(cachedHashTotal).Some?
      ensures numberUndefined == old(numberUndefined) && memberHashes == old(memberHashes)
    {
      ghost var m0, ids0, cached0, undefined0, hashes0 := members, ids, cachedHashTotal, numberUndefined, memberHashes;
      var s: nat, e: nat := start, end;
      while s < e
        invariant ViewValid() && |members| == |m0|
        invariant s < e ==> e < |members|
        invariant ReverseRange(members, s, e) == ReverseRange(m0, start, end)
        invariant !trigger ==> ReverseRange(ids, s, e) == ReverseRange(ids0, start, end)
        invariant trigger ==> ids == ids0 && IdsMatch(ids)
        invariant cachedHashTotal.Some? == cached0.Some?
        invariant numberUndefined == undefined0 && memberHashes == hashes0
        decreases e - s
      {
        ReverseStep(s, e, trigger);
        s, e := s + 1, e - 1;
      }
    }

    /** One pass of ReversePositions' loop: positions s and e exchange members. */
    method ReverseStep(s: nat, e: nat, trigger: bool)
      requires ViewValid() && s < e < |members|
      requires trigger ==> IdsMatch(ids)
      modifies this
      ensures ViewValid()
      ensures members == Swapped(old(members), s, e)
      ensures ids == if trigger then old(ids) else Swapped(old(ids), s, e)
      ensures cachedHashTotal.Some? == old(cachedHashTotal).Some?
      ensures numberUndefined == old(numberUndefined) && memberHashes == old(memberHashes)
    {
      SwapPositions(s, e);
      if trigger {
        ids := ids[s := s][e := e];
        assert ids == old(ids);
      }
    }

    /**
     * Reverses [start, end] and keeps the reversal only when accept holds;
     * on acceptance the reversal is undone and redone with the ids updated.
     */
    method TrySubsequenceReverse(start: nat, end: nat, accept: bool) returns (reversed: bool)
      requires Valid() && (start < end ==> end < |members|)
      modifies this
      ensures Valid()
      ensures reversed == accept
      ensures accept ==> members == ReverseRange(old(members), start, end)
      ensures !accept ==> members == old(members) && ids == old(ids) && cachedHashTotal == old(cachedHashTotal)
      ensures memberHashes == old(memberHashes)
    {
      ReverseTwice(old(members), start, end);
      ReverseTwice(old(ids), start, end);
      ReversePositions(start, end, false);
      ReversePositions(start, end, false);
      if accept {
        ReversePositions(start, end, true);
        ReverseRangeHashes(hashOf, old(members), start, end);
        reversed := true;
      } else {
        reversed := false;
      }
    }

    /** One pass of the swap loop: the swap of step i, with the ids reset when trigger holds. */
    method ApplySwapStep(ghost m0: seq<M>, ghost ids0: seq<nat>, offset: nat, swaps: seq<nat>,
                         isInverse: bool, trigger: bool, i: nat)
      requires ViewValid() && |m0| == |members| && |ids0| == |m0|
      requires SwapsFit(|m0|, offset, swaps) && i < |swaps|
      requires members == Applied(m0, offset, swaps, isInverse, i)
      requires !trigger ==> ids == Applied(ids0, offset, swaps, isInverse, i)
      requires trigger ==> IdsMatch(ids)
      modifies this
      ensures ViewValid() && |members| == old(|members|)
      ensures members == Applied(m0, offset, swaps, isInverse, i + 1)
      ensures !trigger ==> ids == Applied(ids0, offset, swaps, isInverse, i + 1)
      ensures trigger ==> ids == old(ids)
      ensures cachedHashTotal.Some? == old(cachedHashTotal).Some?
      ensures numberUndefined == old(numberUndefined) && memberHashes == old(memberHashes)
    {
      var index := if !isInverse then i else |swaps| - 1 - i;
      var point1, point2 := index + offset, swaps[index] + offset;
      AppliedStep(m0, offset, swaps, isInverse, i);
      AppliedStep(ids0, offset, swaps, isInverse, i);
      SwapPositions(point1, point2);
      if trigger {
        ids := ids[point1 := point1][point2 := point2];
        assert ids == old(ids);
      }
    }

    /**
     * Applies the swaps (position i + offset with swaps[i] + offset) in order,
     * or from the last to the first when isInverse holds.
     */
    method ApplySwaps(offset: nat, swaps: seq<nat>, isInverse: bool, trigger: bool)
      requires ViewValid() && SwapsFit(|members|, offset, swaps)
      requires trigger ==> IdsMatch(ids)
      modifies this
      ensures ViewValid()
      ensures members == Applied(old(members), offset, swaps, isInverse, |swaps|)
      ensures trigger ==> ids == old(ids)
      ensures !trigger ==> ids == Applied(old(ids), offset, swaps, isInverse, |swaps|)
      ensures cachedHashTotal.Some? == old(cachedHashTotal).Some?
      ensures numberUndefined == old(numberUndefined) && memberHashes == old(memberHashes)
    {
      ghost var m0, ids0, defined0 := members, ids, cachedHashTotal.Some?;
      ghost var undefined0, hashes0 := numberUndefined, memberHashes;
      var i := 0;
      while i < |swaps|
        invariant 0 <= i <= |swaps|
        invariant ViewValid() && |members| == |m0|
        invariant members == Applied(m0, offset, swaps, isInverse, i)
        invariant ids == if trigger then ids0 else Applied(ids0, offset, swaps, isInverse, i)
        invariant cachedHashTotal.Some? == defined0
        invariant numberUndefined == undefined0 && memberHashes == hashes0
      {
        ApplySwapStep(m0, ids0, offset, swaps, isInverse, trigger, i);
        i := i + 1;
      }
    }

    /**
     * Shuffles the subsequence from start by the given swaps and keeps the
     * shuffle only when accept holds; a rejected shuffle is undone by
     * applying the swaps in reverse order.
     */
    method TrySubsequenceShuffle(start: nat, swaps: seq<nat>, accept: bool) returns (shuffled: bool)
      requires Valid() && SwapsFit(|members|, start, swaps)
      modifies this
      ensures Valid()
      ensures shuffled == accept
      ensures accept ==> members == Forward(old(members), start, swaps, |swaps|)
      ensures !accept ==> members == old(members) && ids == old(ids) && cachedHashTotal == old(cachedHashTotal)
      ensures memberHashes == old(memberHashes)
    {
      InverseRestores(old(members), start, swaps);
      InverseRestores(old(ids), start, swaps);
      ApplySwaps(start, swaps, false, false);
      ApplySwaps(start, swaps, true, false);
      if accept {
        ApplySwaps(start, swaps, false, true);
        ForwardHashes(hashOf, old(members), start, swaps, |swaps|);
        shuffled := true;
      } else {
        shuffled := false;
      }
    }

    /**
     * The shuffle as the source writes it: a rejected shuffle applies the
     * swaps forwards a second time, which in general does not restore the
     * members (see ForwardTwiceDoesNotRestore) and leaves ids that no longer
     * match positions.
     */
    method TrySubsequenceShuffleAsWritten(start: nat, swaps: seq<nat>, accept: bool) returns (shuffled: bool)
      requires Valid() && SwapsFit(|members|, start, swaps)
      modifies this
      ensures ViewValid() && HashesValid()
      ensures shuffled == accept
      ensures accept ==> members == Forward(old(members), start, swaps, |swaps|) && IdsMatch(ids)
      ensures !accept ==> members == Forward(Forward(old(members), start, swaps, |swaps|), start, swaps, |swaps|)
      ensures !accept ==> ids == Forward(Forward(old(ids), start, swaps, |swaps|), start, swaps, |swaps|)
    {
      ApplySwaps(start, swaps, false, false);
      ghost var once := members;
      ForwardHashes(hashOf, old(members), start, swaps, |swaps|);
      if accept {
        InverseRestores(old(members), start, swaps);
        InverseRestores(old(ids), start, swaps);
        ApplySwaps(start, swaps, true, false);
        ApplySwaps(start, swaps, false, true);
        shuffled := true;
      } else {
        ApplySwaps(start, swaps, false, false);
        ForwardHashes(hashOf, once, start, swaps, |swaps|);
        shuffled := false;
      }
    }
  }
}
