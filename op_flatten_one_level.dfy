// Flattening a sequence of sequences by one level.  The operator keeps the
// flattened members and the starting index of every inner sequence, and
// updates both when an inner sequence gains, loses or reorders members and
// when the outer sequence gains, loses or swaps inner sequences.

module OpFlattenOneLevels {
  import opened Common
  import opened Sums
  import opened SequenceSwaps
  import opened ExtremeIndices
  import opened Flattens

  /** The blocks [a, a + len) and [b, b + len) of m exchanged, member by member. */
  function SwappedBlocks<T>(m: seq<T>, a: nat, b: nat, len: nat): (r: seq<T>)
    requires a + len <= b && b + len <= |m|
    ensures |r| == |m|
    ensures forall k :: 0 <= k < |m| ==>
              r[k] == if a <= k < a + len then m[k + b - a] else if b <= k < b + len then m[k + a - b] else m[k]
  {
    seq(|m|, k requires 0 <= k < |m| =>
      if a <= k < a + len then m[k + b - a] else if b <= k < b + len then m[k + a - b] else m[k])
  }

  /** Exchanging the same blocks twice restores the members. */
  lemma SwappedBlocksTwice<T>(m: seq<T>, a: nat, b: nat, len: nat)
    requires a + len <= b && b + len <= |m|
    ensures SwappedBlocks(SwappedBlocks(m, a, b, len), a, b, len) == m
  {
    var r := SwappedBlocks(SwappedBlocks(m, a, b, len), a, b, len);
    forall k | 0 <= k < |m| ensures r[k] == m[k] {
      SwappedBlocksTwiceAt(m, a, b, len, k);
    }
  }

  lemma SwappedBlocksTwiceAt<T>(m: seq<T>, a: nat, b: nat, len: nat, k: nat)
    requires a + len <= b && b + len <= |m| && k < |m|
    ensures SwappedBlocks(SwappedBlocks(m, a, b, len), a, b, len)[k] == m[k]
  {
    var once := SwappedBlocks(m, a, b, len);
    if a <= k < a + len {
      assert once[k + b - a] == m[k];
    } else if b <= k < b + len {
      assert once[k + a - b] == m[k];
    }
  }

  /**
   * The block of len members at from taken out and put back so that it
   * starts at to, where to is a position before the removal (a target at or
   * after the block is moved down by len once the block is out).
   */
  function MovedBlock<T>(m: seq<T>, from: nat, to: nat, len: nat): (r: seq<T>)
    requires from + len <= |m| && to <= |m| && (to < from || from + len <= to)
    ensures |r| == |m|
  {
    var rest := m[..from] + m[from + len..];
    var target := if to >= from then to - len else to;
    rest[..target] + m[from..from + len] + rest[target..]
  }

  /** Moving a block keeps the members, as a multiset. */
  lemma MovedBlockPermutes<T>(m: seq<T>, from: nat, to: nat, len: nat)
    requires from + len <= |m| && to <= |m| && (to < from || from + len <= to)
    ensures multiset(MovedBlock(m, from, to, len)) == multiset(m)
  {
    var rest := m[..from] + m[from + len..];
    var target := if to >= from then to - len else to;
    var blk := m[from..from + len];
    assert m == m[..from] + blk + m[from + len..];
    assert multiset(m) == multiset(m[..from]) + multiset(blk) + multiset(m[from + len..]);
    assert multiset(rest) == multiset(m[..from]) + multiset(m[from + len..]);
    assert rest == rest[..target] + rest[target..];
    assert multiset(rest) == multiset(rest[..target]) + multiset(rest[target..]);
    assert MovedBlock(m, from, to, len) == rest[..target] + blk + rest[target..];
    assert multiset(rest[..target] + blk + rest[target..])
           == multiset(rest[..target]) + multiset(blk) + multiset(rest[target..]);
    assert multiset(rest[..target]) + multiset(blk) + multiset(rest[target..]) == multiset(rest) + multiset(blk);
    assert multiset(m) == multiset(rest) + multiset(blk);
  }

  /** A block moved forwards past a stretch lands right after it. */
  lemma MovedBlockForward<T>(a: seq<T>, x: seq<T>, y: seq<T>, c: seq<T>, m: seq<T>, from: nat, to: nat, len: nat)
    requires m == a + x + y + c && from == |a| && to == |a| + |x| + |y| && len == |x|
    ensures MovedBlock(m, from, to, len) == a + y + x + c
  {
    assert m[..|a|] + m[|a| + |x|..] == a + y + c;
    assert (a + y + c)[..|a| + |y|] == a + y;
    assert (a + y + c)[|a| + |y|..] == c;
    assert m[|a|..|a| + |x|] == x;
  }

  /** A block moved backwards before a stretch lands right before it. */
  lemma MovedBlockBackward<T>(a: seq<T>, y: seq<T>, x: seq<T>, c: seq<T>, m: seq<T>, from: nat, to: nat, len: nat)
    requires |y| > 0
    requires m == a + y + x + c && from == |a| + |y| && to == |a| && len == |x|
    ensures MovedBlock(m, from, to, len) == a + x + y + c
  {
    assert m[..|a| + |y|] + m[|a| + |y| + |x|..] == a + y + c;
    assert (a + y + c)[..|a|] == a;
    assert (a + y + c)[|a|..] == y + c;
    assert m[|a| + |y|..|a| + |y| + |x|] == x;
  }

  /** Blocks of equal length exchanged in a + x1 + b + x2 + c. */
  lemma SwapEqualBlocks<T>(a: seq<T>, x1: seq<T>, b: seq<T>, x2: seq<T>, c: seq<T>, m: seq<T>, p: nat, q: nat, len: nat)
    requires |x1| == |x2| == len && m == a + x1 + b + x2 + c && p == |a| && q == |a| + |x1| + |b|
    ensures SwappedBlocks(m, p, q, len) == a + x2 + b + x1 + c
  {
    var r := SwappedBlocks(m, p, q, len);
    var e := a + x2 + b + x1 + c;
    forall k | 0 <= k < |m| ensures r[k] == e[k] {
    }
  }

  /**
   * The first block shorter: exchanging the first |x1| members and then
   * moving the rest of x2 back behind its head gives a + x2 + b + x1 + c.
   */
  lemma SwapShorterFirst<T>(a: seq<T>, x1: seq<T>, b: seq<T>, x2: seq<T>, c: seq<T>, m: seq<T>, p: nat, q: nat, l1: nat, l2: nat)
    requires |x1| == l1 < |x2| == l2 && |b| + |x1| > 0
    requires m == a + x1 + b + x2 + c && p == |a| && q == |a| + |x1| + |b|
    ensures MovedBlock(SwappedBlocks(m, p, q, l1), q + l1, p + l1, l2 - l1) == a + x2 + b + x1 + c
  {
    var head, tail := x2[..l1], x2[l1..];
    RegroupShorterFirst(a, x1, b, x2, c, head, tail);
    SwapEqualBlocks(a, x1, b, head, tail + c, m, p, q, l1);
    MovedBlockBackward(a + head, b + x1, tail, c, SwappedBlocks(m, p, q, l1), q + l1, p + l1, l2 - l1);
  }

  /** The regroupings SwapShorterFirst goes through, x2 cut after its head. */
  lemma RegroupShorterFirst<T>(a: seq<T>, x1: seq<T>, b: seq<T>, x2: seq<T>, c: seq<T>, head: seq<T>, tail: seq<T>)
    requires |head| <= |x2| && head == x2[..|head|] && tail == x2[|head|..]
    ensures a + x1 + b + x2 + c == a + x1 + b + head + (tail + c)
    ensures a + head + b + x1 + (tail + c) == (a + head) + (b + x1) + tail + c
    ensures (a + head) + tail + (b + x1) + c == a + x2 + b + x1 + c
  {
    assert x2 == head + tail;
  }

  /**
   * The second block shorter: exchanging the first |x2| members and then
   * moving the rest of x1 forward behind its head gives a + x2 + b + x1 + c.
   */
  lemma SwapShorterSecond<T>(a: seq<T>, x1: seq<T>, b: seq<T>, x2: seq<T>, c: seq<T>, m: seq<T>, p: nat, q: nat, l1: nat, l2: nat)
    requires |x2| == l2 < |x1| == l1
    requires m == a + x1 + b + x2 + c && p == |a| && q == |a| + |x1| + |b|
    ensures MovedBlock(SwappedBlocks(m, p, q, l2), p + l2, q + l2, l1 - l2) == a + x2 + b + x1 + c
  {
    var head, tail := x1[..l2], x1[l2..];
    RegroupShorterSecond(a, x1, b, x2, c, head, tail);
    SwapEqualBlocks(a, head, tail + b, x2, c, m, p, q, l2);
    MovedBlockForward(a + x2, tail, b + head, c, SwappedBlocks(m, p, q, l2), p + l2, q + l2, l1 - l2);
  }

  /** The regroupings SwapShorterSecond goes through, x1 cut after its head. */
  lemma RegroupShorterSecond<T>(a: seq<T>, x1: seq<T>, b: seq<T>, x2: seq<T>, c: seq<T>, head: seq<T>, tail: seq<T>)
    requires |head| <= |x1| && head == x1[..|head|] && tail == x1[|head|..]
    ensures a + x1 + b + x2 + c == a + head + (tail + b) + x2 + c
    ensures a + x2 + (tail + b) + head + c == (a + x2) + tail + (b + head) + c
    ensures (a + x2) + (b + head) + tail + c == a + x2 + b + x1 + c
  {
    assert x1 == head + tail;
  }

  /** r is what exchanging the first l1 members of the blocks at p and q and moving the rest of the longer second block back gives. */
  ghost predicate ShorterFirstResult<T>(m: seq<T>, p: nat, q: nat, l1: nat, l2: nat, r: seq<T>) {
    p + l1 <= q && p < q && q + l2 <= |m| && l1 < l2 &&
    r == MovedBlock(SwappedBlocks(m, p, q, l1), q + l1, p + l1, l2 - l1)
  }

  /** r is what exchanging the first l2 members of the blocks at p and q and moving the rest of the longer first block forward gives. */
  ghost predicate ShorterSecondResult<T>(m: seq<T>, p: nat, q: nat, l1: nat, l2: nat, r: seq<T>) {
    p + l1 <= q && q + l2 <= |m| && l2 < l1 &&
    r == MovedBlock(SwappedBlocks(m, p, q, l2), p + l2, q + l2, l1 - l2)
  }

  /** The two steps of the first-shorter exchange make up ShorterFirstResult. */
  lemma ShorterFirstMoved<T>(m0: seq<T>, m1: seq<T>, m2: seq<T>, p: nat, q: nat, l1: nat, l2: nat, from: nat, to: nat, len: nat)
    requires p + l1 <= q && p < q && q + l2 <= |m0| && l1 < l2
    requires from == q + l1 && to == p + l1 && len == l2 - l1
    requires m1 == SwappedBlocks(m0, p, q, l1) && from + len <= |m1| && to < from && m2 == MovedBlock(m1, from, to, len)
    ensures ShorterFirstResult(m0, p, q, l1, l2, m2)
  { }

  /** The two steps of the second-shorter exchange make up ShorterSecondResult. */
  lemma ShorterSecondMoved<T>(m0: seq<T>, m1: seq<T>, m2: seq<T>, p: nat, q: nat, l1: nat, l2: nat, from: nat, to: nat, len: nat)
    requires p + l1 <= q && q + l2 <= |m0| && l2 < l1
    requires from == p + l2 && to == q + l2 && len == l1 - l2
    requires m1 == SwappedBlocks(m0, p, q, l2) && from + len <= to <= |m1| && m2 == MovedBlock(m1, from, to, len)
    ensures ShorterSecondResult(m0, p, q, l1, l2, m2)
  { }

  /** The first-shorter exchange, as a fact about its result r. */
  lemma SwapShorterFirstResult<T>(a: seq<T>, x1: seq<T>, b: seq<T>, x2: seq<T>, c: seq<T>, m: seq<T>, p: nat, q: nat, l1: nat, l2: nat, r: seq<T>)
    requires |x1| == l1 && |x2| == l2 && |b| + |x1| > 0
    requires m == a + x1 + b + x2 + c && p == |a| && q == |a| + |x1| + |b|
    requires ShorterFirstResult(m, p, q, l1, l2, r)
    ensures r == a + x2 + b + x1 + c
  {
    SwapShorterFirst(a, x1, b, x2, c, m, p, q, l1, l2);
  }

  /** The second-shorter exchange, as a fact about its result r. */
  lemma SwapShorterSecondResult<T>(a: seq<T>, x1: seq<T>, b: seq<T>, x2: seq<T>, c: seq<T>, m: seq<T>, p: nat, q: nat, l1: nat, l2: nat, r: seq<T>)
    requires |x1| == l1 && |x2| == l2
    requires m == a + x1 + b + x2 + c && p == |a| && q == |a| + |x1| + |b|
    requires ShorterSecondResult(m, p, q, l1, l2, r)
    ensures r == a + x2 + b + x1 + c
  {
    SwapShorterSecond(a, x1, b, x2, c, m, p, q, l1, l2);
  }

  /**
   * shiftStartingIndicesDown's loop as the source writes it: every entry in
   * [i, end) loses diff.
   */
  function SubtractLoopAsWritten(s: seq<int>, i: nat, end: nat, diff: int): (r: seq<int>)
    requires i <= end <= |s|
    ensures |r| == |s|
    ensures forall k :: 0 <= k < |s| ==> r[k] == if i <= k < end then s[k] - diff else s[k]
    decreases end - i
  {
    if i == end then s else SubtractLoopAsWritten(s[i := s[i] - diff], i + 1, end, diff)
  }

  /**
   * shiftStartingIndicesDown as the source writes it: each entry from the
   * removed position on is decreased in place, and the last entry is dropped.
   */
  function ShiftStartingIndicesDownAsWritten(s: seq<int>, numberElements: int, r: nat): (res: seq<int>)
    requires r < |s|
    ensures |res| == |s| - 1
    ensures forall k :: 0 <= k < r ==> res[k] == s[k]
  {
    var diff := if r < |s| - 1 then s[r + 1] - s[r] else numberElements - s[r];
    SubtractLoopAsWritten(s, r, |s| - 1, diff)[..|s| - 1]
  }

  /**
   * Removing the middle of three inner sequences of lengths 3, 2 and 4:
   * the starting indices [0, 3, 5] should become [0, 3], but as written they
   * become [0, 1].
   */
  lemma ShiftDownAsWrittenLosesLaterStart()
    ensures IsStarts([0, 3, 5], [3, 2, 4])
    ensures ShiftStartingIndicesDownAsWritten([0, 3, 5], 9, 1) == [0, 1]
    ensures IsStarts([0, 3], Removed([3, 2, 4], 1))
    ensures !IsStarts([0, 1], Removed([3, 2, 4], 1))
  {
    assert [3, 2, 4][..1] == [3];
    assert [3, 2, 4][..2] == [3, 2];
    assert Removed([3, 2, 4], 1) == [3, 4];
    assert [3, 4][..1] == [3];
    assert [3][..0] == [];
    assert [3, 2][..1] == [3];
  }

  /**
   * shiftStartingIndicesUp's loop as the source writes it, for i from the
   * end down to index + 2: entry index - 1 is overwritten with entry i - 2
   * and entry i - 1 grows by shift.
   */
  function ShiftUpLoopAsWritten(t: seq<int>, index: nat, i: nat, shift: int): (r: seq<int>)
    requires i <= |t| && (i > index + 1 ==> 1 <= index)
    ensures |r| == |t|
    decreases i
  {
    if i <= index + 1 then t
    else ShiftUpLoopAsWritten(t[index - 1 := t[i - 2]][i - 1 := t[i - 1] + shift], index, i - 1, shift)
  }

  /**
   * shiftStartingIndicesUp as the source writes it: the total is appended
   * and the loop above runs over it.  (At index 0 with a non-empty sequence
   * the source writes to position -1, which is excluded here.)
   */
  function ShiftStartingIndicesUpAsWritten(s: seq<int>, numberElements: int, index: nat, shift: int): (res: seq<int>)
    requires index <= |s| && (index < |s| ==> 1 <= index)
    ensures |res| == |s| + 1
    ensures |s| > 0 && index == |s| ==> res == s + [numberElements]
  {
    if |s| == 0 then [0] else ShiftUpLoopAsWritten(s + [numberElements], index, |s| + 1, shift)
  }

  /**
   * Inserting an inner sequence of length 4 at position 1 among inner
   * sequences of lengths 3 and 2: the starting indices [0, 3] should become
   * [0, 3, 7], but as written they become [3, 3, 9].
   */
  lemma ShiftUpAsWrittenOverwritesEarlierStart()
    ensures IsStarts([0, 3], [3, 2])
    ensures ShiftStartingIndicesUpAsWritten([0, 3], 5, 1, 4) == [3, 3, 9]
    ensures IsStarts([0, 3, 7], Inserted([3, 2], 1, 4))
    ensures !IsStarts([3, 3, 9], Inserted([3, 2], 1, 4))
  {
    assert [3, 2][..1] == [3];
    assert [3][..0] == [];
    assert Inserted([3, 2], 1, 4) == [3, 4, 2];
    assert [3, 4, 2][..1] == [3];
    assert [3, 4, 2][..2] == [3, 4];
    assert [3, 4][..1] == [3];
    assert ShiftUpLoopAsWritten([0, 3, 5], 1, 3, 4) == ShiftUpLoopAsWritten([3, 3, 9], 1, 2, 4);
  }

  /**
   * positionsSwapped on the outer sequence, as the source writes the case
   * where the two starting indices are equal: only the second one is set to
   * the start of what follows it.
   */
  function SwapEqualStartsAsWritten(s: seq<int>, index2: nat, nextStartingIndex: int): (res: seq<int>)
    requires index2 < |s|
    ensures |res| == |s| && res[index2] == nextStartingIndex
    ensures forall k :: 0 <= k < |s| && k != index2 ==> res[k] == s[k]
  {
    s[index2 := nextStartingIndex]
  }

  /**
   * Swapping the first and last of the inner sequences [], [] and [7]: the
   * starting indices [0, 0, 0] should become [0, 1, 1], but as written the
   * middle one stays 0.
   */
  lemma SwapEqualStartsAsWrittenMissesMiddle()
    ensures IsStarts([0, 0, 0], Lengths([[], [], [7]]))
    ensures SwapEqualStartsAsWritten([0, 0, 0], 2, 1) == [0, 0, 1]
    ensures IsStarts([0, 1, 1], Lengths(Swapped([[], [], [7]], 0, 2)))
    ensures !IsStarts([0, 0, 1], Lengths(Swapped([[], [], [7]], 0, 2)))
  {
    var inner: seq<seq<int>> := [[], [], [7]];
    assert Lengths(inner) == [0, 0, 1];
    assert Swapped(inner, 0, 2) == [[7], [], []];
    assert Lengths(Swapped(inner, 0, 2)) == [1, 0, 0];
    assert [0, 0, 1][..1] == [0];
    assert [0, 0, 1][..2] == [0, 0];
    assert [0, 0][..1] == [0];
    assert [0][..0] == [];
    assert [1, 0, 0][..1] == [1];
    assert [1, 0, 0][..2] == [1, 0];
    assert [1, 0][..1] == [1];
    assert [1][..0] == [];
  }

  /** One more pair of members of the two blocks exchanged. */
  lemma SwappedBlocksStep<T>(m: seq<T>, a: nat, b: nat, i: nat)
    requires a + i < b && b + i < |m|
    ensures SwappedBlocks(m, a, b, i + 1) == Swapped(SwappedBlocks(m, a, b, i), a + i, b + i)
  {
    var l, r := SwappedBlocks(m, a, b, i + 1), Swapped(SwappedBlocks(m, a, b, i), a + i, b + i);
    forall k | 0 <= k < |m| ensures l[k] == r[k] {
    }
  }

  /** Removing the last member of m[..i] before m[e..]. */
  lemma RemovedFromBack<T>(m: seq<T>, i: nat, e: nat)
    requires 0 < i <= e <= |m|
    ensures m[..i - 1] + m[e..] == Removed(m[..i] + m[e..], i - 1)
  {
    assert (m[..i] + m[e..])[..i - 1] == m[..i - 1];
    assert (m[..i] + m[e..])[i..] == m[e..];
  }

  /** s in reverse order. */
  function Reverse<T>(s: seq<T>): (r: seq<T>)
    ensures |r| == |s|
  {
    if |s| == 0 then [] else Reverse(s[1..]) + [s[0]]
  }

  /** One turn of the loop of moveElements that takes the block out from its back. */
  lemma TakeOutStep<T>(m: seq<T>, e: nat, i: nat, members: seq<T>)
    requires 0 < i <= e <= |m| && members == m[..i] + m[e..]
    ensures i - 1 < |members| && members[i - 1] == m[i - 1]
    ensures Removed(members, i - 1) == m[..i - 1] + m[e..]
    ensures Reverse(m[i - 1..e]) == Reverse(m[i..e]) + [m[i - 1]]
  {
    RemovedFromBack(m, i, e);
    assert m[i - 1..e][1..] == m[i..e];
  }

  /** One turn of the loop of moveElements that puts the block back from its front. */
  lemma PutBackStep<T>(rest: seq<T>, target: nat, blk: seq<T>, k: nat, members: seq<T>)
    requires target <= |rest| && k < |blk|
    requires members == rest[..target] + blk[..k] + rest[target..]
    ensures target + k <= |members|
    ensures Inserted(members, target + k, blk[k]) == rest[..target] + blk[..k + 1] + rest[target..]
    ensures Reverse(blk[k..]) == Reverse(blk[k + 1..]) + [blk[k]]
  {
    InsertedInBlock(rest, target, blk, k);
    assert blk[k..][1..] == blk[k + 1..];
  }

  /** No member of blk inserted yet. */
  lemma EmptyBlockInserted<T>(rest: seq<T>, target: nat, blk: seq<T>)
    requires target <= |rest|
    ensures rest == rest[..target] + blk[..0] + rest[target..]
  {
  }

  /** What MoveElements builds is the moved block. */
  lemma MovedBlockAs<T>(m: seq<T>, from: nat, to: nat, len: nat, rest: seq<T>, target: nat, blk: seq<T>, k: nat)
    requires from + len <= |m| && to <= |m| && (to < from || from + len <= to)
    requires rest == m[..from] + m[from + len..] && blk == m[from..from + len] && k == len
    requires target == if to >= from then to - len else to
    ensures MovedBlock(m, from, to, len) == rest[..target] + blk[..k] + rest[target..]
  {
    assert blk[..k] == blk;
  }

  /** Inserting the next member of blk after its first k at target. */
  lemma InsertedInBlock<T>(rest: seq<T>, target: nat, blk: seq<T>, k: nat)
    requires target <= |rest| && k < |blk|
    ensures rest[..target] + blk[..k + 1] + rest[target..]
            == Inserted(rest[..target] + blk[..k] + rest[target..], target + k, blk[k])
  {
    var before := rest[..target] + blk[..k] + rest[target..];
    assert before[..target + k] == rest[..target] + blk[..k];
    assert before[target + k..] == rest[target..];
    assert blk[..k + 1] == blk[..k] + [blk[k]];
  }

  /** A changed stretch [lo, hi) of x, taken from after, inside a + x + b. */
  lemma SubsequenceOverlaid<T>(a: seq<T>, x: seq<T>, b: seq<T>, after: seq<T>, lo: nat, hi: nat)
    requires |after| == |x| && lo <= hi <= |x|
    requires forall k :: 0 <= k < |x| && !(lo <= k < hi) ==> after[k] == x[k]
    ensures var m := a + x + b;
            m[..|a| + lo] + after[lo..hi] + m[|a| + hi..] == a + after + b
  {
    var m := a + x + b;
    assert m[..|a| + lo] == a + after[..lo];
    assert m[|a| + hi..] == after[hi..] + b;
    assert after == after[..lo] + after[lo..hi] + after[hi..];
  }

  class OpFlattenOneLevel<T> {
    var startingIndices: seq<int>
    var members: seq<T>

    /**
     * For the inner sequences inner: the members are their concatenation and
     * entry i of startingIndices is where inner sequence i begins.
     */
    ghost predicate Valid(inner: seq<seq<T>>)
      reads this
    {
      Flattened(inner, startingIndices, members)
    }

    constructor ()
      ensures Valid([])
    {
      startingIndices := [];
      members := [];
    }

    /** Rebuilds the members and starting indices from the inner sequences. */
    method Reevaluate(inner: seq<seq<T>>)
      modifies this
      ensures Valid(inner)
    {
      startingIndices := seq(|inner|, _ => 0);
      members := [];
      var i := 0;
      while i < |inner|
        invariant 0 <= i <= |inner| && |startingIndices| == |inner|
        invariant members == Flatten(inner[..i])
        invariant forall k :: 0 <= k < i ==> startingIndices[k] == Sum(Lengths(inner)[..k])
      {
        LengthsPrefix(inner, i);
        startingIndices := startingIndices[i := |members|];
        ghost var starts := startingIndices;
        var j := 0;
        while j < |inner[i]|
          invariant 0 <= j <= |inner[i]|
          invariant members == Flatten(inner[..i]) + inner[i][..j]
          invariant startingIndices == starts
        {
          members := members + [inner[i][j]];
          j := j + 1;
        }
        assert inner[..i + 1][..i] == inner[..i];
        assert inner[i][..j] == inner[i];
        i := i + 1;
      }
      assert inner[..i] == inner;
    }

    /**
     * Member x was inserted at position k of inner sequence index: it is
     * inserted at that inner sequence's start plus k, and every later
     * starting index moves up by one.
     */
    method InnerValueAdded(ghost inner: seq<seq<T>>, index: nat, k: nat, x: T)
      requires Valid(inner) && index < |inner| && k <= |inner[index]|
      modifies this
      ensures Valid(inner[index := Inserted(inner[index], k, x)])
    {
      BlockBounds(inner, startingIndices, members, index);
      ghost var s0, m0 := startingIndices, members;
      members := Inserted(members, startingIndices[index] + k, x);
      IncrementIndices(index + 1, |startingIndices|, 1);
      InnerInsertedSettled(inner, index, k, x, s0, m0, startingIndices, members);
    }

    /**
     * The member at position k of inner sequence index was removed: so is
     * the member at that inner sequence's start plus k, and every later
     * starting index moves down by one.
     */
    method InnerValueRemoved(ghost inner: seq<seq<T>>, index: nat, k: nat)
      requires Valid(inner) && index < |inner| && k < |inner[index]|
      modifies this
      ensures Valid(inner[index := Removed(inner[index], k)])
    {
      BlockBounds(inner, startingIndices, members, index);
      ghost var s0, m0 := startingIndices, members;
      members := Removed(members, startingIndices[index] + k);
      IncrementIndices(index + 1, |startingIndices|, -1);
      InnerRemovedSettled(inner, index, k, s0, m0, startingIndices, members);
    }

    /** Members k1 and k2 of inner sequence index exchanged places. */
    method InnerPositionsSwapped(ghost inner: seq<seq<T>>, index: nat, k1: nat, k2: nat)
      requires Valid(inner) && index < |inner| && k1 < |inner[index]| && k2 < |inner[index]|
      modifies this`members
      ensures Valid(inner[index := Swapped(inner[index], k1, k2)])
    {
      FlattenInnerSwapped(inner, index, k1, k2);
      LengthsReplaced(inner, index, Swapped(inner[index], k1, k2));
      assert Lengths(inner)[index := |inner[index]|] == Lengths(inner);
      members := Swapped(members, startingIndices[index] + k1, startingIndices[index] + k2);
    }

    /**
     * Members [startIndex, endIndex) of inner sequence index changed, so that
     * it is now after: the same stretch of the flattened members takes the
     * new values.
     */
    method InnerSubsequenceChanged(ghost inner: seq<seq<T>>, after: seq<T>, index: nat, startIndex: nat, endIndex: nat)
      requires Valid(inner) && index < |inner| && |after| == |inner[index]|
      requires startIndex <= endIndex <= |after|
      requires forall k :: 0 <= k < |after| && !(startIndex <= k < endIndex) ==> after[k] == inner[index][k]
      modifies this`members
      ensures Valid(inner[index := after])
    {
      FlattenAt(inner, index);
      FlattenReplaced(inner, index, after);
      LengthsReplaced(inner, index, after);
      assert Lengths(inner)[index := |after|] == Lengths(inner);
      SubsequenceOverlaid(Flatten(inner[..index]), inner[index], Flatten(inner[index + 1..]), after, startIndex, endIndex);
      var p := startingIndices[index];
      members := members[..p + startIndex] + after[startIndex..endIndex] + members[p + endIndex..];
    }

    /**
     * Takes inner sequence indexBeingRemoved out of the starting indices:
     * returns its length (the gap to the next start, or to the end), every
     * later start moves down by it into the entry before, and the last entry
     * is dropped.
     */
    method ShiftStartingIndicesDown(indexBeingRemoved: nat) returns (diff: int)
      requires indexBeingRemoved < |startingIndices|
      modifies this`startingIndices
      ensures diff == if indexBeingRemoved < |old(startingIndices)| - 1
                      then old(startingIndices[indexBeingRemoved + 1] - startingIndices[indexBeingRemoved])
                      else |members| - old(startingIndices[indexBeingRemoved])
      ensures |startingIndices| == |old(startingIndices)| - 1
      ensures forall k :: 0 <= k < |startingIndices| ==>
                startingIndices[k] == if k < indexBeingRemoved then old(startingIndices[k])
                                      else old(startingIndices[k + 1]) - diff
    {
      var n := |startingIndices|;
      diff := if indexBeingRemoved < n - 1
              then startingIndices[indexBeingRemoved + 1] - startingIndices[indexBeingRemoved]
              else |members| - startingIndices[indexBeingRemoved];
      var i := indexBeingRemoved;
      while i < n - 1
        invariant indexBeingRemoved <= i <= n - 1 && |startingIndices| == n
        invariant forall k :: 0 <= k < n ==>
                    startingIndices[k] == if indexBeingRemoved <= k < i then old(startingIndices[k + 1]) - diff
                                          else old(startingIndices[k])
        invariant members == old(members)
      {
        startingIndices := startingIndices[i := startingIndices[i + 1] - diff];
        i := i + 1;
      }
      startingIndices := startingIndices[..n - 1];
    }

    /**
     * Inner sequence index was removed from the outer sequence: the starting
     * indices close the gap, and its block of members is removed from the
     * back, one member at a time.
     */
    method OperandValueRemoved(ghost inner: seq<seq<T>>, index: nat)
      requires Valid(inner) && index < |inner|
      modifies this
      ensures Valid(Removed(inner, index))
    {
      // the block's start is read before the shift (see README)
      var startIndex := startingIndices[index];
      BlockBounds(inner, startingIndices, members, index);
      ghost var s0, m0 := startingIndices, members;
      var distanceShifted := ShiftStartingIndicesDown(index);
      var endIndex := startIndex + distanceShifted;
      RemoveMembers(startIndex, endIndex);
      OperandRemovedSettled(inner, index, s0, m0, distanceShifted, startingIndices, members);
    }

    /** Members [startIndex, endIndex) are removed from the back, one at a time. */
    method RemoveMembers(startIndex: nat, endIndex: nat)
      requires startIndex <= endIndex <= |members|
      modifies this`members
      ensures members == old(members)[..startIndex] + old(members)[endIndex..]
    {
      ghost var m := members;
      var i := endIndex;
      while i > startIndex
        invariant startIndex <= i <= endIndex
        invariant members == m[..i] + m[endIndex..]
        invariant startingIndices == old(startingIndices)
      {
        RemovedFromBack(m, i, endIndex);
        members := Removed(members, i - 1);
        i := i - 1;
      }
    }

    /**
     * Makes room in the starting indices for an inner sequence of length
     * shiftAmount at index: the first one is 0; otherwise the total is
     * appended, the new entry keeps the start that was at index, and every
     * later one is its predecessor moved up by shiftAmount.
     */
    method ShiftStartingIndicesUp(index: nat, shiftAmount: nat)
      requires index <= |startingIndices|
      modifies this`startingIndices
      ensures |old(startingIndices)| == 0 ==> startingIndices == [0]
      ensures |old(startingIndices)| > 0 ==>
                var e := old(startingIndices) + [|members|];
                |startingIndices| == |e| &&
                forall k :: 0 <= k < |e| ==>
                  startingIndices[k] == if k <= index then e[k] else e[k - 1] + shiftAmount
    {
      if |startingIndices| == 0 {
        startingIndices := [0];
        return;
      }
      startingIndices := startingIndices + [|members|];
      ghost var e := startingIndices;
      var i := |startingIndices|;
      while i > index + 1
        invariant index + 1 <= i <= |e| && |startingIndices| == |e|
        invariant forall k {:trigger startingIndices[k]} :: 0 <= k < |e| ==>
                    startingIndices[k] == if k >= i then e[k - 1] + shiftAmount else e[k]
        invariant members == old(members)
      {
        startingIndices := startingIndices[i - 1 := startingIndices[i - 2] + shiftAmount];
        i := i - 1;
      }
    }

    /**
     * Inner sequence t was inserted into the outer sequence at index: the
     * starting indices make room for it and its members are inserted, in
     * order, from its starting index on.
     */
    method OperandValueAdded(ghost inner: seq<seq<T>>, index: nat, t: seq<T>)
      requires Valid(inner) && index <= |inner|
      modifies this
      ensures Valid(Inserted(inner, index, t))
    {
      ghost var s0, m0 := startingIndices, members;
      ShiftStartingIndicesUp(index, |t|);
      OperandAddedStarts(inner, index, |t|, s0, m0, startingIndices);
      InsertMembers(startingIndices[index], t);
      OperandAddedMembers(inner, index, t, s0, m0, startingIndices, members);
    }

    /** The members of t are inserted one at a time from position at on. */
    method InsertMembers(at: nat, t: seq<T>)
      requires at <= |members|
      modifies this`members
      ensures members == old(members)[..at] + t + old(members)[at..]
    {
      ghost var m := members;
      var i := 0;
      while i < |t|
        invariant 0 <= i <= |t|
        invariant members == m[..at] + t[..i] + m[at..]
        invariant startingIndices == old(startingIndices)
      {
        InsertedInBlock(m, at, t, i);
        members := Inserted(members, at + i, t[i]);
        i := i + 1;
      }
      assert t[..i] == t;
    }

    /** Starting indices [shiftStart, shiftEnd) move by moveLength. */
    method IncrementIndices(shiftStart: nat, shiftEnd: nat, moveLength: int)
      requires shiftStart <= shiftEnd <= |startingIndices|
      modifies this`startingIndices
      ensures |startingIndices| == old(|startingIndices|)
      ensures forall k :: 0 <= k < |startingIndices| ==>
                startingIndices[k] == if shiftStart <= k < shiftEnd then old(startingIndices[k]) + moveLength
                                      else old(startingIndices[k])
    {
      var i := shiftStart;
      while i < shiftEnd
        invariant shiftStart <= i <= shiftEnd && |startingIndices| == old(|startingIndices|)
        invariant forall k :: 0 <= k < |startingIndices| ==>
                    startingIndices[k] == if shiftStart <= k < i then old(startingIndices[k]) + moveLength
                                          else old(startingIndices[k])
        invariant members == old(members)
      {
        startingIndices := startingIndices[i := startingIndices[i] + moveLength];
        i := i + 1;
      }
    }

    /** Exchanges the member blocks [start1, start1 + length) and [start2, start2 + length). */
    method SwapElements(start1: nat, start2: nat, length: nat)
      requires start1 + length <= start2 && start2 + length <= |members|
      modifies this`members
      ensures members == SwappedBlocks(old(members), start1, start2, length)
    {
      ghost var m := members;
      assert SwappedBlocks(m, start1, start2, 0) == m;
      var i := 0;
      while i < length
        invariant 0 <= i <= length
        invariant members == SwappedBlocks(m, start1, start2, i)
        invariant startingIndices == old(startingIndices)
      {
        SwappedBlocksStep(m, start1, start2, i);
        members := Swapped(members, start1 + i, start2 + i);
        i := i + 1;
      }
    }

    /**
     * Moves the block of length members at start1 so that it starts at
     * start2: the block is removed from the back, one member at a time, and
     * put back in order.
     */
    method MoveElements(start1: nat, start2: nat, length: nat)
      requires start1 + length <= |members| && start2 <= |members|
      requires start2 < start1 || start1 + length <= start2
      modifies this`members
      ensures members == MovedBlock(old(members), start1, start2, length)
    {
      ghost var m := members;
      ghost var blk := m[start1..start1 + length];
      var elements := TakeOutBlock(start1, length);
      ghost var rest := members;
      var target := start2;
      if target >= start1 {
        target := target - length;
      }
      PutBackBlock(target, elements, blk);
      MovedBlockAs(m, start1, start2, length, rest, target, blk, |blk|);
    }

    /** The first loop of moveElements: the block at start1 removed from its back, its members collected in that order. */
    method TakeOutBlock(start1: nat, length: nat) returns (elements: seq<T>)
      requires start1 + length <= |members|
      modifies this`members
      ensures members == old(members)[..start1] + old(members)[start1 + length..]
      ensures elements == Reverse(old(members)[start1..start1 + length])
    {
      ghost var m := members;
      elements := [];
      var i := start1 + length;
      SplitPrefix(m, i);
      while i > start1
        invariant start1 <= i <= start1 + length
        invariant members == m[..i] + m[start1 + length..]
        invariant elements == Reverse(m[i..start1 + length])
      {
        TakeOutStep(m, start1 + length, i, members);
        elements := elements + [members[i - 1]];
        members := Removed(members, i - 1);
        i := i - 1;
      }
    }

    /** The second loop of moveElements: the collected members put back from the last one, so that blk starts at target. */
    method PutBackBlock(target: nat, elements: seq<T>, ghost blk: seq<T>)
      requires target <= |members| && elements == Reverse(blk)
      modifies this`members
      ensures members == old(members)[..target] + blk + old(members)[target..]
    {
      ghost var rest := members;
      var left := elements;
      var k := 0;
      EmptyBlockInserted(rest, target, blk);
      while |left| > 0
        invariant k <= |blk| && left == Reverse(blk[k..])
        invariant members == rest[..target] + blk[..k] + rest[target..]
      {
        PutBackStep(rest, target, blk, k, members);
        members := Inserted(members, target + k, left[|left| - 1]);
        k := k + 1;
        left := left[..|left| - 1];
      }
      assert blk[..k] == blk;
    }

    /**
     * Inner sequences index1 and index2 exchanged places: the shorter length
     * of members is swapped between their blocks, the rest of the longer block
     * is moved next to its head, and the starting indices between them move
     * by the difference of the two lengths.
     */
    method OperandPositionsSwapped(ghost inner: seq<seq<T>>, index1: nat, index2: nat)
      requires Valid(inner) && index1 < |inner| && index2 < |inner|
      modifies this
      ensures Valid(Swapped(inner, index1, index2))
    {
      if index1 == index2 {
        assert Swapped(inner, index1, index2) == inner;
        return;
      }
      var i1, i2 := index1, index2;
      if i1 > i2 {
        i1, i2 := i2, i1;
      }
      assert Swapped(inner, index1, index2) == Swapped(inner, i1, i2);
      var nextStartingIndex := if i2 + 1 < |startingIndices| then startingIndices[i2 + 1] else |members|;
      SwapBounds(inner, i1, i2, startingIndices, members);
      ghost var s0, m0 := startingIndices, members;
      var length2 := nextStartingIndex - startingIndices[i2];
      if startingIndices[i1] == startingIndices[i2] {
        // the source sets only entry i2 here (see README, Findings)
        IncrementIndices(i1 + 1, i2 + 1, length2);
        SwapCaseEqualStarts(inner, i1, i2, s0, m0, s0[i1 + 1] - s0[i1], length2, startingIndices);
        return;
      }
      var length1 := startingIndices[i1 + 1] - startingIndices[i1];
      ExchangeBlocks(s0, m0, i1, i2, length1, length2);
      if length1 == length2 {
        SwapCaseEqualLengths(inner, i1, i2, s0, m0, length1, length2, members);
      } else if length2 == 0 && i2 - i1 == 1 {
        SwapCaseAdjacentEmpty(inner, i1, i2, s0, m0, length1, length2, startingIndices, members);
      } else if length1 < length2 {
        SwapCaseShorterFirst(inner, i1, i2, s0, m0, length1, length2, startingIndices, members);
      } else {
        SwapCaseShorterSecond(inner, i1, i2, s0, m0, length1, length2, startingIndices, members);
      }
    }

    /**
     * The blocks [s0[i1], s0[i1] + length1) and [s0[i2], s0[i2] + length2),
     * at different starts, exchange places, and the starts between follow.
     */
    method ExchangeBlocks(ghost s0: seq<int>, ghost m0: seq<T>, i1: nat, i2: nat, length1: nat, length2: nat)
      requires s0 == startingIndices && m0 == members && i1 < i2 < |s0|
      requires 0 <= s0[i1] < s0[i2] && length1 == s0[i1 + 1] - s0[i1] && s0[i1] + length1 <= s0[i2]
      requires s0[i2] + length2 <= |m0|
      modifies this
      ensures length1 == length2 ==>
                startingIndices == s0 && members == SwappedBlocks(m0, s0[i1], s0[i2], length1)
      ensures length1 != length2 && length2 == 0 && i2 - i1 == 1 ==>
                startingIndices == s0[i2 := s0[i1]] && members == SwappedBlocks(m0, s0[i1], s0[i2], 0)
      ensures length1 < length2 ==>
                ShorterFirstResult(m0, s0[i1], s0[i2], length1, length2, members) &&
                |startingIndices| == |s0| &&
                forall k :: 0 <= k < |startingIndices| ==>
                  startingIndices[k] == if i1 + 1 <= k < i2 + 1 then s0[k] + (length2 - length1) else s0[k]
      ensures length2 < length1 && !(length2 == 0 && i2 - i1 == 1) ==>
                ShorterSecondResult(m0, s0[i1], s0[i2], length1, length2, members) &&
                |startingIndices| == |s0| &&
                forall k :: 0 <= k < |startingIndices| ==>
                  startingIndices[k] == if i1 + 1 <= k < i2 + 1 then s0[k] + -(length1 - length2) else s0[k]
    {
      var shorterLength := if length1 < length2 then length1 else length2;
      SwapElements(startingIndices[i1], startingIndices[i2], shorterLength);
      ghost var m1 := members;
      if length1 == length2 {
        return;
      }
      if length2 == 0 && i2 - i1 == 1 {
        startingIndices := startingIndices[i2 := startingIndices[i1]];
        return;
      }
      var fromStart, toStart, moveLength;
      if length1 < length2 {
        fromStart := startingIndices[i2] + length1;
        toStart := startingIndices[i1] + length1;
        moveLength := length2 - length1;
        IncrementIndices(i1 + 1, i2 + 1, moveLength);
      } else {
        fromStart := startingIndices[i1] + length2;
        toStart := startingIndices[i2] + length2;
        moveLength := length1 - length2;
        IncrementIndices(i1 + 1, i2 + 1, -moveLength);
      }
      MoveElements(fromStart, toStart, moveLength);
      if length1 < length2 {
        ShorterFirstMoved(m0, m1, members, s0[i1], s0[i2], length1, length2, fromStart, toStart, moveLength);
      } else {
        ShorterSecondMoved(m0, m1, members, s0[i1], s0[i2], length1, length2, fromStart, toStart, moveLength);
      }
    }
  }

  /** m is the flattening of inner and s holds where each inner sequence starts in it. */
  ghost predicate Flattened<T>(inner: seq<seq<T>>, s: seq<int>, m: seq<T>) {
    m == Flatten(inner) && IsStarts(s, Lengths(inner))
  }

  /** Inner sequence j occupies [s[j], s[j] + |inner[j]|), which ends at the next start or at the end. */
  lemma BlockBounds<T>(inner: seq<seq<T>>, s: seq<int>, m: seq<T>, j: nat)
    requires Flattened(inner, s, m) && j < |inner|
    ensures 0 <= s[j] && s[j] + |inner[j]| <= |m|
    ensures s[j] + |inner[j]| == if j + 1 < |s| then s[j + 1] else |m|
  {
    FlattenAt(inner, j);
    StartsDifference(s, Lengths(inner), j);
  }

  /** The state after a member was inserted into inner sequence index. */
  lemma InnerInsertedSettled<T>(inner: seq<seq<T>>, index: nat, k: nat, x: T, s0: seq<int>, m0: seq<T>, s: seq<int>, m: seq<T>)
    requires Flattened(inner, s0, m0) && index < |inner| && k <= |inner[index]|
    requires 0 <= s0[index] && s0[index] + |inner[index]| <= |m0|
    requires m == Inserted(m0, s0[index] + k, x)
    requires |s| == |s0|
    requires forall j {:trigger s[j]} :: 0 <= j < |s| ==> s[j] == if index + 1 <= j < |s0| then s0[j] + 1 else s0[j]
    ensures Flattened(inner[index := Inserted(inner[index], k, x)], s, m)
  {
    FlattenInnerInserted(inner, index, k, x);
    LengthsReplaced(inner, index, Inserted(inner[index], k, x));
    StartsLengthChanged(s0, Lengths(inner), index, |inner[index]| + 1, s);
  }

  /** The state after a member was removed from inner sequence index. */
  lemma InnerRemovedSettled<T>(inner: seq<seq<T>>, index: nat, k: nat, s0: seq<int>, m0: seq<T>, s: seq<int>, m: seq<T>)
    requires Flattened(inner, s0, m0) && index < |inner| && k < |inner[index]|
    requires 0 <= s0[index] && s0[index] + |inner[index]| <= |m0|
    requires m == Removed(m0, s0[index] + k)
    requires |s| == |s0|
    requires forall j {:trigger s[j]} :: 0 <= j < |s| ==> s[j] == if index + 1 <= j < |s0| then s0[j] + -1 else s0[j]
    ensures Flattened(inner[index := Removed(inner[index], k)], s, m)
  {
    FlattenInnerRemoved(inner, index, k);
    LengthsReplaced(inner, index, Removed(inner[index], k));
    StartsLengthChanged(s0, Lengths(inner), index, |inner[index]| - 1, s);
  }

  /** The state after inner sequence index was removed: its gap closed and its block gone. */
  lemma OperandRemovedSettled<T>(inner: seq<seq<T>>, index: nat, s0: seq<int>, m0: seq<T>, diff: int, s: seq<int>, m: seq<T>)
    requires Flattened(inner, s0, m0) && index < |inner|
    requires diff == if index < |s0| - 1 then s0[index + 1] - s0[index] else |m0| - s0[index]
    requires |s| == |s0| - 1
    requires forall k {:trigger s[k]} :: 0 <= k < |s| ==> s[k] == if k < index then s0[k] else s0[k + 1] - diff
    requires 0 <= s0[index] <= s0[index] + diff <= |m0|
    requires m == m0[..s0[index]] + m0[s0[index] + diff..]
    ensures diff == |inner[index]|
    ensures Flattened(Removed(inner, index), s, m)
  {
    BlockBounds(inner, s0, m0, index);
    FlattenAt(inner, index);
    OperandRemovedMembers(inner, index, s0[index], diff, m0, m);
    LengthsRemoved(inner, index);
    StartsRemoved(s0, Lengths(inner), index, diff, s);
  }

  /** Cutting the block of inner sequence index out of the flattening flattens the rest. */
  lemma OperandRemovedMembers<T>(inner: seq<seq<T>>, index: nat, p: nat, d: nat, m0: seq<T>, m: seq<T>)
    requires index < |inner| && m0 == Flatten(inner)
    requires p == |Flatten(inner[..index])| && d == |inner[index]|
    requires p + d <= |m0| && m == m0[..p] + m0[p + d..]
    ensures m == Flatten(Removed(inner, index))
  {
    FlattenOuterRemoved(inner, index);
    DropMiddle(Flatten(inner[..index]), inner[index], Flatten(inner[index + 1..]), m0, p, d);
  }

  /** Dropping the middle piece of a + x + b by position leaves a + b. */
  lemma DropMiddle<T>(a: seq<T>, x: seq<T>, b: seq<T>, m: seq<T>, p: nat, d: nat)
    requires m == a + x + b && p == |a| && d == |x|
    ensures p + d <= |m| && m[..p] + m[p + d..] == a + b
  {
    assert m[..p] == a;
    assert m[p + d..] == b;
  }

  /**
   * The starting indices once room was made for an inner sequence of length
   * v at index: they fit the inserted lengths, and the new one is where the
   * inner sequences before index end.
   */
  lemma OperandAddedStarts<T>(inner: seq<seq<T>>, index: nat, v: nat, s0: seq<int>, m0: seq<T>, s: seq<int>)
    requires Flattened(inner, s0, m0) && index <= |inner|
    requires |s0| == 0 ==> s == [0]
    requires |s0| > 0 ==>
               var e := s0 + [|m0|];
               |s| == |e| && forall k {:trigger s[k]} :: 0 <= k < |e| ==> s[k] == if k <= index then e[k] else e[k - 1] + v
    ensures IsStarts(s, Inserted(Lengths(inner), index, v))
    ensures s[index] == |Flatten(inner[..index])| && 0 <= s[index] <= |m0|
  {
    var lengths := Lengths(inner);
    FlattenOuterInserted(inner, index, []);
    SumPrefixInserted(lengths, index, v, index);
    if |s0| == 0 {
      assert Inserted(lengths, index, v)[..0] == [];
    } else {
      FlattenLength(inner);
      AddedStartsAsSums(s0, lengths, index, v, s);
      StartsInserted(lengths, index, v, s);
    }
  }

  /** The starts with room made at index, written as sums of the lengths. */
  lemma AddedStartsAsSums(s0: seq<int>, lengths: seq<nat>, index: nat, v: nat, s: seq<int>)
    requires IsStarts(s0, lengths) && index <= |lengths|
    requires var e := s0 + [Sum(lengths)];
             |s| == |e| && forall k {:trigger s[k]} :: 0 <= k < |e| ==> s[k] == if k <= index then e[k] else e[k - 1] + v
    ensures forall k {:trigger s[k]} :: 0 <= k < |s| ==>
              s[k] == if k <= index then Sum(lengths[..k]) else Sum(lengths[..k - 1]) + v
  {
    StartsWithTotal(s0, lengths);
    var e := s0 + [Sum(lengths)];
    forall k | 0 <= k < |s| ensures s[k] == if k <= index then Sum(lengths[..k]) else Sum(lengths[..k - 1]) + v {
      if k <= index {
        assert s[k] == e[k];
      } else {
        assert s[k] == e[k - 1] + v;
      }
    }
  }

  /** The members once the block of inner sequence t was inserted where index starts. */
  lemma OperandAddedMembers<T>(inner: seq<seq<T>>, index: nat, t: seq<T>, s0: seq<int>, m0: seq<T>, s: seq<int>, m: seq<T>)
    requires Flattened(inner, s0, m0) && index <= |inner|
    requires IsStarts(s, Inserted(Lengths(inner), index, |t|))
    requires s[index] == |Flatten(inner[..index])| && 0 <= s[index] <= |m0|
    requires m == m0[..s[index]] + t + m0[s[index]..]
    ensures Flattened(Inserted(inner, index, t), s, m)
  {
    FlattenOuterInserted(inner, index, t);
    LengthsInserted(inner, index, t);
    assert m0[..s[index]] == Flatten(inner[..index]);
    assert m0[s[index]..] == Flatten(inner[index..]);
  }

  /** The starts around inner sequences i < j are ordered and within the members. */
  lemma SwapBounds<T>(inner: seq<seq<T>>, i: nat, j: nat, s: seq<int>, m: seq<T>)
    requires Flattened(inner, s, m) && i < j < |inner|
    ensures 0 <= s[i] <= s[i + 1] <= s[j] <= (if j + 1 < |s| then s[j + 1] else |m|) <= |m|
  {
    SwapPieces(inner, i, j, s);
  }

  /**
   * Inner sequences i < j are to be exchanged; l1 and l2 are their lengths,
   * read off the starting indices.
   */
  ghost predicate SwapCase<T>(inner: seq<seq<T>>, i: nat, j: nat, s0: seq<int>, m0: seq<T>, l1: int, l2: int) {
    i < j < |inner| && Flattened(inner, s0, m0) &&
    l1 == s0[i + 1] - s0[i] && l2 == (if j + 1 < |s0| then s0[j + 1] else |m0|) - s0[j] &&
    0 <= s0[i] && 0 <= l1 && s0[i] + l1 <= s0[j] && 0 <= l2 && s0[j] + l2 <= |m0|
  }

  /** Equal starts: only the second block has members, and the starts between shift by its length. */
  lemma SwapCaseEqualStarts<T>(inner: seq<seq<T>>, i: nat, j: nat, s0: seq<int>, m0: seq<T>, l1: int, l2: int, s: seq<int>)
    requires SwapCase(inner, i, j, s0, m0, l1, l2) && s0[i] == s0[j]
    requires |s| == |s0| && forall k :: 0 <= k < |s| ==> s[k] == if i + 1 <= k < j + 1 then s0[k] + l2 else s0[k]
    ensures Flattened(Swapped(inner, i, j), s, m0)
  {
    SwapPieces(inner, i, j, s0);
    var a, b, c := Flatten(inner[..i]), Flatten(inner[i + 1..j]), Flatten(inner[j + 1..]);
    assert |inner[i]| + |b| == 0 && l2 == |inner[j]|;
    SwapEmptyFirst(a, inner[i], b, inner[j], c);
    assert m0 == Flatten(Swapped(inner, i, j));
    SwapSettled(inner, i, j, s0, l2, s, m0);
  }

  /** Equal lengths: exchanging the blocks is all there is to do. */
  lemma SwapCaseEqualLengths<T>(inner: seq<seq<T>>, i: nat, j: nat, s0: seq<int>, m0: seq<T>, l1: int, l2: int, m: seq<T>)
    requires SwapCase(inner, i, j, s0, m0, l1, l2) && l1 == l2
    requires m == SwappedBlocks(m0, s0[i], s0[j], l1)
    ensures Flattened(Swapped(inner, i, j), s0, m)
  {
    SwapPieces(inner, i, j, s0);
    var a, b, c := Flatten(inner[..i]), Flatten(inner[i + 1..j]), Flatten(inner[j + 1..]);
    var x1, x2 := inner[i], inner[j];
    assert m0 == a + x1 + b + x2 + c;
    assert s0[i] == |a| && s0[j] == |a| + |x1| + |b| && l1 == |x1| == |x2|;
    SwapEqualBlocks(a, x1, b, x2, c, m0, s0[i], s0[j], l1);
    assert m == Flatten(Swapped(inner, i, j));
    SwapSettled(inner, i, j, s0, 0, s0, m);
  }

  /** An empty second block right after the first: only its start moves, back to the first's. */
  lemma SwapCaseAdjacentEmpty<T>(inner: seq<seq<T>>, i: nat, j: nat, s0: seq<int>, m0: seq<T>, l1: int, l2: int, s: seq<int>, m: seq<T>)
    requires SwapCase(inner, i, j, s0, m0, l1, l2) && l2 == 0 && j == i + 1
    requires m == SwappedBlocks(m0, s0[i], s0[j], 0) && s == s0[j := s0[i]]
    ensures Flattened(Swapped(inner, i, j), s, m)
  {
    assert m == m0;
    SwapPositions(inner, i, j, s0);
    AdjacentEmptyMembers(inner, i, m0);
    SwapSettled(inner, i, j, s0, -l1, s, m);
  }

  /** Exchanging an inner sequence with an empty one right after it leaves the flattening as it is. */
  lemma AdjacentEmptyMembers<T>(inner: seq<seq<T>>, i: nat, m0: seq<T>)
    requires i + 1 < |inner| && |inner[i + 1]| == 0 && m0 == Flatten(inner)
    ensures m0 == Flatten(Swapped(inner, i, i + 1))
  {
    var pre, x, e, post := inner[..i], inner[i], inner[i + 1], inner[i + 2..];
    var none: seq<seq<T>> := [];
    AdjacentSplit(inner, i, none);
    FlattenPieces(pre, x, none, e, post);
    FlattenPieces(pre, e, none, x, post);
    EmptiesAround(Flatten(pre), x, Flatten(none), e, Flatten(post));
  }

  /** Inner sequences i and i + 1 with nothing between them, before and after exchanging them. */
  lemma AdjacentSplit<T>(inner: seq<seq<T>>, i: nat, none: seq<seq<T>>)
    requires i + 1 < |inner| && none == []
    ensures inner == inner[..i] + [inner[i]] + none + [inner[i + 1]] + inner[i + 2..]
    ensures Swapped(inner, i, i + 1) == inner[..i] + [inner[i + 1]] + none + [inner[i]] + inner[i + 2..]
  {
    assert inner == inner[..i] + [inner[i]] + none + [inner[i + 1]] + inner[i + 2..];
    var r := inner[..i] + [inner[i + 1]] + none + [inner[i]] + inner[i + 2..];
    assert forall k :: 0 <= k < |inner| ==> Swapped(inner, i, i + 1)[k] == r[k];
  }

  /** Two empty pieces on either side of x leave the concatenation as it is. */
  lemma EmptiesAround<T>(a: seq<T>, x: seq<T>, n: seq<T>, e: seq<T>, c: seq<T>)
    requires |n| == 0 && |e| == 0
    ensures a + x + n + e + c == a + e + n + x + c
  {
    assert n == [] && e == [];
    assert a + x + n + e + c == a + x + c;
    assert a + e + n + x + c == a + x + c;
  }

  /** The first block shorter: swap its length, then move the rest of the second block back. */
  lemma SwapCaseShorterFirst<T>(inner: seq<seq<T>>, i: nat, j: nat, s0: seq<int>, m0: seq<T>, l1: int, l2: int, s: seq<int>, m: seq<T>)
    requires SwapCase(inner, i, j, s0, m0, l1, l2) && s0[i] != s0[j]
    requires ShorterFirstResult(m0, s0[i], s0[j], l1, l2, m)
    requires |s| == |s0| && forall k :: 0 <= k < |s| ==> s[k] == if i + 1 <= k < j + 1 then s0[k] + (l2 - l1) else s0[k]
    ensures Flattened(Swapped(inner, i, j), s, m)
  {
    SwapPositions(inner, i, j, s0);
    assert l1 == |inner[i]| && l2 == |inner[j]|;
    ShorterFirstMembers(inner, i, j, m0, s0[i], s0[j], l1, l2, m);
    SwapSettled(inner, i, j, s0, l2 - l1, s, m);
  }

  /** The members after the first-shorter exchange are the swapped flattening. */
  lemma ShorterFirstMembers<T>(inner: seq<seq<T>>, i: nat, j: nat, m0: seq<T>, p: nat, q: nat, l1: nat, l2: nat, m: seq<T>)
    requires i < j < |inner| && m0 == Flatten(inner)
    requires p == |Flatten(inner[..i])| && q == p + |inner[i]| + |Flatten(inner[i + 1..j])|
    requires l1 == |inner[i]| && l2 == |inner[j]| && p != q
    requires ShorterFirstResult(m0, p, q, l1, l2, m)
    ensures m == Flatten(Swapped(inner, i, j))
  {
    FlattenOuterSwapped(inner, i, j);
    SwapShorterFirstResult(Flatten(inner[..i]), inner[i], Flatten(inner[i + 1..j]), inner[j], Flatten(inner[j + 1..]), m0, p, q, l1, l2, m);
  }

  /** The second block shorter: swap its length, then move the rest of the first block forward. */
  lemma SwapCaseShorterSecond<T>(inner: seq<seq<T>>, i: nat, j: nat, s0: seq<int>, m0: seq<T>, l1: int, l2: int, s: seq<int>, m: seq<T>)
    requires SwapCase(inner, i, j, s0, m0, l1, l2)
    requires ShorterSecondResult(m0, s0[i], s0[j], l1, l2, m)
    requires |s| == |s0| && forall k :: 0 <= k < |s| ==> s[k] == if i + 1 <= k < j + 1 then s0[k] + -(l1 - l2) else s0[k]
    ensures Flattened(Swapped(inner, i, j), s, m)
  {
    SwapPositions(inner, i, j, s0);
    assert l1 == |inner[i]| && l2 == |inner[j]|;
    ShorterSecondMembers(inner, i, j, m0, s0[i], s0[j], l1, l2, m);
    SwapSettled(inner, i, j, s0, -(l1 - l2), s, m);
  }

  /** The members after the second-shorter exchange are the swapped flattening. */
  lemma ShorterSecondMembers<T>(inner: seq<seq<T>>, i: nat, j: nat, m0: seq<T>, p: nat, q: nat, l1: nat, l2: nat, m: seq<T>)
    requires i < j < |inner| && m0 == Flatten(inner)
    requires p == |Flatten(inner[..i])| && q == p + |inner[i]| + |Flatten(inner[i + 1..j])|
    requires l1 == |inner[i]| && l2 == |inner[j]|
    requires ShorterSecondResult(m0, p, q, l1, l2, m)
    ensures m == Flatten(Swapped(inner, i, j))
  {
    FlattenOuterSwapped(inner, i, j);
    SwapShorterSecondResult(Flatten(inner[..i]), inner[i], Flatten(inner[i + 1..j]), inner[j], Flatten(inner[j + 1..]), m0, p, q, l1, l2, m);
  }

  /** With nothing between the two starts, the swap leaves the members as they are. */
  lemma SwapEmptyFirst<T>(a: seq<T>, x1: seq<T>, b: seq<T>, x2: seq<T>, c: seq<T>)
    requires |x1| + |b| == 0
    ensures a + x1 + b + x2 + c == a + x2 + b + x1 + c
  {
    assert x1 == [] && b == [];
  }

  /** The pieces of the flattened members around inner sequences i < j, and their lengths. */
  lemma SwapPieces<T>(inner: seq<seq<T>>, i: nat, j: nat, s: seq<int>)
    requires i < j < |inner| && IsStarts(s, Lengths(inner))
    ensures Flatten(inner)
            == Flatten(inner[..i]) + inner[i] + Flatten(inner[i + 1..j]) + inner[j] + Flatten(inner[j + 1..])
    ensures Flatten(Swapped(inner, i, j))
            == Flatten(inner[..i]) + inner[j] + Flatten(inner[i + 1..j]) + inner[i] + Flatten(inner[j + 1..])
    ensures s[i] == |Flatten(inner[..i])|
    ensures s[j] == |Flatten(inner[..i])| + |inner[i]| + |Flatten(inner[i + 1..j])|
    ensures s[i + 1] - s[i] == |inner[i]|
    ensures (if j + 1 < |s| then s[j + 1] else |Flatten(inner)|) - s[j] == |inner[j]|
  {
    FlattenOuterSwapped(inner, i, j);
    StartsDifference(s, Lengths(inner), i);
    StartsDifference(s, Lengths(inner), j);
  }

  /** Where the two blocks of a swap start and how long they are, read off the starting indices. */
  lemma SwapPositions<T>(inner: seq<seq<T>>, i: nat, j: nat, s: seq<int>)
    requires i < j < |inner| && IsStarts(s, Lengths(inner))
    ensures s[i] == |Flatten(inner[..i])|
    ensures s[j] == |Flatten(inner[..i])| + |inner[i]| + |Flatten(inner[i + 1..j])|
    ensures s[i + 1] - s[i] == |inner[i]|
    ensures (if j + 1 < |s| then s[j + 1] else |Flatten(inner)|) - s[j] == |inner[j]|
  {
    SwapPieces(inner, i, j, s);
  }

  /**
   * The state a swap of inner sequences i < j ends in is valid for the
   * swapped sequence: the members are the swapped flattening and the
   * starting indices after i up to j moved by the difference of the lengths.
   */
  lemma SwapSettled<T>(inner: seq<seq<T>>, i: nat, j: nat, s0: seq<int>, delta: int, s: seq<int>, members: seq<T>)
    requires i < j < |inner| && IsStarts(s0, Lengths(inner)) && |s| == |s0|
    requires delta == |inner[j]| - |inner[i]|
    requires members == Flatten(Swapped(inner, i, j))
    requires forall k :: 0 <= k < |s| ==> s[k] == if i + 1 <= k < j + 1 then s0[k] + delta else s0[k]
    ensures Flattened(Swapped(inner, i, j), s, members)
  {
    LengthsSwapped(inner, i, j);
    StartsSwapped(s0, Lengths(inner), i, j, s);
  }

}
