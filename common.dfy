// Definitions shared by the whole model.

module Common {

  /** The largest value of the source's 64-bit unsigned integers (UInt, size_t). */
  const UINT64_MAX: nat := 0xFFFF_FFFF_FFFF_FFFF

  datatype Option<T> = None | Some(value: T)

  /** Hash values of members, treated as opaque numbers. */
  type Hash = int

  /** Some element of a non-empty set (a proof step). */
  lemma PickElement<T>(s: set<T>) returns (x: T)
    requires |s| > 0
    ensures x in s
  {
    x :| x in s;
  }

  /** Some element of a non-empty set, for iterating over a set. */
  method Pick<T>(s: set<T>) returns (x: T)
    requires s != {}
    ensures x in s
  {
    x :| x in s;
  }

  // ---- regrouping sequences (proof steps) ----

  /** Concatenation regroups freely. */
  lemma ConcatAssoc<T>(a: seq<T>, b: seq<T>, c: seq<T>)
    ensures (a + b) + c == a + (b + c)
  {
  }

  /** The parts of a + b are a and b. */
  lemma ConcatParts<T>(a: seq<T>, b: seq<T>)
    ensures (a + b)[..|a|] == a && (a + b)[|a|..] == b
  {
  }

  /** A prefix of a prefix is a prefix. */
  lemma PrefixOfPrefix<T>(s: seq<T>, i: nat, j: nat)
    requires j <= i <= |s|
    ensures s[..i][..j] == s[..j]
  {
  }

  /** Dropping i and then j more members drops i + j. */
  lemma DropOfDrop<T>(s: seq<T>, i: nat, j: nat)
    requires i <= j <= |s|
    ensures s[i..][j - i..] == s[j..]
  {
  }

  /** s cut at index. */
  lemma SplitPrefix<T>(s: seq<T>, index: nat)
    requires index <= |s|
    ensures s == s[..index] + s[index..]
  {
  }

  /** The last entry of a concatenation comes from its second part. */
  lemma DropLastConcat<T>(a: seq<T>, b: seq<T>)
    requires |b| > 0
    ensures (a + b)[..|a + b| - 1] == a + b[..|b| - 1]
    ensures (a + b)[|a + b| - 1] == b[|b| - 1]
  {
  }

  /** s around its entry i. */
  lemma SplitAt<T>(s: seq<T>, i: nat)
    requires i < |s|
    ensures s == s[..i] + [s[i]] + s[i + 1..]
  {
  }

  /** b around its entries i and i + 1. */
  lemma SplitPair<T>(b: seq<T>, i: nat)
    requires i + 1 < |b|
    ensures b == b[..i] + [b[i], b[i + 1]] + b[i + 2..]
  {
  }
}
