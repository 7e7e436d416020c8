// The search's objective values: an integer or a tuple of integers together
// with the optimisation mode, ordered so that "less" means "better".

module Objectives {
  import opened Common

  datatype OptimiseMode = Minimise | Maximise

  /** The value of an objective expression: one integer, or a tuple compared lexicographically. */
  datatype ObjectiveValue = IntValue(v: int) | TupleValue(items: seq<int>)

  datatype Objective = Objective(mode: OptimiseMode, value: ObjectiveValue)

  /**
   * The lexicographic order of the standard library on integer arrays and
   * vectors: the first differing position decides, and a proper prefix
   * comes first.
   */
  function LexLess(a: seq<int>, b: seq<int>): (r: bool)
    ensures |a| == 0 ==> (r <==> |b| > 0)
    ensures r && |a| > 0 ==> |b| > 0 && a[0] <= b[0]
    decreases |a|
  {
    if |b| == 0 then false
    else if |a| == 0 then true
    else a[0] < b[0] || (a[0] == b[0] && LexLess(a[1..], b[1..]))
  }

  /** a comes before b at position k: they agree before k, and there a ends or holds the smaller value. */
  ghost predicate DiffersAt(a: seq<int>, b: seq<int>, k: nat) {
    k <= |a| && k < |b| && a[..k] == b[..k] && (k == |a| || a[k] < b[k])
  }

  /** LexLess holds exactly when some position decides in a's favour. */
  lemma {:induction false} LexLessIffDiffersAt(a: seq<int>, b: seq<int>)
    ensures LexLess(a, b) <==> exists k: nat :: DiffersAt(a, b, k)
    decreases |a|
  {
    if |b| == 0 {
      assert forall k: nat :: !DiffersAt(a, b, k);
    } else if |a| == 0 {
      assert DiffersAt(a, b, 0);
    } else if a[0] < b[0] {
      assert DiffersAt(a, b, 0);
    } else if a[0] == b[0] {
      LexLessIffDiffersAt(a[1..], b[1..]);
      if LexLess(a[1..], b[1..]) {
        var k: nat :| DiffersAt(a[1..], b[1..], k);
        assert a[..k + 1] == [a[0]] + a[1..][..k];
        assert b[..k + 1] == [b[0]] + b[1..][..k];
        assert DiffersAt(a, b, k + 1);
      }
      if exists k: nat :: DiffersAt(a, b, k) {
        var k: nat :| DiffersAt(a, b, k);
        assert k != 0;
        assert a[1..][..k - 1] == a[..k][1..];
        assert b[1..][..k - 1] == b[..k][1..];
        assert DiffersAt(a[1..], b[1..], k - 1);
      }
    } else {
      if exists k: nat :: DiffersAt(a, b, k) {
        var k: nat :| DiffersAt(a, b, k);
        if k > 0 {
          assert a[..k][0] == b[..k][0];
        }
      }
    }
  }

  /** The lexicographic order is irreflexive. */
  lemma {:induction false} LexLessIrreflexive(a: seq<int>)
    ensures !LexLess(a, a)
    decreases |a|
  {
    if |a| > 0 {
      LexLessIrreflexive(a[1..]);
    }
  }

  /** The lexicographic order is total: of two different sequences one comes first. */
  lemma {:induction false} LexLessTotal(a: seq<int>, b: seq<int>)
    ensures a == b || LexLess(a, b) || LexLess(b, a)
    decreases |a|
  {
    if |a| > 0 && |b| > 0 && a[0] == b[0] {
      LexLessTotal(a[1..], b[1..]);
      if a[1..] == b[1..] {
        assert a == [a[0]] + a[1..] && b == [b[0]] + b[1..];
      }
    }
  }

  /** The lexicographic order is asymmetric. */
  lemma {:induction false} LexLessAsymmetric(a: seq<int>, b: seq<int>)
    ensures !(LexLess(a, b) && LexLess(b, a))
    decreases |a|
  {
    if |a| > 0 && |b| > 0 && a[0] == b[0] {
      LexLessAsymmetric(a[1..], b[1..]);
    }
  }

  /** The lexicographic order is transitive. */
  lemma {:induction false} LexLessTransitive(a: seq<int>, b: seq<int>, c: seq<int>)
    requires LexLess(a, b) && LexLess(b, c)
    ensures LexLess(a, c)
    decreases |a|
  {
    if |a| > 0 && a[0] == b[0] && b[0] == c[0] {
      LexLessTransitive(a[1..], b[1..], c[1..]);
    }
  }

  /** Both values are integers, or both are tuples: the only pairs the operators compare. */
  predicate SameKind(a: ObjectiveValue, b: ObjectiveValue) {
    a.IntValue? == b.IntValue?
  }

  /** The value-level < : integer order, or the lexicographic order on tuples. */
  function ValueLess(a: ObjectiveValue, b: ObjectiveValue): (r: bool)
    requires SameKind(a, b)
  {
    if a.IntValue? then a.v < b.v else LexLess(a.items, b.items)
  }

  /** The value-level <= : integer order, or "not after" in the lexicographic order. */
  function ValueLessEq(a: ObjectiveValue, b: ObjectiveValue): (r: bool)
    requires SameKind(a, b)
  {
    if a.IntValue? then a.v <= b.v else !LexLess(b.items, a.items)
  }

  /** Two objectives the operators may compare: the same mode and the same kind of value. */
  predicate Comparable(a: Objective, b: Objective) {
    a.mode == b.mode && SameKind(a.value, b.value)
  }

  /**
   * operator<: a is strictly better than b.  Minimising, the smaller value
   * is better; maximising, the larger.
   */
  function Less(a: Objective, b: Objective): (r: bool)
    requires Comparable(a, b)
    ensures a.mode == Minimise ==> (r <==> ValueLess(a.value, b.value))
    ensures a.mode == Maximise ==> (r <==> ValueLess(b.value, a.value))
    ensures a.value.IntValue? ==> (r <==> if a.mode == Minimise then a.value.v < b.value.v else a.value.v > b.value.v)
  {
    if a.mode == Minimise then ValueLess(a.value, b.value) else ValueLess(b.value, a.value)
  }

  /** operator<=: a is at least as good as b. */
  function LessEq(a: Objective, b: Objective): (r: bool)
    requires Comparable(a, b)
    ensures r <==> Less(a, b) || Equal(a, b)
  {
    var v := if a.mode == Minimise then ValueLessEq(a.value, b.value) else ValueLessEq(b.value, a.value);
    if a.value.IntValue? then v
    else
      LexLessTotal(a.value.items, b.value.items);
      LexLessAsymmetric(a.value.items, b.value.items);
      LexLessIrreflexive(a.value.items);
      v
  }

  /** operator==: the values are equal; the mode plays no part. */
  function Equal(a: Objective, b: Objective): (r: bool)
    requires Comparable(a, b)
    ensures r <==> a.value == b.value
  {
    if a.value.IntValue? then a.value.v == b.value.v else a.value.items == b.value.items
  }

  /** No objective is better than itself. */
  lemma LessIrreflexive(a: Objective)
    ensures !Less(a, a)
  {
    if a.value.TupleValue? {
      LexLessIrreflexive(a.value.items);
    }
  }

  /** Exactly one of "a better", "equal", "b better" holds. */
  lemma Trichotomy(a: Objective, b: Objective)
    requires Comparable(a, b)
    ensures Less(a, b) || Equal(a, b) || Less(b, a)
    ensures !(Less(a, b) && Less(b, a))
    ensures Equal(a, b) ==> !Less(a, b) && !Less(b, a)
  {
    if a.value.TupleValue? {
      LexLessTotal(a.value.items, b.value.items);
      LexLessAsymmetric(a.value.items, b.value.items);
      LexLessIrreflexive(a.value.items);
    }
  }

  /** "Better" is transitive. */
  lemma LessTransitive(a: Objective, b: Objective, c: Objective)
    requires Comparable(a, b) && Comparable(b, c)
    requires Less(a, b) && Less(b, c)
    ensures Less(a, c)
  {
    if a.value.TupleValue? {
      if a.mode == Minimise {
        LexLessTransitive(a.value.items, b.value.items, c.value.items);
      } else {
        LexLessTransitive(c.value.items, b.value.items, a.value.items);
      }
    }
  }

  /** Switching the mode reverses "better" between two objectives. */
  lemma ModeReverses(a: Objective, b: Objective)
    requires Comparable(a, b)
    ensures Less(a.(mode := Minimise), b.(mode := Minimise)) <==> Less(b.(mode := Maximise), a.(mode := Maximise))
    ensures Equal(a.(mode := Minimise), b.(mode := Minimise)) <==> Equal(a.(mode := Maximise), b.(mode := Maximise))
  {
  }

  /**
   * The tuple constructor's element copy: the members' values in order, or
   * None when some member is undefined (the source reports an error and
   * aborts).
   */
  method AssignElements(members: seq<Option<int>>) returns (r: Option<seq<int>>)
    ensures r.None? <==> exists i :: 0 <= i < |members| && members[i].None?
    ensures r.Some? ==> |r.value| == |members| && forall i :: 0 <= i < |members| ==> r.value[i] == members[i].value
  {
    var items: seq<int> := [];
    var i := 0;
    while i < |members|
      invariant 0 <= i <= |members| && |items| == i
      invariant forall k :: 0 <= k < i ==> members[k].Some? && items[k] == members[k].value
    {
      if members[i].None? {
        return None;
      }
      items := items + [members[i].value];
      i := i + 1;
    }
    return Some(items);
  }

  /**
   * The objective of a tuple expression: None for an empty tuple or an
   * undefined member (both abort in the source), otherwise a tuple value.
   */
  method TupleObjective(mode: OptimiseMode, members: seq<Option<int>>) returns (r: Option<Objective>)
    ensures r.None? <==> |members| == 0 || exists i :: 0 <= i < |members| && members[i].None?
    ensures r.Some? ==> r.value.mode == mode && r.value.value.TupleValue? &&
                        |r.value.value.items| == |members| &&
                        forall i :: 0 <= i < |members| ==> r.value.value.items[i] == members[i].value
  {
    if |members| == 0 {
      return None;
    }
    var items := AssignElements(members);
    if items.None? {
      return None;
    }
    return Some(Objective(mode, TupleValue(items.value)));
  }

  /** The objective of an integer expression: None when it is undefined (the source aborts). */
  function IntObjective(mode: OptimiseMode, value: Option<int>): (r: Option<Objective>)
    ensures r.None? <==> value.None?
    ensures r.Some? ==> r.value.mode == mode && r.value.value == IntValue(value.value)
  {
    if value.None? then None else Some(Objective(mode, IntValue(value.value)))
  }
}
