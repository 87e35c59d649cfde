/** Vocabulary shared by both registry variants: values, procedure
    outcomes, phases, and ordering of records by their registration number. */
module Common {

  /** A resource produced by a start procedure. The registry stores values of
      any type; an integer handle stands for them here. */
  type Value = int

  datatype Option<T> = None | Some(value: T)

  /** What awaiting one user procedure gives: the value it resolved with,
      or a rejection that propagates to the caller of the pass. */
  datatype Outcome = Returned(value: Value) | Threw

  /** The two orchestration passes. */
  datatype Phase = Starting | Stopping

  /** The elements of `s` have pairwise distinct keys. */
  ghost predicate KeysDistinct<T>(s: set<T>, key: T -> nat)
  {
    forall x, y :: x in s && y in s && key(x) == key(y) ==> x == y
  }

  /** `a` is strictly increasing (`up`) or strictly decreasing (`!up`) by `key`. */
  ghost predicate OrderedBy<T>(a: seq<T>, key: T -> nat, up: bool)
  {
    forall i, j :: 0 <= i < j < |a| ==> if up then key(a[i]) < key(a[j]) else key(a[i]) > key(a[j])
  }

  /** The numbers `s` are strictly increasing (`up`) or strictly decreasing (`!up`). */
  ghost predicate Monotone(s: seq<nat>, up: bool)
  {
    OrderedBy(s, n => n, up)
  }

  lemma {:induction false} MinimumExists<T>(s: set<T>, key: T -> nat)
    requires s != {}
    ensures exists m :: m in s && forall x :: x in s ==> key(m) <= key(x)
    decreases |s|
  {
    var y :| y in s;
    if s == {y} {
      assert forall x :: x in s ==> x == y;
      assert forall x :: x in s ==> key(y) <= key(x);
    } else {
      var t := s - {y};
      assert t != {} by { assert |t| == |s| - 1; }
      MinimumExists(t, key);
      var m :| m in t && forall x :: x in t ==> key(m) <= key(x);
      if key(y) < key(m) {
        assert forall x :: x in s ==> key(y) <= key(x);
      } else {
        assert forall x :: x in s ==> key(m) <= key(x);
      }
    }
  }

  /** The elements of `s`, each exactly once, in strictly ascending key order
      (the comparator `(a, b) => a.order - b.order` over distinct orders). */
  function SortByKey<T(==)>(s: set<T>, key: T -> nat): (r: seq<T>)
    requires KeysDistinct(s, key)
    ensures forall x :: x in s ==> x in r
    ensures forall i :: 0 <= i < |r| ==> r[i] in s
    ensures OrderedBy(r, key, true)
    decreases s
  {
    if s == {} then []
    else
      MinimumExists(s, key);
      var m :| m in s && forall x :: x in s ==> key(m) <= key(x);
      var rest := SortByKey(s - {m}, key);
      PrependMinimum(s, m, rest, key);
      [m] + rest
  }

  /** Putting the minimum of `s` before a sorting of the rest of `s` sorts `s`. */
  lemma PrependMinimum<T>(s: set<T>, m: T, rest: seq<T>, key: T -> nat)
    requires KeysDistinct(s, key)
    requires m in s && forall x :: x in s ==> key(m) <= key(x)
    requires forall x :: x in s - {m} ==> x in rest
    requires forall i :: 0 <= i < |rest| ==> rest[i] in s - {m}
    requires OrderedBy(rest, key, true)
    ensures forall x :: x in s ==> x in [m] + rest
    ensures forall i :: 0 <= i < |[m] + rest| ==> ([m] + rest)[i] in s
    ensures OrderedBy([m] + rest, key, true)
  {
  }

  /** The elements of `s` in the opposite order (`Array.prototype.reverse`). */
  function Reversed<T>(s: seq<T>): (r: seq<T>)
    ensures |r| == |s|
    ensures forall i :: 0 <= i < |s| ==> r[i] == s[|s| - 1 - i]
  {
    seq(|s|, i requires 0 <= i < |s| => s[|s| - 1 - i])
  }

  /** Reversal is a permutation: every element keeps its multiplicity. */
  lemma {:induction false} ReversedPermutes<T>(s: seq<T>)
    ensures multiset(Reversed(s)) == multiset(s)
    decreases |s|
  {
    if s != [] {
      var t := s[1..];
      ReversedPermutes(t);
      assert Reversed(s) == Reversed(t) + [s[0]];
      assert s == [s[0]] + t;
    }
  }

  /** Reversing twice gives back the original order. */
  lemma ReversedTwice<T>(s: seq<T>)
    ensures Reversed(Reversed(s)) == s
  {
  }

  /** Reversal keeps the same elements. */
  lemma ReversedElements<T>(s: seq<T>)
    ensures forall x :: x in s <==> x in Reversed(s)
  {
    var r := Reversed(s);
    forall x ensures x in s <==> x in r {
      if x in s {
        var i :| 0 <= i < |s| && s[i] == x;
        assert r[|s| - 1 - i] == x;
      }
      if x in r {
        var i :| 0 <= i < |r| && r[i] == x;
        assert s[|s| - 1 - i] == x;
      }
    }
  }
}
