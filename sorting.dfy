/**
 * Ascending enumeration of a finite set of cut positions. This stands in for
 * Python's built-in `sorted` applied to the keys of the site map; since the
 * keys of a dictionary are distinct, sorting its items is sorting its keys.
 */
module Sorting {

  /** `xs` is in strictly ascending order. */
  predicate StrictlyAscending(xs: seq<int>) {
    forall i, j :: 0 <= i < j < |xs| ==> xs[i] < xs[j]
  }

  /** A set that is not empty has an element. The solver does not find a
      witness for `s != {}` by itself, and the proof by extensionality cannot
      be written inside a caller that already knows `s != {}` without drawing
      a contradictory-assumption warning; this lemma states it outside. */
  lemma HasElement(s: set<int>)
    ensures s == {} || exists y :: y in s
  {
    if !(exists y :: y in s) {
      assert forall y :: y in s <==> y in {};
    }
  }

  lemma {:induction false} MinExists(s: set<int>)
    requires s != {}
    ensures exists m :: m in s && forall x :: x in s ==> m <= x
  {
    HasElement(s);
    var y :| y in s;
    if s != {y} {
      MinExists(s - {y});
      var m :| m in s - {y} && forall x :: x in s - {y} ==> m <= x;
      var least := if y < m then y else m;
      forall x | x in s
        ensures least <= x
      {
        if x != y {
          assert x in s - {y};
        }
      }
      assert least in s;
    }
  }

  /** The least element of a non-empty set. */
  function MinOf(s: set<int>): (m: int)
    requires s != {}
    ensures m in s
    ensures forall x :: x in s ==> m <= x
  {
    MinExists(s);
    var m :| m in s && forall x :: x in s ==> m <= x;
    m
  }

  /** Putting the least element of `s` in front of an ascending listing of the
      others gives an ascending listing of `s`. */
  lemma ConsAscending(m: int, rest: seq<int>, s: set<int>)
    requires m in s && forall x :: x in s ==> m <= x
    requires |rest| == |s - {m}| && StrictlyAscending(rest)
    requires forall x :: x in rest <==> x in s - {m}
    ensures |[m] + rest| == |s|
    ensures forall x :: x in [m] + rest <==> x in s
    ensures StrictlyAscending([m] + rest)
  {
    var r := [m] + rest;
    forall i, j | 0 <= i < j < |r|
      ensures r[i] < r[j]
    {
      if i == 0 {
        assert r[j] == rest[j - 1];
        assert rest[j - 1] in rest;
      }
    }
  }

  /** The elements of `s`, each once, smallest first. */
  function SortedKeys(s: set<int>): (r: seq<int>)
    ensures |r| == |s|
    ensures forall x :: x in r <==> x in s
    ensures StrictlyAscending(r)
    decreases |s|
  {
    if s == {} then []
    else
      var m := MinOf(s);
      var rest := SortedKeys(s - {m});
      ConsAscending(m, rest, s);
      [m] + rest
  }

  /** The head of a non-empty sequence is one of its elements. A caller that
      knows its sequence is empty only by contradiction cannot name `xs[0]`
      itself without drawing a contradictory-assumption warning; this lemma
      states the fact outside that context. */
  lemma HeadIn(xs: seq<int>)
    ensures xs == [] || xs[0] in xs
  {
    if xs != [] {
      var x0 := xs[0];
      assert x0 in xs;
    }
  }

  /** Two strictly ascending sequences with the same elements are equal. */
  lemma {:induction false} AscendingUnique(a: seq<int>, b: seq<int>)
    requires StrictlyAscending(a) && StrictlyAscending(b)
    requires forall x :: x in a <==> x in b
    ensures a == b
    decreases |a|
  {
    if a == [] {
      HeadIn(b);
    } else {
      var a0 := a[0];
      assert a0 in a;
      assert b != [];
      var b0 := b[0];
      assert b0 in b;
      assert a0 == b0;
      forall x
        ensures x in a[1..] <==> x in b[1..]
      {
        if x in a[1..] {
          assert x in b;
          assert x != b[0];
        }
        if x in b[1..] {
          assert x in a;
          assert x != a[0];
        }
      }
      AscendingUnique(a[1..], b[1..]);
      assert a == [a[0]] + a[1..];
      assert b == [b[0]] + b[1..];
    }
  }

  /** `SortedKeys` is the one ascending listing of a set. */
  lemma SortedKeysIs(s: set<int>, xs: seq<int>)
    requires StrictlyAscending(xs)
    requires forall x :: x in xs <==> x in s
    ensures SortedKeys(s) == xs
  {
    AscendingUnique(SortedKeys(s), xs);
  }
}
