/** The meaning of `ORDER BY` on a unique integer key: there is exactly one increasing arrangement. */
module Ordering {
  import opened Prelude

  ghost predicate Increasing(s: seq<int>) {
    forall i, j :: 0 <= i < j < |s| ==> s[i] < s[j]
  }

  ghost predicate Enumerates(s: seq<int>, keys: set<int>) {
    Increasing(s) && forall x :: x in s <==> x in keys
  }

  /** Two increasing arrangements of the same keys are the same arrangement. */
  lemma {:induction false} OrderIsUnique(a: seq<int>, b: seq<int>)
    requires Increasing(a) && Increasing(b) && forall x :: x in a <==> x in b
    ensures a == b
    decreases |a|
  {
    assert |a| > 0 ==> a[0] in a && a[0] in b;
    assert |b| > 0 ==> b[0] in b && b[0] in a;
    if a != [] {
      var i :| 0 <= i < |b| && b[i] == a[0];
      var j :| 0 <= j < |a| && a[j] == b[0];
      assert a[0] == b[0];
      forall x
        ensures x in a[1..] <==> x in b[1..]
      {
        assert x in a <==> x == a[0] || x in a[1..];
        assert x in b <==> x == b[0] || x in b[1..];
      }
      OrderIsUnique(a[1..], b[1..]);
      assert a == [a[0]] + a[1..] && b == [b[0]] + b[1..];
    }
  }

  /** Every finite set of keys has an increasing arrangement. */
  ghost function Ascending(keys: set<int>): (r: seq<int>)
    ensures Enumerates(r, keys)
    decreases |keys|
  {
    if keys == {} then
      []
    else
      var m := Least(keys);
      var rest := Ascending(keys - {m});
      SmallestFirst(m, rest, keys);
      [m] + rest
  }

  lemma SmallestFirst(m: int, rest: seq<int>, keys: set<int>)
    requires m in keys && Enumerates(rest, keys - {m}) && forall x :: x in keys ==> m <= x
    ensures Enumerates([m] + rest, keys)
  {
    assert forall i :: 0 <= i < |rest| ==> rest[i] in rest;
  }

  ghost function Least(keys: set<int>): (m: int)
    requires keys != {}
    ensures m in keys && forall x :: x in keys ==> m <= x
    decreases |keys|
  {
    var x := Pick(keys);
    var rest := keys - {x};
    if rest == {} then
      assert keys == {x} + rest;
      x
    else
      var m := Least(rest);
      assert forall y :: y in keys ==> y == x || y in rest;
      if x <= m then x else m
  }

  ghost function Greatest(keys: set<int>): (m: int)
    requires keys != {}
    ensures m in keys && forall x :: x in keys ==> x <= m
  {
    var negated := set x | x in keys :: -x;
    assert -Pick(keys) in negated && forall x :: x in keys ==> -x in negated;
    -Least(negated)
  }

  lemma GreatestIs(keys: set<int>, m: int)
    requires m in keys && forall x :: x in keys ==> x <= m
    ensures Greatest(keys) == m
  {
  }

  /** The positions of a list are already in order. */
  lemma AscendingSegment(keys: set<int>, n: nat)
    requires forall x :: x in keys <==> 0 <= x < n
    ensures Ascending(keys) == seq(n, i => i)
  {
    var s := seq(n, i => i);
    forall x
      ensures x in s <==> x in Ascending(keys)
    {
      assert 0 <= x < n ==> s[x] == x;
      assert x in keys <==> 0 <= x < n;
    }
    OrderIsUnique(Ascending(keys), s);
  }
}
