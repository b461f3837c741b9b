/** Ascending integer sequences: the shape of every sorted key list of the program. */
module Seqs {

  /** Some element of a non-empty set. */
  ghost function Pick<T>(s: set<T>): (x: T)
    requires s != {}
    ensures x in s
  {
    var x :| x in s; x
  }

  ghost predicate Ascending(s: seq<int>) {
    forall i, j :: 0 <= i < j < |s| ==> s[i] < s[j]
  }

  ghost function Elements<T>(s: seq<T>): set<T> {
    set x | x in s
  }

  /** Puts x into an ascending list; a key that is already there is not repeated. */
  function InsertKey(s: seq<int>, x: int): (r: seq<int>)
    requires Ascending(s)
    ensures Ascending(r)
    ensures forall y :: y in r <==> y == x || y in s
  {
    if s == [] then [x]
    else if s[|s| - 1] < x then s + [x]
    else if s[|s| - 1] == x then s
    else
      assert s == s[..|s| - 1] + [s[|s| - 1]];
      var front := InsertKey(s[..|s| - 1], x);
      assert forall i :: 0 <= i < |front| ==> front[i] in front;
      front + [s[|s| - 1]]
  }

  /** The distinct keys of a list in ascending order: the map-then-sort idiom. */
  function SortKeys(s: seq<int>): (r: seq<int>)
    ensures Ascending(r)
    ensures forall y :: y in r <==> y in s
  {
    if s == [] then []
    else
      assert s == s[..|s| - 1] + [s[|s| - 1]];
      InsertKey(SortKeys(s[..|s| - 1]), s[|s| - 1])
  }

  /** The ascending listing of a set, whatever order it is read in. */
  method SortedKeys(keys: set<int>) returns (r: seq<int>)
    ensures Ascending(r) && forall x :: x in r <==> x in keys
  {
    r := [];
    var rest := keys;
    while rest != {}
      invariant rest <= keys && Ascending(r) && forall x :: x in r <==> x in keys - rest
      decreases |rest|
    {
      ghost var w := Pick(rest);
      assert w in rest;
      var k :| k in rest;
      r := InsertKey(r, k);
      rest := rest - {k};
    }
  }

  /** A set of keys has one ascending listing only, so sorted output cannot depend on map order. */
  lemma {:induction false} AscendingUnique(a: seq<int>, b: seq<int>)
    requires Ascending(a) && Ascending(b)
    requires forall x :: x in a <==> x in b
    ensures a == b
  {
    if a == [] {
      if b != [] { SameHead(b, a); }
    } else {
      SameHead(a, b);
      TailKeys(a);
      TailKeys(b);
      AscendingUnique(a[1..], b[1..]);
      assert a == [a[0]] + a[1..] && b == [b[0]] + b[1..];
    }
  }

  /** The least key heads both listings. */
  lemma SameHead(a: seq<int>, b: seq<int>)
    requires Ascending(a) && Ascending(b) && a != []
    requires forall x :: x in a <==> x in b
    ensures b != [] && a[0] == b[0]
  {
    var x := a[0];
    assert x in a && x in b;
    var y := b[0];
    assert y in b && y in a;
  }

  lemma TailKeys(a: seq<int>)
    requires Ascending(a) && a != []
    ensures forall x :: x in a[1..] <==> x in a && x != a[0]
  {
    assert a == [a[0]] + a[1..];
    assert forall i :: 0 <= i < |a[1..]| ==> a[1..][i] == a[i + 1];
  }
}
