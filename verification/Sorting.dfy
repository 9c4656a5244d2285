/**
 * Stable sorting by a given order, as the standard library sorts of both languages do, and what a
 * sorted list is determined by.
 */
module Sorting {
  /** `atMost` says that its first argument may stand before its second. */
  ghost predicate IsOrder<T(!new)>(atMost: (T, T) -> bool) {
    && (forall a, b :: atMost(a, b) || atMost(b, a))
    && (forall a, b, c :: atMost(a, b) && atMost(b, c) ==> atMost(a, c))
  }

  ghost predicate IsAntisymmetric<T(!new)>(atMost: (T, T) -> bool) {
    forall a, b :: atMost(a, b) && atMost(b, a) ==> a == b
  }

  predicate InOrder<T>(atMost: (T, T) -> bool, s: seq<T>) { forall i, j :: 0 <= i < j < |s| ==> atMost(s[i], s[j]) }

  /** Behind everything that may stand before it, so equals keep their order. */
  function InsertBy<T(==)>(atMost: (T, T) -> bool, x: T, s: seq<T>): (r: seq<T>)
    ensures multiset(r) == multiset(s) + multiset{x} && |r| == |s| + 1
  {
    var n := |s|;
    if n == 0 then [x]
    else
      assert s == s[..n - 1] + [s[n - 1]];
      if atMost(s[n - 1], x) then s + [x] else InsertBy(atMost, x, s[..n - 1]) + [s[n - 1]]
  }

  function SortBy<T(==)>(atMost: (T, T) -> bool, s: seq<T>): (r: seq<T>)
    ensures multiset(r) == multiset(s) && |r| == |s|
  {
    var n := |s|;
    if n == 0 then []
    else
      assert s == s[..n - 1] + [s[n - 1]];
      InsertBy(atMost, s[n - 1], SortBy(atMost, s[..n - 1]))
  }

  lemma SameElements<T>(a: seq<T>, b: seq<T>, x: T)
    requires multiset(a) == multiset(b)
    ensures x in a <==> x in b
  {
    assert x in a <==> x in multiset(a);
    assert x in b <==> x in multiset(b);
  }

  lemma {:induction false} InsertInOrder<T(!new)>(atMost: (T, T) -> bool, x: T, s: seq<T>)
    requires IsOrder(atMost) && InOrder(atMost, s)
    ensures InOrder(atMost, InsertBy(atMost, x, s))
  {
    var n := |s|;
    if n > 0 {
      var front, last := s[..n - 1], s[n - 1];
      if atMost(last, x) {
        forall i | 0 <= i < n ensures atMost(s[i], x) {
          if i < n - 1 { assert atMost(s[i], last); }
        }
      } else {
        InsertInOrder(atMost, x, front);
        var r := InsertBy(atMost, x, front);
        assert atMost(x, last);
        forall i | 0 <= i < |r| ensures atMost(r[i], last) {
          assert r[i] in multiset(r);
          assert r[i] == x || r[i] in front;
        }
      }
    }
  }

  lemma {:induction false} SortInOrder<T(!new)>(atMost: (T, T) -> bool, s: seq<T>)
    requires IsOrder(atMost)
    ensures InOrder(atMost, SortBy(atMost, s))
  {
    if |s| > 0 {
      SortInOrder(atMost, s[..|s| - 1]);
      InsertInOrder(atMost, s[|s| - 1], SortBy(atMost, s[..|s| - 1]));
    }
  }

  predicate Distinct<T(==)>(s: seq<T>) { forall i, j :: 0 <= i < j < |s| ==> s[i] != s[j] }

  lemma DistinctByCount<T(!new)>(s: seq<T>)
    ensures Distinct(s) <==> forall x :: multiset(s)[x] <= 1
  {
    if Distinct(s) {
      forall x ensures multiset(s)[x] <= 1 { CountOfDistinct(s, x); }
    } else {
      var i, j :| 0 <= i < j < |s| && s[i] == s[j];
      RepeatCounted(s, i, j);
    }
  }

  lemma RepeatCounted<T>(s: seq<T>, i: nat, j: nat)
    requires i < j < |s| && s[i] == s[j]
    ensures multiset(s)[s[i]] > 1
  {
    assert s == s[..j] + s[j..];
    assert s[i] == s[..j][i] && s[i] in multiset(s[..j]);
    assert s[i] == s[j..][0] && s[i] in multiset(s[j..]);
    assert multiset(s) == multiset(s[..j]) + multiset(s[j..]);
  }

  lemma {:induction false} CountOfDistinct<T>(s: seq<T>, x: T)
    requires Distinct(s)
    ensures multiset(s)[x] <= 1
  {
    if |s| > 0 {
      var front, last := s[..|s| - 1], s[|s| - 1];
      assert s == front + [last];
      CountOfDistinct(front, x);
      if last == x { assert x !in front; }
    }
  }

  /** In order, without repeats, and made of these elements. */
  ghost predicate Lists<T(!new)>(atMost: (T, T) -> bool, out: seq<T>, elements: iset<T>) {
    InOrder(atMost, out) && Distinct(out) && forall x :: x in out <==> x in elements
  }

  /** Sorting a list without repeats. */
  lemma SortLists<T(!new)>(atMost: (T, T) -> bool, found: seq<T>, elements: iset<T>)
    requires IsOrder(atMost) && Distinct(found) && forall x :: x in found <==> x in elements
    ensures Lists(atMost, SortBy(atMost, found), elements)
  {
    var out := SortBy(atMost, found);
    SortInOrder(atMost, found);
    DistinctByCount(found);
    DistinctByCount(out);
    forall x ensures x in out <==> x in found { SameElements(out, found, x); }
  }

  /** The elements determine the list. */
  lemma {:induction false} ListIsUnique<T(!new)>(atMost: (T, T) -> bool, a: seq<T>, b: seq<T>, elements: iset<T>)
    requires IsOrder(atMost) && IsAntisymmetric(atMost) && Lists(atMost, a, elements) && Lists(atMost, b, elements)
    ensures a == b
    decreases |a|
  {
    SomeElement(atMost, a, elements);
    SomeElement(atMost, b, elements);
    if |a| > 0 {
      assert a[0] in a && b[0] in b;
      var i :| 0 <= i < |b| && b[i] == a[0];
      var j :| 0 <= j < |a| && a[j] == b[0];
      FirstIsLeast(atMost, a, j);
      FirstIsLeast(atMost, b, i);
      assert a[0] == b[0];
      var rest := iset x | x in elements && x != a[0];
      TailLists(atMost, a, elements, rest);
      TailLists(atMost, b, elements, rest);
      ListIsUnique(atMost, a[1..], b[1..], rest);
      assert a == [a[0]] + a[1..] && b == [b[0]] + b[1..];
    }
  }

  lemma SomeElement<T(!new)>(atMost: (T, T) -> bool, a: seq<T>, elements: iset<T>)
    requires Lists(atMost, a, elements)
    ensures |a| == 0 <==> elements == iset{}
  {
    if |a| > 0 { assert a[0] in a; }
  }

  lemma FirstIsLeast<T(!new)>(atMost: (T, T) -> bool, a: seq<T>, j: nat)
    requires IsOrder(atMost) && InOrder(atMost, a) && j < |a|
    ensures atMost(a[0], a[j])
  {
    assert atMost(a[0], a[0]);
  }

  lemma TailLists<T(!new)>(atMost: (T, T) -> bool, a: seq<T>, elements: iset<T>, rest: iset<T>)
    requires Lists(atMost, a, elements) && |a| > 0 && rest == iset x | x in elements && x != a[0]
    ensures Lists(atMost, a[1..], rest)
  {
    forall x ensures x in a[1..] <==> x in rest {
      if x in a[1..] { var k :| 0 <= k < |a[1..]| && a[1..][k] == x; assert a[k + 1] == x; }
      if x in rest { var k :| 0 <= k < |a| && a[k] == x; assert a[1..][k - 1] == x; }
    }
  }
}
