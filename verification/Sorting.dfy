/**
 * `Array.prototype.sort`: a stable sort by a comparator. The scripts only rely on
 * the result being an ordered permutation; where the comparator separates the
 * elements that result is unique, so the algorithm chosen here does not matter.
 */
module Sorting {
  ghost predicate TotalPreorder<T(!new)>(leq: (T, T) -> bool) {
    && (forall a, b :: leq(a, b) || leq(b, a))
    && (forall a, b, c :: leq(a, b) && leq(b, c) ==> leq(a, c))
  }

  ghost predicate Sorted<T>(leq: (T, T) -> bool, s: seq<T>) {
    forall i, j :: 0 <= i < j < |s| ==> leq(s[i], s[j])
  }

  /** No two different elements are tied. */
  ghost predicate Separates<T>(leq: (T, T) -> bool, s: seq<T>) {
    forall x, y :: x in s && y in s && leq(x, y) && leq(y, x) ==> x == y
  }

  ghost predicate Distinct<T>(s: seq<T>) {
    forall i, j :: 0 <= i < j < |s| ==> s[i] != s[j]
  }

  function Insert<T>(leq: (T, T) -> bool, x: T, s: seq<T>): seq<T> {
    if s == [] || leq(x, s[0]) then [x] + s else [s[0]] + Insert(leq, x, s[1..])
  }

  function Sort<T>(leq: (T, T) -> bool, s: seq<T>): seq<T> {
    if s == [] then [] else Insert(leq, s[0], Sort(leq, s[1..]))
  }

  lemma {:induction false} InsertKeepsElements<T>(leq: (T, T) -> bool, x: T, s: seq<T>)
    ensures multiset(Insert(leq, x, s)) == multiset([x] + s)
    ensures forall y :: y in Insert(leq, x, s) ==> y == x || y in s
  {
    if s != [] && !leq(x, s[0]) {
      InsertKeepsElements(leq, x, s[1..]);
      assert s == [s[0]] + s[1..];
    }
  }

  lemma {:induction false} InsertIsOrdered<T(!new)>(leq: (T, T) -> bool, x: T, s: seq<T>)
    requires TotalPreorder(leq) && Sorted(leq, s)
    ensures Sorted(leq, Insert(leq, x, s))
  {
    if s != [] && !leq(x, s[0]) {
      InsertIsOrdered(leq, x, s[1..]);
      InsertKeepsElements(leq, x, s[1..]);
      var rest := Insert(leq, x, s[1..]);
      assert forall y :: y in rest ==> leq(s[0], y);
    } else if s != [] {
      assert forall j :: 0 < j < |s| ==> leq(s[0], s[j]);
    }
  }

  lemma {:induction false} SortIsOrdered<T(!new)>(leq: (T, T) -> bool, s: seq<T>)
    requires TotalPreorder(leq)
    ensures Sorted(leq, Sort(leq, s)) && multiset(Sort(leq, s)) == multiset(s)
  {
    if s != [] {
      SortIsOrdered(leq, s[1..]);
      InsertIsOrdered(leq, s[0], Sort(leq, s[1..]));
      InsertKeepsElements(leq, s[0], Sort(leq, s[1..]));
      assert s == [s[0]] + s[1..];
      assert multiset([s[0]] + Sort(leq, s[1..])) == multiset(s);
    }
  }

  lemma SortKeepsElements<T(!new)>(leq: (T, T) -> bool, s: seq<T>)
    requires TotalPreorder(leq)
    ensures |Sort(leq, s)| == |s| && forall x :: x in Sort(leq, s) <==> x in s
  {
    SortIsOrdered(leq, s);
    assert |multiset(s)| == |s| && |multiset(Sort(leq, s))| == |Sort(leq, s)|;
    forall x
      ensures x in Sort(leq, s) <==> x in s
    {
      assert x in multiset(s) <==> x in s;
      assert x in multiset(Sort(leq, s)) <==> x in Sort(leq, s);
    }
  }

  lemma {:induction false} OrderedPermutationIsUnique<T(!new)>(leq: (T, T) -> bool, a: seq<T>, b: seq<T>)
    requires Sorted(leq, a) && Sorted(leq, b) && multiset(a) == multiset(b) && TotalPreorder(leq) && Separates(leq, a)
    ensures a == b
  {
    assert |multiset(a)| == |a| && |multiset(b)| == |b|;
    if a != [] {
      SameLeast(leq, a, b);
      assert a == [a[0]] + a[1..] && b == [a[0]] + b[1..];
      CancelHead(a[0], a[1..], b[1..]);
      OrderedPermutationIsUnique(leq, a[1..], b[1..]);
    }
  }

  lemma CancelHead<T>(x: T, a: seq<T>, b: seq<T>)
    requires multiset([x] + a) == multiset([x] + b)
    ensures multiset(a) == multiset(b)
  {
    assert multiset(a) == multiset([x] + a) - multiset{x};
    assert multiset(b) == multiset([x] + b) - multiset{x};
  }

  lemma SameLeast<T(!new)>(leq: (T, T) -> bool, a: seq<T>, b: seq<T>)
    requires Sorted(leq, a) && Sorted(leq, b) && multiset(a) == multiset(b) && TotalPreorder(leq) && Separates(leq, a)
    requires a != [] && b != []
    ensures a[0] == b[0]
  {
    assert a[0] in multiset(b) && b[0] in multiset(a);
    assert a[0] in b && b[0] in a;
    assert leq(a[0], a[0]);
    assert leq(a[0], b[0]) && leq(b[0], a[0]);
  }

  /** Sorting forgets the order its input came in, as long as the comparator separates the elements. */
  lemma SortForgetsOrder<T(!new)>(leq: (T, T) -> bool, a: seq<T>, b: seq<T>)
    requires TotalPreorder(leq) && multiset(a) == multiset(b) && Separates(leq, a)
    ensures Sort(leq, a) == Sort(leq, b)
  {
    SortIsOrdered(leq, a);
    SortIsOrdered(leq, b);
    SortKeepsElements(leq, a);
    OrderedPermutationIsUnique(leq, Sort(leq, a), Sort(leq, b));
  }

  lemma {:induction false} DistinctSameSetSameMultiset<T>(a: seq<T>, b: seq<T>)
    requires Distinct(a) && Distinct(b) && forall x :: x in a <==> x in b
    ensures multiset(a) == multiset(b)
  {
    forall x
      ensures multiset(a)[x] == multiset(b)[x]
    {
      DistinctCountsOnce(a, x);
      DistinctCountsOnce(b, x);
    }
  }

  lemma {:induction false} DistinctCountsOnce<T>(s: seq<T>, x: T)
    requires Distinct(s)
    ensures multiset(s)[x] == if x in s then 1 else 0
  {
    if s != [] {
      assert s == [s[0]] + s[1..];
      DistinctCountsOnce(s[1..], x);
    }
  }

  lemma {:induction false} CountsOnceIsDistinct<T>(s: seq<T>)
    requires forall x :: multiset(s)[x] <= 1
    ensures Distinct(s)
  {
    forall i, j | 0 <= i < j < |s|
      ensures s[i] != s[j]
    {
      assert s == s[..j] + [s[j]] + s[j + 1..];
      assert s[i] in s[..j];
      assert multiset(s)[s[j]] <= 1;
    }
  }

  lemma DistinctConcat<T>(a: seq<T>, b: seq<T>)
    requires Distinct(a) && Distinct(b) && forall x :: x in a ==> x !in b
    ensures Distinct(a + b)
  {
    var s := a + b;
    forall i, j | 0 <= i < j < |s|
      ensures s[i] != s[j]
    {
      if i < |a| <= j {
        assert s[i] in a && s[j] == b[j - |a|];
      }
    }
  }

  lemma SortKeepsDistinct<T(!new)>(leq: (T, T) -> bool, s: seq<T>)
    requires TotalPreorder(leq) && Distinct(s)
    ensures Distinct(Sort(leq, s))
  {
    SortIsOrdered(leq, s);
    forall x
      ensures multiset(Sort(leq, s))[x] <= 1
    {
      DistinctCountsOnce(s, x);
    }
    CountsOnceIsDistinct(Sort(leq, s));
  }

  /** Two lists of distinct elements agree once sorted exactly when they list the same set. */
  lemma SortedListsCompareSets<T(!new)>(leq: (T, T) -> bool, a: seq<T>, b: seq<T>)
    requires TotalPreorder(leq) && Distinct(a) && Distinct(b) && Separates(leq, a)
    ensures Sort(leq, a) == Sort(leq, b) <==> forall x :: x in a <==> x in b
  {
    SortKeepsElements(leq, a);
    SortKeepsElements(leq, b);
    if forall x :: x in a <==> x in b {
      DistinctSameSetSameMultiset(a, b);
      SortForgetsOrder(leq, a, b);
    }
  }

  lemma Reassociate<T>(a: seq<T>, b: seq<T>, c: seq<T>)
    ensures a + (b + c) == a + b + c
  {
  }

  /** The members of a set, visited in some order. */
  method Listing<T(==)>(members: set<T>) returns (list: seq<T>)
    ensures Distinct(list) && forall x :: x in list <==> x in members
  {
    list := [];
    var rest := members;
    while rest != {}
      invariant Distinct(list) && rest <= members && forall x :: x in list <==> x in members - rest
      decreases rest
    {
      var x :| x in rest;
      assert x !in list;
      list, rest := list + [x], rest - {x};
    }
  }
}
