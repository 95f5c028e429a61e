/** Sorting by an order given as a function, and what "sort, then take the first k" selects. */
module Sorting {

  ghost predicate TotalOrder<T(!new)>(le: (T, T) -> bool) {
    && (forall x, y :: le(x, y) || le(y, x))
    && (forall x, y :: le(x, y) && le(y, x) ==> x == y)
    && (forall x, y, z :: le(x, y) && le(y, z) ==> le(x, z))
  }

  /** Total and transitive; different elements may tie. */
  ghost predicate Preorder<T(!new)>(le: (T, T) -> bool) {
    && (forall x, y :: le(x, y) || le(y, x))
    && (forall x, y, z :: le(x, y) && le(y, z) ==> le(x, z))
  }

  /** No two different elements of the list tie. */
  ghost predicate Separates<T(!new)>(le: (T, T) -> bool, xs: seq<T>) {
    forall x, y :: x in xs && y in xs && le(x, y) && le(y, x) ==> x == y
  }

  ghost predicate SortedBy<T>(le: (T, T) -> bool, xs: seq<T>) {
    forall i, j :: 0 <= i < j < |xs| ==> le(xs[i], xs[j])
  }

  ghost predicate Distinct<T>(xs: seq<T>) {
    forall i, j :: 0 <= i < j < |xs| ==> xs[i] != xs[j]
  }

  function Insert<T>(le: (T, T) -> bool, x: T, xs: seq<T>): (r: seq<T>)
    ensures multiset(r) == multiset(xs) + multiset{x}
    ensures |r| == |xs| + 1
  {
    if xs == [] then [x]
    else if le(x, xs[0]) then [x] + xs
    else
      assert xs == [xs[0]] + xs[1..];
      [xs[0]] + Insert(le, x, xs[1..])
  }

  function Sort<T>(le: (T, T) -> bool, xs: seq<T>): (r: seq<T>)
    ensures multiset(r) == multiset(xs)
    ensures |r| == |xs|
  {
    if xs == [] then []
    else
      assert xs == [xs[0]] + xs[1..];
      Insert(le, xs[0], Sort(le, xs[1..]))
  }

  lemma SameElements<T>(a: seq<T>, b: seq<T>)
    requires multiset(a) == multiset(b)
    ensures |a| == |b|
    ensures forall x :: x in a <==> x in b
  {
    assert |multiset(a)| == |a| && |multiset(b)| == |b|;
    forall x
      ensures x in a <==> x in b
    {
      assert x in a <==> x in multiset(a);
      assert x in b <==> x in multiset(b);
    }
  }

  lemma {:induction false} InsertSorted<T(!new)>(le: (T, T) -> bool, x: T, xs: seq<T>)
    requires Preorder(le) && SortedBy(le, xs)
    ensures SortedBy(le, Insert(le, x, xs))
  {
    if xs != [] && !le(x, xs[0]) {
      var rest := Insert(le, x, xs[1..]);
      InsertSorted(le, x, xs[1..]);
      forall j | 0 <= j < |rest|
        ensures le(xs[0], rest[j])
      {
        assert rest[j] in multiset(rest);
        assert rest[j] == x || rest[j] in xs[1..];
      }
    }
  }

  lemma {:induction false} SortSorted<T(!new)>(le: (T, T) -> bool, xs: seq<T>)
    requires Preorder(le)
    ensures SortedBy(le, Sort(le, xs))
  {
    if xs != [] {
      SortSorted(le, xs[1..]);
      InsertSorted(le, xs[0], Sort(le, xs[1..]));
    }
  }

  lemma SortedHead<T(!new)>(le: (T, T) -> bool, xs: seq<T>, x: T)
    requires Preorder(le) && SortedBy(le, xs) && x in xs
    ensures le(xs[0], x)
  {
  }

  lemma HeadAndTail<T>(xs: seq<T>)
    requires xs != []
    ensures xs == [xs[0]] + xs[1..]
    ensures multiset(xs[1..]) == multiset(xs) - multiset{xs[0]}
  {
    assert xs == [xs[0]] + xs[1..];
  }

  /** A sorted arrangement is determined by the elements it arranges. */
  lemma {:induction false} SortedUnique<T(!new)>(le: (T, T) -> bool, a: seq<T>, b: seq<T>)
    requires Preorder(le) && Separates(le, a) && SortedBy(le, a) && SortedBy(le, b)
    requires multiset(a) == multiset(b)
    ensures a == b
  {
    SameElements(a, b);
    if a != [] {
      SortedHead(le, a, b[0]);
      SortedHead(le, b, a[0]);
      HeadAndTail(a);
      HeadAndTail(b);
      SortedUnique(le, a[1..], b[1..]);
    }
  }

  lemma SortCanonical<T(!new)>(le: (T, T) -> bool, a: seq<T>, b: seq<T>)
    requires Preorder(le) && Separates(le, a)
    ensures Sort(le, a) == Sort(le, b) <==> multiset(a) == multiset(b)
  {
    if multiset(a) == multiset(b) {
      SortSorted(le, a);
      SortSorted(le, b);
      SameElements(a, Sort(le, a));
      SortedUnique(le, Sort(le, a), Sort(le, b));
    }
  }

  /** How many elements of `xs` come strictly before `x`. */
  function Before<T(==)>(le: (T, T) -> bool, xs: seq<T>, x: T): nat {
    if xs == [] then 0
    else (if xs[0] != x && le(xs[0], x) then 1 else 0) + Before(le, xs[1..], x)
  }

  lemma {:induction false} BeforeInsert<T>(le: (T, T) -> bool, y: T, xs: seq<T>, x: T)
    ensures Before(le, Insert(le, y, xs), x) == Before(le, [y] + xs, x)
  {
    assert ([y] + xs)[1..] == xs;
    if xs != [] && !le(y, xs[0]) {
      BeforeInsert(le, y, xs[1..], x);
      var rest := Insert(le, y, xs[1..]);
      assert ([xs[0]] + rest)[1..] == rest;
      assert ([y] + xs[1..])[1..] == xs[1..];
    }
  }

  lemma {:induction false} BeforeSort<T>(le: (T, T) -> bool, xs: seq<T>, x: T)
    ensures Before(le, Sort(le, xs), x) == Before(le, xs, x)
  {
    if xs != [] {
      BeforeSort(le, xs[1..], x);
      BeforeInsert(le, xs[0], Sort(le, xs[1..]), x);
      assert ([xs[0]] + Sort(le, xs[1..]))[1..] == Sort(le, xs[1..]);
    }
  }

  lemma {:induction false} BeforeNone<T(!new)>(le: (T, T) -> bool, xs: seq<T>, x: T)
    requires Separates(le, [x] + xs)
    requires forall i :: 0 <= i < |xs| ==> le(x, xs[i])
    ensures Before(le, xs, x) == 0
  {
    if xs != [] {
      assert le(x, xs[0]);
      BeforeNone(le, xs[1..], x);
    }
  }

  /** In a sorted list without repeats, an element's index counts what comes before it. */
  lemma {:induction false} BeforeIsIndex<T(!new)>(le: (T, T) -> bool, xs: seq<T>, i: nat)
    requires Preorder(le) && Separates(le, xs) && SortedBy(le, xs) && Distinct(xs)
    requires i < |xs|
    ensures Before(le, xs, xs[i]) == i
  {
    if i == 0 {
      BeforeNone(le, xs[1..], xs[0]);
    } else {
      BeforeIsIndex(le, xs[1..], i - 1);
    }
  }

  lemma {:induction false} DistinctCounts<T>(xs: seq<T>)
    ensures Distinct(xs) <==> forall x :: multiset(xs)[x] <= 1
  {
    if xs != [] {
      DistinctCounts(xs[1..]);
      assert xs == [xs[0]] + xs[1..];
      assert multiset(xs) == multiset{xs[0]} + multiset(xs[1..]);
      if Distinct(xs) {
        forall x
          ensures multiset(xs)[x] <= 1
        {
          assert xs[0] !in xs[1..];
          assert multiset(xs[1..])[xs[0]] == 0;
        }
      } else if Distinct(xs[1..]) {
        assert xs[0] in xs[1..];
        assert multiset(xs)[xs[0]] >= 2;
      } else {
        var x :| multiset(xs[1..])[x] > 1;
        assert multiset(xs)[x] > 1;
      }
    }
  }

  lemma SortDistinct<T>(le: (T, T) -> bool, xs: seq<T>)
    ensures Distinct(Sort(le, xs)) <==> Distinct(xs)
  {
    DistinctCounts(xs);
    DistinctCounts(Sort(le, xs));
  }

  function Take<T>(xs: seq<T>, limit: nat): (r: seq<T>)
    ensures |r| == if limit < |xs| then limit else |xs|
  {
    if limit < |xs| then xs[..limit] else xs
  }

  /** Sorting and keeping the first `limit` selects exactly the elements that fewer than
      `limit` others come before. */
  lemma TakeOfSort<T(!new)>(le: (T, T) -> bool, xs: seq<T>, limit: nat, x: T)
    requires Preorder(le) && Separates(le, xs) && Distinct(xs)
    ensures x in Take(Sort(le, xs), limit) <==> x in xs && Before(le, xs, x) < limit
  {
    var sorted := Sort(le, xs);
    SortSorted(le, xs);
    SortDistinct(le, xs);
    BeforeSort(le, xs, x);
    SameElements(xs, sorted);
    if x in sorted {
      var i :| 0 <= i < |sorted| && sorted[i] == x;
      BeforeIsIndex(le, sorted, i);
      if i < limit {
        assert Take(sorted, limit)[i] == x;
      }
    }
  }

  /** Lists without repeats and with the same elements are rearrangements of one another. */
  lemma SameElementsOnce<T(!new)>(a: seq<T>, b: seq<T>)
    requires Distinct(a) && Distinct(b) && forall x :: x in a <==> x in b
    ensures multiset(a) == multiset(b)
  {
    DistinctCounts(a);
    DistinctCounts(b);
    forall x
      ensures multiset(a)[x] == multiset(b)[x]
    {
      assert x in a <==> x in multiset(a);
      assert x in b <==> x in multiset(b);
    }
  }

  /** What is left out comes after everything that is kept. */
  lemma TakeKeepsTheFirst<T(!new)>(le: (T, T) -> bool, xs: seq<T>, limit: nat, kept: T, left: T)
    requires Preorder(le)
    requires kept in Take(Sort(le, xs), limit)
    requires left in xs && left !in Take(Sort(le, xs), limit)
    ensures le(kept, left)
  {
    var sorted := Sort(le, xs);
    SortSorted(le, xs);
    SameElements(xs, sorted);
    var i :| 0 <= i < |Take(sorted, limit)| && Take(sorted, limit)[i] == kept;
    var j :| 0 <= j < |sorted| && sorted[j] == left;
    assert forall m :: 0 <= m < |Take(sorted, limit)| ==> sorted[m] in Take(sorted, limit);
    assert j >= |Take(sorted, limit)|;
  }
}
