/** Stable sorting by a total preorder. */
module Sorting {

  /** Any two elements compare, and comparisons chain. */
  ghost predicate Preorder<T(!new)>(le: (T, T) -> bool) {
    && (forall a, b :: le(a, b) || le(b, a))
    && (forall a, b, c :: le(a, b) && le(b, c) ==> le(a, c))
  }

  ghost predicate Sorted<T>(s: seq<T>, le: (T, T) -> bool) {
    forall i, j :: 0 <= i < j < |s| ==> le(s[i], s[j])
  }

  /** Puts x behind the last element that may precede it. */
  function Place<T>(s: seq<T>, x: T, le: (T, T) -> bool): (r: seq<T>)
    ensures |r| == |s| + 1
  {
    if s == [] || le(s[|s| - 1], x) then s + [x] else Place(s[..|s| - 1], x, le) + [s[|s| - 1]]
  }

  function Sort<T>(s: seq<T>, le: (T, T) -> bool): (r: seq<T>)
    ensures |r| == |s|
  {
    if s == [] then [] else Place(Sort(s[..|s| - 1], le), s[|s| - 1], le)
  }

  lemma {:induction false} PlacePermutes<T>(s: seq<T>, x: T, le: (T, T) -> bool)
    ensures multiset(Place(s, x, le)) == multiset(s) + multiset{x}
  {
    if s != [] && !le(s[|s| - 1], x) {
      PlacePermutes(s[..|s| - 1], x, le);
      LastApart(s);
    }
  }

  lemma {:induction false} PlaceSorted<T(!new)>(s: seq<T>, x: T, le: (T, T) -> bool)
    requires Preorder(le) && Sorted(s, le)
    ensures Sorted(Place(s, x, le), le)
  {
    if s != [] && !le(s[|s| - 1], x) {
      var init := s[..|s| - 1];
      PlaceSorted(init, x, le);
      PlacePermutes(init, x, le);
      var r := Place(init, x, le);
      forall i | 0 <= i < |r| ensures le(r[i], s[|s| - 1]) {
        assert r[i] in multiset(r);
        assert r[i] in init || r[i] == x;
      }
    }
  }

  lemma {:induction false} SortPermutes<T>(s: seq<T>, le: (T, T) -> bool)
    ensures multiset(Sort(s, le)) == multiset(s)
    ensures forall x :: x in Sort(s, le) <==> x in s
  {
    if s != [] {
      SortPermutes(s[..|s| - 1], le);
      PlacePermutes(Sort(s[..|s| - 1], le), s[|s| - 1], le);
      LastApart(s);
    }
    MultisetMembers(Sort(s, le), s);
  }

  lemma {:induction false} SortSorts<T(!new)>(s: seq<T>, le: (T, T) -> bool)
    requires Preorder(le)
    ensures Sorted(Sort(s, le), le)
  {
    if s != [] {
      SortSorts(s[..|s| - 1], le);
      PlaceSorted(Sort(s[..|s| - 1], le), s[|s| - 1], le);
    }
  }

  /** Elements that compare both ways are the same element. */
  ghost predicate Antisymmetric<T>(s: seq<T>, le: (T, T) -> bool) {
    forall x, y :: x in s && y in s && le(x, y) && le(y, x) ==> x == y
  }

  lemma MultisetMembers<T>(a: seq<T>, b: seq<T>)
    requires multiset(a) == multiset(b)
    ensures |a| == |b| && forall x :: x in a <==> x in b
  {
    assert |a| == |multiset(a)| && |b| == |multiset(b)|;
    forall x ensures x in a <==> x in b {
      assert x in a <==> x in multiset(a);
      assert x in b <==> x in multiset(b);
    }
  }

  lemma LastApart<T>(s: seq<T>)
    requires s != []
    ensures multiset(s) == multiset(s[..|s| - 1]) + multiset{s[|s| - 1]}
  {
    assert s == s[..|s| - 1] + [s[|s| - 1]];
  }

  /** A sorted list ends with an element no other exceeds. */
  lemma LastIsGreatest<T(!new)>(s: seq<T>, le: (T, T) -> bool, x: T)
    requires Preorder(le) && Sorted(s, le) && x in s
    ensures le(x, s[|s| - 1])
  {
  }

  /** A sorted list is determined by its elements when no two of them tie. */
  lemma {:induction false} SortedUnique<T(!new)>(a: seq<T>, b: seq<T>, le: (T, T) -> bool)
    requires Preorder(le) && multiset(a) == multiset(b) && Sorted(a, le) && Sorted(b, le) && Antisymmetric(a, le)
    ensures a == b
  {
    MultisetMembers(a, b);
    if a != [] {
      var x, y := a[|a| - 1], b[|b| - 1];
      LastIsGreatest(a, le, y);
      LastIsGreatest(b, le, x);
      LastApart(a);
      LastApart(b);
      Cancel(multiset(a[..|a| - 1]), multiset(b[..|b| - 1]), x);
      SortedUnique(a[..|a| - 1], b[..|b| - 1], le);
      assert a == a[..|a| - 1] + [x] && b == b[..|b| - 1] + [y];
    }
  }

  lemma Cancel<T>(a: multiset<T>, b: multiset<T>, x: T)
    requires a + multiset{x} == b + multiset{x}
    ensures a == b
  {
    assert a == a + multiset{x} - multiset{x};
  }

  /** Sorting forgets the original order when no two elements tie. */
  lemma SortForgetsOrder<T(!new)>(a: seq<T>, b: seq<T>, le: (T, T) -> bool)
    requires multiset(a) == multiset(b) && Preorder(le) && Antisymmetric(a, le)
    ensures Sort(a, le) == Sort(b, le)
  {
    hide Sort, Preorder;
    SortPermutes(a, le);
    SortPermutes(b, le);
    SortSorts(a, le);
    SortSorts(b, le);
    SortedUnique(Sort(a, le), Sort(b, le), le);
  }

  lemma WithoutOne<T>(s: seq<T>, k: nat)
    requires k < |s|
    ensures multiset(s[..k] + s[k + 1..]) + multiset{s[k]} == multiset(s)
  {
    assert s == s[..k] + [s[k]] + s[k + 1..];
  }

  /** Where the last element of a list sits in a permutation of it, and what is left without it. */
  lemma MatchLast<T>(a: seq<T>, b: seq<T>) returns (k: nat)
    requires a != [] && multiset(a) == multiset(b)
    ensures k < |b| && b[k] == a[|a| - 1]
    ensures multiset(a[..|a| - 1]) == multiset(b[..k] + b[k + 1..])
  {
    MultisetMembers(a, b);
    var x := a[|a| - 1];
    assert x in a;
    k :| 0 <= k < |b| && b[k] == x;
    LastApart(a);
    WithoutOne(b, k);
    Cancel(multiset(a[..|a| - 1]), multiset(b[..k] + b[k + 1..]), x);
  }
}
