/** Sort-tile-recursive packing: near-square tiles, at most max items each. */
module StrPacking {
  import opened Sorting

  /** The least s with s * s >= p. */
  function CeilSqrt(p: nat): (s: nat)
    ensures s * s >= p && (s > 0 ==> (s - 1) * (s - 1) < p)
  {
    CeilSqrtFrom(p, 0)
  }

  function CeilSqrtFrom(p: nat, s: nat): (r: nat)
    requires s > 0 ==> (s - 1) * (s - 1) < p
    ensures r * r >= p && (r > 0 ==> (r - 1) * (r - 1) < p)
    decreases if s * s >= p then 0 else p - s * s
  {
    if s * s >= p then s else CeilSqrtFrom(p, s + 1)
  }

  function CeilDiv(n: nat, d: nat): nat
    requires d > 0
  {
    (n + d - 1) / d
  }

  /** The quotient rounded up: just enough groups of d for n. */
  lemma CeilDivExact(n: nat, d: nat)
    requires d > 0
    ensures n <= CeilDiv(n, d) * d < n + d
  {
    var q := CeilDiv(n, d);
    assert n + d - 1 == q * d + (n + d - 1) % d;
  }

  /** How many items a slice takes when n of them go into tiles of at most max, in ceil(sqrt(tiles)) slices. */
  function PerSlice(n: nat, max: nat): (per: nat)
    requires n > 0 && max > 0
    ensures per > 0
  {
    var slices := CeilSqrt(CeilDiv(n, max));
    AtLeastOneTile(n, max);
    CeilDivPositive(n, slices);
    CeilDiv(n, slices)
  }

  /** Just enough tiles of max, in just enough slices for a square of tiles, with just enough items in each. */
  lemma PerSliceExact(n: nat, max: nat)
    requires n > 0 && max > 0
    ensures exists tiles: nat, slices: nat :: SquareTiling(n, max, PerSlice(n, max), tiles, slices)
  {
    hide CeilSqrt, CeilDiv;
    var tiles := CeilDiv(n, max);
    AtLeastOneTile(n, max);
    var slices := CeilSqrt(tiles);
    CeilDivExact(n, max);
    CeilDivExact(n, slices);
    assert SquareTiling(n, max, PerSlice(n, max), tiles, slices);
  }

  ghost predicate SquareTiling(n: nat, max: nat, per: nat, tiles: nat, slices: nat) {
    && n <= tiles * max < n + max && slices > 0 && (slices - 1) * (slices - 1) < tiles <= slices * slices
    && n <= per * slices < n + slices
  }

  lemma AtLeastOneTile(n: nat, max: nat)
    requires n > 0 && max > 0
    ensures CeilDiv(n, max) > 0 && CeilSqrt(CeilDiv(n, max)) > 0
  {
    CeilDivPositive(n, max);
  }

  lemma CeilDivPositive(n: nat, d: nat)
    requires n > 0 && d > 0
    ensures CeilDiv(n, d) > 0
  {
    assert n + d - 1 >= d;
    DivAtLeast(n + d - 1, d, 1);
  }

  lemma DivAtLeast(a: nat, d: nat, k: nat)
    requires d > 0 && a >= k * d
    ensures a / d >= k
  {
    assert a == (a / d) * d + a % d;
    Scale(a / d + 1, k, d);
  }

  lemma Scale(a: nat, b: nat, d: nat)
    ensures a <= b ==> a * d <= b * d
  {
  }

  /** Two items or more never get a slice each. */
  lemma SlicesHoldTwo(n: nat, max: nat)
    requires n >= 2 && max >= 4
    ensures PerSlice(n, max) >= 2
  {
    hide CeilSqrt;
    AtLeastOneTile(n, max);
    var tiles := CeilDiv(n, max);
    var slices := CeilSqrt(tiles);
    if slices > tiles {
      Squares(tiles, slices - 1);
    }
    FewTiles(n, max);
    DivAtLeast(n + slices - 1, slices, 2);
  }

  lemma FewTiles(n: nat, max: nat)
    requires n >= 2 && max >= 4
    ensures CeilDiv(n, max) < n
  {
    var t := CeilDiv(n, max);
    assert n + max - 1 == t * max + (n + max - 1) % max;
    Scale(n, t, max);
    Product(n, max);
  }

  lemma Product(n: nat, m: nat)
    requires n >= 2 && m >= 2
    ensures n * m >= n + m
  {
    assert (n - 1) * (m - 1) >= 1;
  }

  lemma Squares(a: nat, b: nat)
    requires a <= b && a > 0
    ensures a <= b * b
  {
    assert b * b >= b * 1;
  }

  // ------------------------------------------------------------------------------------------ tiles

  function Concat<T>(groups: seq<seq<T>>): seq<T> {
    if groups == [] then [] else groups[0] + Concat(groups[1..])
  }

  /** Consecutive runs of at most size items. */
  function Runs<T>(s: seq<T>, size: nat): seq<seq<T>>
    requires size > 0
  {
    if s == [] then [] else if |s| <= size then [s] else [s[..size]] + Runs(s[size..], size)
  }

  /** Slices of per items, each sorted across and cut into runs. */
  function Slices<T>(s: seq<T>, per: nat, size: nat, across: (T, T) -> bool): seq<seq<T>>
    requires per > 0 && size > 0
  {
    if |s| <= per then Runs(Sort(s, across), size)
    else Runs(Sort(s[..per], across), size) + Slices(s[per..], per, size, across)
  }

  function Partition<T>(items: seq<T>, max: nat, along: (T, T) -> bool, across: (T, T) -> bool): seq<seq<T>>
    requires items != [] && max > 0
  {
    Slices(Sort(items, along), PerSlice(|items|, max), max, across)
  }

  /** Cuts a sorted slice into runs. */
  method CutRuns<T>(slice: seq<T>, size: nat, groups: seq<seq<T>>) returns (r: seq<seq<T>>)
    requires size > 0
    ensures r == groups + Runs(slice, size)
  {
    hide Runs;
    r := groups;
    var i := 0;
    assert slice[0..] == slice;
    while i < |slice|
      invariant 0 <= i <= |slice|
      invariant r + Runs(slice[i..], size) == groups + Runs(slice, size)
    {
      var j := if i + size < |slice| then i + size else |slice|;
      RunsStep(slice[i..], size);
      SliceOf(slice, i, j, size);
      r := r + [slice[i..j]];
      i := j;
    }
    assert slice[i..] == [];
    NoRuns<T>(size);
  }

  method StrPartition<T>(items: seq<T>, max: nat, along: (T, T) -> bool, across: (T, T) -> bool)
    returns (groups: seq<seq<T>>)
    requires items != [] && max > 0
    ensures groups == Partition(items, max, along, across)
  {
    hide Sort, PerSlice, Runs, Slices, SlicesFrom;
    var n, per := |items|, PerSlice(|items|, max);
    var v := Sort(items, along);
    groups := [];
    var s := 0;
    SlicesEnds(v, per, max, across);
    while s < n
      invariant 0 <= s <= n
      invariant groups + SlicesFrom(v, s, per, max, across) == Slices(v, per, max, across)
    {
      var e := if s + per < n then s + per else n;
      SlicesStep(v, s, e, per, max, across);
      groups := CutRuns(Sort(v[s..e], across), max, groups);
      s := e;
    }
  }

  /** The slices from position s on. */
  function SlicesFrom<T>(v: seq<T>, s: nat, per: nat, size: nat, across: (T, T) -> bool): seq<seq<T>>
    requires per > 0 && size > 0 && s <= |v|
  {
    if s < |v| then Slices(v[s..], per, size, across) else []
  }

  lemma SlicesEnds<T>(v: seq<T>, per: nat, size: nat, across: (T, T) -> bool)
    requires per > 0 && size > 0 && v != []
    ensures SlicesFrom(v, 0, per, size, across) == Slices(v, per, size, across)
    ensures SlicesFrom(v, |v|, per, size, across) == []
  {
    assert v[0..] == v;
  }

  lemma SliceOf<T>(v: seq<T>, s: nat, e: nat, per: nat)
    requires s < |v| && e == (if s + per < |v| then s + per else |v|)
    ensures v[s..e] == if |v[s..]| <= per then v[s..] else v[s..][..per]
    ensures v[e..] == if |v[s..]| <= per then [] else v[s..][per..]
  {
  }

  lemma SlicesStep<T>(v: seq<T>, s: nat, e: nat, per: nat, size: nat, across: (T, T) -> bool)
    requires per > 0 && size > 0 && s < |v| && e == (if s + per < |v| then s + per else |v|)
    ensures SlicesFrom(v, s, per, size, across) == Runs(Sort(v[s..e], across), size) + SlicesFrom(v, e, per, size, across)
  {
    hide Sort, Runs;
    SliceOf(v, s, e, per);
  }

  lemma NoRuns<T>(size: nat)
    requires size > 0
    ensures Runs<T>([], size) == []
  {
  }

  lemma RunsStep<T>(s: seq<T>, size: nat)
    requires size > 0 && s != []
    ensures Runs(s, size) == if |s| <= size then [s] + Runs([], size) else [s[..size]] + Runs(s[size..], size)
  {
  }

  /** Groups of 1 to size items. */
  ghost predicate Tiles<T>(groups: seq<seq<T>>, size: nat) {
    forall i :: 0 <= i < |groups| ==> 1 <= |groups[i]| <= size
  }

  lemma {:induction false} ConcatJoin<T>(a: seq<seq<T>>, b: seq<seq<T>>)
    ensures Concat(a + b) == Concat(a) + Concat(b)
  {
    if a == [] {
      assert a + b == b;
    } else {
      ConcatJoin(a[1..], b);
      ConcatHead(a, b);
      assert a[0] + (Concat(a[1..]) + Concat(b)) == (a[0] + Concat(a[1..])) + Concat(b);
    }
  }

  lemma ConcatHead<T>(a: seq<seq<T>>, b: seq<seq<T>>)
    requires a != []
    ensures Concat(a) == a[0] + Concat(a[1..]) && Concat(a + b) == a[0] + Concat(a[1..] + b)
  {
    assert (a + b)[1..] == a[1..] + b;
  }

  lemma {:induction false} RunsTile<T>(s: seq<T>, size: nat)
    requires size > 0
    ensures Tiles(Runs(s, size), size) && Concat(Runs(s, size)) == s && |Runs(s, size)| <= |s|
    ensures size >= 2 && |s| >= 2 ==> |Runs(s, size)| < |s|
  {
    if |s| > size {
      RunsTile(s[size..], size);
      assert s == s[..size] + s[size..];
    } else if s != [] {
      assert Concat([s]) == s + Concat([]);
    }
  }

  lemma {:induction false} SlicesTile<T>(s: seq<T>, per: nat, size: nat, across: (T, T) -> bool)
    requires per > 0 && size > 0
    ensures Tiles(Slices(s, per, size, across), size)
    ensures multiset(Concat(Slices(s, per, size, across))) == multiset(s)
    ensures |Slices(s, per, size, across)| <= |s|
    ensures size >= 2 && per >= 2 && |s| >= 2 ==> |Slices(s, per, size, across)| < |s|
    decreases |s|
  {
    hide Runs, Sort;
    if |s| <= per {
      RunsTile(Sort(s, across), size);
      SortPermutes(s, across);
    } else {
      RunsTile(Sort(s[..per], across), size);
      SortPermutes(s[..per], across);
      SlicesTile(s[per..], per, size, across);
      ConcatJoin(Runs(Sort(s[..per], across), size), Slices(s[per..], per, size, across));
      assert s == s[..per] + s[per..];
    }
  }

  /** Slices of per items: each sorted across, and everything in one along-before everything in the next. */
  ghost predicate InTileOrder<T(!new)>(c: seq<T>, per: nat, along: (T, T) -> bool, across: (T, T) -> bool)
    requires per > 0
  {
    if |c| <= per then Sorted(c, across)
    else
      && Sorted(c[..per], across) && InTileOrder(c[per..], per, along, across)
      && forall x, y :: x in c[..per] && y in c[per..] ==> along(x, y)
  }

  lemma {:induction false} SlicesInOrder<T(!new)>(s: seq<T>, per: nat, size: nat, along: (T, T) -> bool, across: (T, T) -> bool)
    requires per > 0 && size > 0 && Sorted(s, along) && Preorder(across)
    ensures InTileOrder(Concat(Slices(s, per, size, across)), per, along, across)
    ensures multiset(Concat(Slices(s, per, size, across))) == multiset(s)
    decreases |s|
  {
    hide Runs, Sort, Preorder;
    if |s| <= per {
      RunsTile(Sort(s, across), size);
      SortSorts(s, across);
      SortPermutes(s, across);
    } else {
      var head, tail := s[..per], s[per..];
      RunsTile(Sort(head, across), size);
      SortSorts(head, across);
      SortPermutes(head, across);
      SlicesInOrder(tail, per, size, along, across);
      var rest := Slices(tail, per, size, across);
      ConcatJoin(Runs(Sort(head, across), size), rest);
      var c := Concat(Slices(s, per, size, across));
      assert c == Sort(head, across) + Concat(rest);
      assert c[..per] == Sort(head, across) && c[per..] == Concat(rest);
      MultisetMembers(Concat(rest), tail);
      SplitSorted(s, per, along);
      assert s == head + tail;
      SameLength(Concat(rest), tail);
    }
  }

  lemma SameLength<T>(a: seq<T>, b: seq<T>)
    requires multiset(a) == multiset(b)
    ensures |a| == |b|
  {
    assert |multiset(a)| == |multiset(b)|;
  }

  lemma SplitSorted<T(!new)>(s: seq<T>, k: nat, le: (T, T) -> bool)
    requires k <= |s| && Sorted(s, le)
    ensures forall x, y :: x in s[..k] && y in s[k..] ==> le(x, y)
    ensures Sorted(s[k..], le)
  {
    forall x, y | x in s[..k] && y in s[k..] ensures le(x, y) {
      var i :| 0 <= i < k && s[i] == x;
      var j :| 0 <= j < |s| - k && s[k..][j] == y;
      assert s[k + j] == y;
    }
  }

  /** The tiles of a packing pass, one after the other, are slices along one axis, each sorted along the other. */
  lemma PartitionInOrder<T(!new)>(items: seq<T>, max: nat, along: (T, T) -> bool, across: (T, T) -> bool)
    requires items != [] && max > 0 && Preorder(along) && Preorder(across)
    ensures InTileOrder(Concat(Partition(items, max, along, across)), PerSlice(|items|, max), along, across)
  {
    hide Preorder, Sort, Slices;
    SortSorts(items, along);
    SlicesInOrder(Sort(items, along), PerSlice(|items|, max), max, along, across);
  }

  /** A packing pass keeps every item, in groups of 1 to max; two items or more always make fewer groups. */
  lemma PartitionTiles<T>(items: seq<T>, max: nat, along: (T, T) -> bool, across: (T, T) -> bool)
    requires items != [] && max >= 4
    ensures var groups := Partition(items, max, along, across);
            && Tiles(groups, max) && multiset(Concat(groups)) == multiset(items) && |groups| <= |items|
            && (|items| >= 2 ==> |groups| < |items|) && groups != []
  {
    hide Slices, Sort;
    var v, per := Sort(items, along), PerSlice(|items|, max);
    SlicesTile(v, per, max, across);
    SortPermutes(items, along);
    if |items| >= 2 {
      SlicesHoldTwo(|items|, max);
    }
    MultisetMembers(Concat(Partition(items, max, along, across)), items);
  }

  /** The packing does not depend on the order of the items when no two of them tie. */
  lemma PartitionForgetsOrder<T(!new)>(a: seq<T>, b: seq<T>, max: nat, along: (T, T) -> bool, across: (T, T) -> bool)
    requires a != [] && max > 0 && multiset(a) == multiset(b) && Preorder(along) && Antisymmetric(a, along)
    ensures b != [] && Partition(a, max, along, across) == Partition(b, max, along, across)
  {
    hide Slices, Sort, Preorder;
    MultisetMembers(a, b);
    SortForgetsOrder(a, b, along);
  }
}
