/**
 The in-place quadtree: splits that cascade, collapses that undo them, and a root that grows by doubling. Depth is a
 property of the path, passed down rather than stored.
 */
module QuadtreeNodes {
  import opened Geometry
  import opened LinearScan
  import opened QuadNodes
  import Sorting

  type Tree = Node<()>

  function Bare(region: Box, items: seq<Entry>, kids: seq<Tree>): Tree {
    Node(region, (), items, kids)
  }

  /** Four empty quadrants. */
  function Subdivided(region: Box): (kids: seq<Tree>)
    ensures |kids| == 4 && forall i :: 0 <= i < 4 ==> kids[i] == Bare(Quadrant(region, i), [], [])
  {
    [Bare(Quadrant(region, 0), [], []), Bare(Quadrant(region, 1), [], []),
     Bare(Quadrant(region, 2), [], []), Bare(Quadrant(region, 3), [], [])]
  }

  // -------------------------------------------------------------------------------------- invariants

  /** Children tile their parent. */
  ghost predicate Tiled(n: Tree) {
    n.kids == [] || (|n.kids| == 4 && forall i :: 0 <= i < 4 ==> n.kids[i].region == Quadrant(n.region, i) && Tiled(n.kids[i]))
  }

  /** Leaves above the maximum depth hold no more than cap entries. */
  ghost predicate Capped(n: Tree, cap: nat, maxDepth: nat, depth: nat) {
    if n.kids == [] then |n.items| <= cap || depth >= maxDepth
    else |n.kids| == 4 && forall i :: 0 <= i < 4 ==> Capped(n.kids[i], cap, maxDepth, depth + 1)
  }

  /** Each entry sits in the child its box selects, or here when it fits none. */
  ghost predicate Placed(n: Tree) {
    && |n.kids| == 4
    && (forall e :: e in n.items ==> Choose(n.kids, e.box, 0) == 4)
    && (forall i, e :: 0 <= i < 4 && e in Contents(n.kids[i]) ==> Choose(n.kids, e.box, 0) == i)
  }

  /** A node above the maximum depth is divided exactly when its subtree holds more than cap entries. */
  ghost predicate Canonical(n: Tree, cap: nat, maxDepth: nat, depth: nat) {
    && (n.kids == [] || Placed(n))
    && (n.kids != [] <==> depth < maxDepth && |Contents(n)| > cap)
    && forall i :: 0 <= i < |n.kids| ==>
         n.kids[i].region == Quadrant(n.region, i) && Canonical(n.kids[i], cap, maxDepth, depth + 1)
  }

  /** The same tree up to the order of entries inside nodes. */
  ghost predicate SameTree(a: Tree, b: Tree) {
    && a.region == b.region && multiset(a.items) == multiset(b.items) && |a.kids| == |b.kids|
    && forall i :: 0 <= i < |a.kids| ==> SameTree(a.kids[i], b.kids[i])
  }

  // ------------------------------------------------------------------------------------ canonical form

  /** How often an entry occurs in child k, or among the items for k == 4. */
  lemma PlacedCounts(n: Tree, x: Entry)
    requires Placed(n)
    ensures var c := Choose(n.kids, x.box, 0);
            && c <= 4 && multiset(n.items)[x] == (if c == 4 then Contents(n)[x] else 0)
            && forall i :: 0 <= i < 4 ==> Contents(n.kids[i])[x] == if c == i then Contents(n)[x] else 0
  {
    hide Choose;
    assert x in n.items <==> x in multiset(n.items);
  }

  lemma SameShares(a: Tree, b: Tree)
    requires Placed(a) && Placed(b) && Contents(a) == Contents(b)
    requires forall i :: 0 <= i < 4 ==> a.kids[i].region == b.kids[i].region
    ensures multiset(a.items) == multiset(b.items)
    ensures forall i :: 0 <= i < 4 ==> Contents(a.kids[i]) == Contents(b.kids[i])
  {
    hide Choose, Contents, Placed;
    FourKids(a);
    FourKids(b);
    forall x: Entry ensures multiset(a.items)[x] == multiset(b.items)[x] {
      PlacedCounts(a, x);
      PlacedCounts(b, x);
      SameChoice(a.kids, b.kids, x.box, 0);
    }
    forall i | 0 <= i < 4 ensures Contents(a.kids[i]) == Contents(b.kids[i]) {
      forall x: Entry ensures Contents(a.kids[i])[x] == Contents(b.kids[i])[x] {
        PlacedCounts(a, x);
        PlacedCounts(b, x);
        SameChoice(a.kids, b.kids, x.box, 0);
      }
    }
  }

  lemma FourKids(n: Tree)
    requires Placed(n)
    ensures |n.kids| == 4
  {
  }

  /** History does not matter: the region and the entries determine a canonical tree. */
  lemma {:induction false} CanonicalUnique(a: Tree, b: Tree, cap: nat, maxDepth: nat, depth: nat)
    requires Canonical(a, cap, maxDepth, depth) && Canonical(b, cap, maxDepth, depth)
    requires a.region == b.region && Contents(a) == Contents(b)
    ensures SameTree(a, b)
    decreases a
  {
    hide Choose, Quadrant, Placed;
    if a.kids == [] {
      assert b.kids == [] && Contents(a) == multiset(a.items) && Contents(b) == multiset(b.items);
    } else {
      FourKids(a);
      FourKids(b);
      SameShares(a, b);
      forall i | 0 <= i < 4 ensures SameTree(a.kids[i], b.kids[i]) {
        CanonicalUnique(a.kids[i], b.kids[i], cap, maxDepth, depth + 1);
      }
    }
  }

  lemma {:induction false} SameTreeContents(a: Tree, b: Tree)
    requires SameTree(a, b)
    ensures Contents(a) == Contents(b)
    decreases a
  {
    hide Contents;
    if |a.kids| == 4 {
      FourParts(a);
      FourParts(b);
      SameTreeContents(a.kids[0], b.kids[0]);
      SameTreeContents(a.kids[1], b.kids[1]);
      SameTreeContents(a.kids[2], b.kids[2]);
      SameTreeContents(a.kids[3], b.kids[3]);
    } else {
      ItemsOnly(a);
      ItemsOnly(b);
    }
  }

  lemma ItemsOnly(n: Tree)
    requires |n.kids| != 4
    ensures Contents(n) == multiset(n.items)
  {
  }

  /** A tree that equals a canonical one, up to order, is canonical. */
  lemma {:induction false} SameTreeCanonical(a: Tree, b: Tree, cap: nat, maxDepth: nat, depth: nat)
    requires SameTree(a, b) && Canonical(b, cap, maxDepth, depth)
    ensures Canonical(a, cap, maxDepth, depth)
    decreases a
  {
    hide Choose, Quadrant, Placed, Contents;
    SameTreeContents(a, b);
    forall i | 0 <= i < |a.kids| ensures Canonical(a.kids[i], cap, maxDepth, depth + 1) {
      SameTreeCanonical(a.kids[i], b.kids[i], cap, maxDepth, depth + 1);
    }
    if a.kids != [] {
      SameTreePlaced(a, b);
    }
  }

  lemma SameTreePlaced(a: Tree, b: Tree)
    requires SameTree(a, b) && Placed(b)
    ensures Placed(a)
  {
    hide Choose, Contents;
    forall e | e in a.items ensures Choose(a.kids, e.box, 0) == 4 {
      assert e in multiset(b.items);
      SameChoice(a.kids, b.kids, e.box, 0);
    }
    forall i, e | 0 <= i < 4 && e in Contents(a.kids[i]) ensures Choose(a.kids, e.box, 0) == i {
      SameTreeContents(a.kids[i], b.kids[i]);
      SameChoice(a.kids, b.kids, e.box, 0);
    }
  }

  // ------------------------------------------------------------------------------------------ insert

  /** An operation below n keeps the region and every invariant n has. */
  ghost predicate Keeps(n: Tree, m: Tree, cap: nat, maxDepth: nat, depth: nat) {
    && m.region == n.region
    && (Inside(n) && (forall e :: e in Contents(m) ==> FullyContains(n.region, e.box)) ==> Inside(m))
    && (Tiled(n) ==> Tiled(m))
    && (Capped(n, cap, maxDepth, depth) ==> Capped(m, cap, maxDepth, depth))
    && (Canonical(n, cap, maxDepth, depth) ==> Canonical(m, cap, maxDepth, depth))
  }

  function Gap(maxDepth: nat, depth: nat): nat {
    if depth < maxDepth then maxDepth - depth else 0
  }

  /** A subdivided node that has received some of its entries back. */
  ghost predicate Partial(m: Tree, cap: nat, maxDepth: nat, depth: nat) {
    && Placed(m)
    && forall i :: 0 <= i < 4 ==> KidOk(m, i, cap, maxDepth, depth)
  }

  ghost predicate KidOk(m: Tree, i: nat, cap: nat, maxDepth: nat, depth: nat)
    requires i < |m.kids|
  {
    && m.kids[i].region == Quadrant(m.region, i) && Inside(m.kids[i]) && Tiled(m.kids[i])
    && Capped(m.kids[i], cap, maxDepth, depth + 1) && Canonical(m.kids[i], cap, maxDepth, depth + 1)
  }

  /** An insertion below a divided node goes into the chosen child, or stays here when there is none. */
  ghost predicate Descends(n: Tree, e: Entry, m: Tree, cap: nat, maxDepth: nat, depth: nat)
    requires |n.kids| == 4
  {
    var i := Choose(n.kids, e.box, 0);
    if i == 4 then m == Bare(n.region, n.items + [e], n.kids)
    else |m.kids| == 4 && m == Bare(n.region, n.items, n.kids[i := m.kids[i]])
         && InsertedBelow(n.kids[i], e, m.kids[i], cap, maxDepth, depth + 1)
  }

  ghost predicate InsertedBelow(n: Tree, e: Entry, m: Tree, cap: nat, maxDepth: nat, depth: nat) {
    Contents(m) == Contents(n) + multiset{e} && Keeps(n, m, cap, maxDepth, depth)
  }

  method InsertInto(n: Tree, e: Entry, cap: nat, maxDepth: nat, depth: nat) returns (m: Tree)
    requires |n.kids| == 0 || Inside(n)
    ensures Contents(m) == Contents(n) + multiset{e} && Keeps(n, m, cap, maxDepth, depth)
    ensures |n.kids| == 4 ==> Descends(n, e, m, cap, maxDepth, depth)
    decreases Gap(maxDepth, depth), 1, n
  {
    hide Contents, Choose, FullyContains, Quadrant, Keeps, Inside, Partial;
    if !n.Leaf() {
      FourInside(n);
      for i := 0 to 4
        invariant Choose(n.kids, e.box, 0) == Choose(n.kids, e.box, i)
      {
        ChooseStep(n.kids, e.box, i);
        if FullyContains(n.kids[i].region, e.box) {
          var kid := InsertInto(n.kids[i], e, cap, maxDepth, depth + 1);
          KeepsBelow(n, e, i, kid, cap, maxDepth, depth);
          assert InsertedBelow(n.kids[i], e, kid, cap, maxDepth, depth + 1);
          return Bare(n.region, n.items, n.kids[i := kid]);
        }
      }
      ChooseStep(n.kids, e.box, 4);
      KeepsHere(n, e, cap, maxDepth, depth);
      return Bare(n.region, n.items + [e], n.kids);
    }
    LeafContents(n.region, (), n.items + [e]);
    LeafContents(n.region, (), n.items);
    if |n.items + [e]| > cap && depth < maxDepth {
      m := SplitLeaf(n.region, n.items + [e], cap, maxDepth, depth);
      SplitKeeps(n, e, m, cap, maxDepth, depth);
    } else {
      m := Bare(n.region, n.items + [e], []);
      LeafKeeps(n, e, cap, maxDepth, depth);
    }
  }

  /** Subdivides an overfull leaf and inserts what fits a quadrant into it; a quadrant may split in turn. */
  method SplitLeaf(region: Box, items: seq<Entry>, cap: nat, maxDepth: nat, depth: nat) returns (m: Tree)
    requires |items| > cap && depth < maxDepth
    ensures Partial(m, cap, maxDepth, depth) && Contents(m) == multiset(items) && m.region == region
    decreases Gap(maxDepth, depth), 0
  {
    hide Contents, Choose, FullyContains, Quadrant, Keeps, Inside, Partial, Placed, KidOk;
    m := Bare(region, [], Subdivided(region));
    PartialEmpty(region, cap, maxDepth, depth);
    for j := 0 to |items|
      invariant Partial(m, cap, maxDepth, depth) && m.region == region && Contents(m) == multiset(items[..j])
    {
      assert items[..j + 1] == items[..j] + [items[j]];
      PartialFour(m, cap, maxDepth, depth);
      var moved := false;
      for i := 0 to 4
        invariant !moved && Choose(m.kids, items[j].box, 0) == Choose(m.kids, items[j].box, i)
      {
        ChooseStep(m.kids, items[j].box, i);
        if FullyContains(m.kids[i].region, items[j].box) {
          PartialKid(m, i, cap, maxDepth, depth);
          var kid := InsertInto(m.kids[i], items[j], cap, maxDepth, depth + 1);
          PartialBelow(m, items[j], i, kid, cap, maxDepth, depth);
          m := Bare(region, m.items, m.kids[i := kid]);
          moved := true;
          break;
        }
      }
      if !moved {
        ChooseStep(m.kids, items[j].box, 4);
        PartialHere(m, items[j], cap, maxDepth, depth);
        m := Bare(region, m.items + [items[j]], m.kids);
      }
    }
    assert items[..|items|] == items;
  }

  lemma KeepsHere(n: Tree, e: Entry, cap: nat, maxDepth: nat, depth: nat)
    requires |n.kids| == 4 && Choose(n.kids, e.box, 0) == 4
    ensures var m := Bare(n.region, n.items + [e], n.kids);
            Contents(m) == Contents(n) + multiset{e} && Keeps(n, m, cap, maxDepth, depth)
  {
    hide Choose, FullyContains, Quadrant, Contents, Inside, Canonical;
    var m := Bare(n.region, n.items + [e], n.kids);
    ContentsHere(n, e);
    InsideHere(n, e);
    if Canonical(n, cap, maxDepth, depth) {
      PlacedOfCanonical(n, cap, maxDepth, depth);
      CanonicalHere(n, e, cap, maxDepth, depth);
    }
  }

  lemma ContentsHere(n: Tree, e: Entry)
    ensures Contents(Bare(n.region, n.items + [e], n.kids)) == Contents(n) + multiset{e}
  {
    var m := Bare(n.region, n.items + [e], n.kids);
    assert multiset(m.items) == multiset(n.items) + multiset{e};
  }

  lemma InsideHere(n: Tree, e: Entry)
    ensures var m := Bare(n.region, n.items + [e], n.kids);
            Inside(n) && (forall x :: x in Contents(m) ==> FullyContains(n.region, x.box)) ==> Inside(m)
  {
    hide FullyContains, Contents;
  }

  lemma CanonicalHere(n: Tree, e: Entry, cap: nat, maxDepth: nat, depth: nat)
    requires Canonical(n, cap, maxDepth, depth) && Placed(n) && Choose(n.kids, e.box, 0) == 4
    requires Contents(Bare(n.region, n.items + [e], n.kids)) == Contents(n) + multiset{e}
    ensures Canonical(Bare(n.region, n.items + [e], n.kids), cap, maxDepth, depth)
  {
    hide Choose, Quadrant, Contents;
    assert |Contents(n) + multiset{e}| == |Contents(n)| + 1;
  }

  lemma LeafKeeps(n: Tree, e: Entry, cap: nat, maxDepth: nat, depth: nat)
    requires n.kids == [] && (|n.items + [e]| <= cap || depth >= maxDepth)
    ensures var m := Bare(n.region, n.items + [e], []);
            Contents(m) == Contents(n) + multiset{e} && Keeps(n, m, cap, maxDepth, depth)
  {
    hide Choose, FullyContains, Quadrant;
    var m := Bare(n.region, n.items + [e], []);
    assert Contents(m) == multiset(n.items + [e]) && Contents(n) == multiset(n.items);
  }

  lemma SplitKeeps(n: Tree, e: Entry, m: Tree, cap: nat, maxDepth: nat, depth: nat)
    requires n.kids == [] && Partial(m, cap, maxDepth, depth) && Contents(m) == multiset(n.items + [e])
    requires m.region == n.region && |n.items + [e]| > cap && depth < maxDepth
    ensures Contents(m) == Contents(n) + multiset{e} && Keeps(n, m, cap, maxDepth, depth)
  {
    hide Choose, FullyContains, Quadrant, Contents;
    LeafContents(n.region, (), n.items);
    assert n.depth == ();
    assert |Contents(m)| == |n.items + [e]|;
    forall i | 0 <= i < 4
      ensures m.kids[i].region == Quadrant(m.region, i) && Inside(m.kids[i]) && Tiled(m.kids[i])
      ensures Capped(m.kids[i], cap, maxDepth, depth + 1) && Canonical(m.kids[i], cap, maxDepth, depth + 1)
    {
      assert KidOk(m, i, cap, maxDepth, depth);
    }
  }

  lemma KeepsBelow(n: Tree, e: Entry, i: nat, k: Tree, cap: nat, maxDepth: nat, depth: nat)
    requires |n.kids| == 4 && i < 4 && Choose(n.kids, e.box, 0) == i
    requires Contents(k) == Contents(n.kids[i]) + multiset{e} && Keeps(n.kids[i], k, cap, maxDepth, depth + 1)
    ensures var m := Bare(n.region, n.items, n.kids[i := k]);
            Contents(m) == Contents(n) + multiset{e} && Keeps(n, m, cap, maxDepth, depth)
  {
    hide Choose, FullyContains, Quadrant, Contents, Inside, Tiled, Capped, Canonical;
    var m := Bare(n.region, n.items, n.kids[i := k]);
    assert n.depth == ();
    KidReplaced(n, n.region, i, k);
    Cancel(Contents(m), Contents(n), Contents(n.kids[i]), multiset{e});
    InsideBelow(n, e, i, k);
    TiledBelow(n, i, k);
    CappedBelow(n, i, k, cap, maxDepth, depth);
    if Canonical(n, cap, maxDepth, depth) {
      PlacedOfCanonical(n, cap, maxDepth, depth);
      PlacedBelow(n, e, i, k);
      CanonicalBelow(n, e, i, k, cap, maxDepth, depth);
    }
  }

  lemma InsideBelow(n: Tree, e: Entry, i: nat, k: Tree)
    requires |n.kids| == 4 && i < 4 && Choose(n.kids, e.box, 0) == i && k.region == n.kids[i].region
    requires Contents(k) == Contents(n.kids[i]) + multiset{e}
    requires Inside(n.kids[i]) && (forall x :: x in Contents(k) ==> FullyContains(k.region, x.box)) ==> Inside(k)
    ensures var m := Bare(n.region, n.items, n.kids[i := k]);
            Inside(n) && (forall x :: x in Contents(m) ==> FullyContains(n.region, x.box)) ==> Inside(m)
  {
    hide Choose, FullyContains, Contents;
    ChosenContains(n.kids, e.box, 0);
  }

  lemma TiledBelow(n: Tree, i: nat, k: Tree)
    requires |n.kids| == 4 && i < 4 && k.region == n.kids[i].region && (Tiled(n.kids[i]) ==> Tiled(k))
    ensures Tiled(n) ==> Tiled(Bare(n.region, n.items, n.kids[i := k]))
  {
    hide Quadrant;
  }

  lemma CappedBelow(n: Tree, i: nat, k: Tree, cap: nat, maxDepth: nat, depth: nat)
    requires |n.kids| == 4 && i < 4
    requires Capped(n.kids[i], cap, maxDepth, depth + 1) ==> Capped(k, cap, maxDepth, depth + 1)
    ensures Capped(n, cap, maxDepth, depth) ==> Capped(Bare(n.region, n.items, n.kids[i := k]), cap, maxDepth, depth)
  {
  }

  lemma PlacedOfCanonical(n: Tree, cap: nat, maxDepth: nat, depth: nat)
    requires Canonical(n, cap, maxDepth, depth) && n.kids != []
    ensures Placed(n) && depth < maxDepth && |Contents(n)| > cap
  {
  }

  lemma PlacedBelow(n: Tree, e: Entry, i: nat, k: Tree)
    requires Placed(n) && i < 4 && Choose(n.kids, e.box, 0) == i && k.region == n.kids[i].region
    requires Contents(k) <= Contents(n.kids[i]) + multiset{e}
    ensures Placed(Bare(n.region, n.items, n.kids[i := k]))
  {
    hide Choose, Contents;
    var kids := n.kids[i := k];
    forall x: Entry ensures Choose(kids, x.box, 0) == Choose(n.kids, x.box, 0) {
      SameChoice(kids, n.kids, x.box, 0);
    }
    forall x | x in Contents(k) ensures Choose(n.kids, x.box, 0) == i {
      assert Contents(k)[x] <= (Contents(n.kids[i]) + multiset{e})[x];
    }
  }

  lemma CanonicalBelow(n: Tree, e: Entry, i: nat, k: Tree, cap: nat, maxDepth: nat, depth: nat)
    requires Canonical(n, cap, maxDepth, depth) && |n.kids| == 4 && i < 4 && k.region == n.kids[i].region
    requires Canonical(n.kids[i], cap, maxDepth, depth + 1) ==> Canonical(k, cap, maxDepth, depth + 1)
    requires Placed(Bare(n.region, n.items, n.kids[i := k]))
    requires Contents(Bare(n.region, n.items, n.kids[i := k])) == Contents(n) + multiset{e}
    ensures Canonical(Bare(n.region, n.items, n.kids[i := k]), cap, maxDepth, depth)
  {
    hide Quadrant, Contents, Placed;
    assert |Contents(n) + multiset{e}| == |Contents(n)| + 1;
  }

  lemma PartialEmpty(region: Box, cap: nat, maxDepth: nat, depth: nat)
    ensures var m := Bare(region, [], Subdivided(region)); Partial(m, cap, maxDepth, depth) && Contents(m) == multiset{}
  {
    hide Quadrant, Choose;
    var m := Bare(region, [], Subdivided(region));
    forall i | 0 <= i < 4 ensures Contents(m.kids[i]) == multiset{} && KidOk(m, i, cap, maxDepth, depth) {
      LeafContents(m.kids[i].region, (), []);
    }
  }

  lemma PartialFour(m: Tree, cap: nat, maxDepth: nat, depth: nat)
    requires Partial(m, cap, maxDepth, depth)
    ensures |m.kids| == 4
  {
  }

  lemma PartialKid(m: Tree, i: nat, cap: nat, maxDepth: nat, depth: nat)
    requires Partial(m, cap, maxDepth, depth) && i < |m.kids|
    ensures Inside(m.kids[i])
  {
    assert KidOk(m, i, cap, maxDepth, depth);
  }

  lemma PartialHere(m: Tree, e: Entry, cap: nat, maxDepth: nat, depth: nat)
    requires Partial(m, cap, maxDepth, depth) && Choose(m.kids, e.box, 0) == 4
    ensures var m' := Bare(m.region, m.items + [e], m.kids);
            Partial(m', cap, maxDepth, depth) && Contents(m') == Contents(m) + multiset{e}
  {
    hide Quadrant, Choose, Inside, Tiled, Capped, Canonical;
    var m' := Bare(m.region, m.items + [e], m.kids);
    forall i | 0 <= i < 4 ensures KidOk(m', i, cap, maxDepth, depth) {
      assert KidOk(m, i, cap, maxDepth, depth);
    }
  }

  lemma PartialBelow(m: Tree, e: Entry, i: nat, k: Tree, cap: nat, maxDepth: nat, depth: nat)
    requires Partial(m, cap, maxDepth, depth) && i < 4 && |m.kids| == 4 && Choose(m.kids, e.box, 0) == i
    requires Contents(k) == Contents(m.kids[i]) + multiset{e} && Keeps(m.kids[i], k, cap, maxDepth, depth + 1)
    ensures var m' := Bare(m.region, m.items, m.kids[i := k]);
            Partial(m', cap, maxDepth, depth) && Contents(m') == Contents(m) + multiset{e}
  {
    hide Quadrant, Choose, Contents, Placed, FullyContains, Tiled, Capped, Canonical;
    var m' := Bare(m.region, m.items, m.kids[i := k]);
    assert m.depth == ();
    KidReplaced(m, m.region, i, k);
    Cancel(Contents(m'), Contents(m), Contents(m.kids[i]), multiset{e});
    PlacedBelow(m, e, i, k);
    assert KidOk(m, i, cap, maxDepth, depth);
    ChosenContains(m.kids, e.box, 0);
    forall j | 0 <= j < 4 ensures KidOk(m', j, cap, maxDepth, depth) {
      assert KidOk(m, j, cap, maxDepth, depth);
    }
  }

  // ------------------------------------------------------------------------------------------ remove

  /** The entries here and in the first i children. */
  ghost function UpTo(n: Tree, i: nat): multiset<Entry>
    requires i <= |n.kids|
  {
    if i == 0 then multiset(n.items) else UpTo(n, i - 1) + Contents(n.kids[i - 1])
  }

  lemma FourParts(n: Tree)
    requires |n.kids| == 4
    ensures Contents(n) == multiset(n.items) + Contents(n.kids[0]) + Contents(n.kids[1]) + Contents(n.kids[2]) + Contents(n.kids[3])
  {
  }

  lemma UpToAll(n: Tree)
    requires |n.kids| == 4
    ensures UpTo(n, 4) == Contents(n) && forall i :: 0 <= i <= 4 ==> UpTo(n, i) <= Contents(n)
  {
    hide Contents, UpTo;
    FourParts(n);
    UpToRises(n, 0);
    UpToRises(n, 1);
    UpToRises(n, 2);
    UpToRises(n, 3);
    UpToRises(n, 4);
    FourSteps(n);
  }

  lemma FourSteps(n: Tree)
    requires |n.kids| == 4
    ensures UpTo(n, 4) == multiset(n.items) + Contents(n.kids[0]) + Contents(n.kids[1]) + Contents(n.kids[2]) + Contents(n.kids[3])
  {
    hide Contents, UpTo;
    UpToFirst(n);
    UpToNext(n, 0);
    UpToNext(n, 1);
    UpToNext(n, 2);
    UpToNext(n, 3);
  }

  lemma {:induction false} UpToRises(n: Tree, i: nat)
    requires i <= |n.kids|
    ensures UpTo(n, i) <= UpTo(n, |n.kids|)
    decreases |n.kids| - i
  {
    hide Contents;
    if i < |n.kids| {
      UpToRises(n, i + 1);
      UpToNext(n, i);
    }
  }

  /** The number of entries, or anything greater than the limit when there are more than that. */
  method CountUpTo(n: Tree, limit: nat) returns (total: nat)
    requires Inside(n)
    ensures |Contents(n)| <= limit ==> total == |Contents(n)|
    ensures |Contents(n)| > limit ==> total > limit
    decreases n
  {
    hide Contents, Inside, UpTo;
    total := |n.items|;
    UpToFirst(n);
    if n.Leaf() { return; }
    FourInside(n);
    UpToAll(n);
    if total > limit {
      Fewer(UpTo(n, 0), Contents(n));
      return;
    }
    for i := 0 to 4
      invariant total <= limit && total == |UpTo(n, i)|
    {
      UpToNext(n, i);
      var k := CountUpTo(n.kids[i], limit - if limit < total then limit else total);
      total := total + k;
      if total > limit {
        Fewer(UpTo(n, i + 1), Contents(n));
        return;
      }
    }
  }

  lemma UpToFirst(n: Tree)
    ensures UpTo(n, 0) == multiset(n.items) && |UpTo(n, 0)| == |n.items| && (n.kids == [] ==> Contents(n) == UpTo(n, 0))
  {
  }

  lemma UpToNext(n: Tree, i: nat)
    requires i < |n.kids|
    ensures UpTo(n, i + 1) == UpTo(n, i) + Contents(n.kids[i])
    ensures |UpTo(n, i + 1)| == |UpTo(n, i)| + |Contents(n.kids[i])|
  {
    hide Contents;
  }

  lemma Fewer(a: multiset<Entry>, b: multiset<Entry>)
    requires a <= b
    ensures |a| <= |b|
  {
    assert b == a + (b - a);
  }

  /** Lists every entry of a subtree. */
  method Gather(n: Tree, out: seq<Entry>) returns (out': seq<Entry>)
    requires Inside(n)
    ensures multiset(out') == multiset(out) + Contents(n)
    decreases n
  {
    hide Contents, Inside, UpTo;
    out' := out + n.items;
    UpToFirst(n);
    if n.Leaf() { return; }
    FourInside(n);
    UpToAll(n);
    for i := 0 to 4
      invariant multiset(out') == multiset(out) + UpTo(n, i)
    {
      UpToNext(n, i);
      out' := Gather(n.kids[i], out');
    }
  }

  /** A divided node whose subtree fits in one node gives up its children. */
  method TryCollapse(n: Tree, cap: nat) returns (m: Tree)
    requires Inside(n)
    ensures Collapsed(n, m, cap)
  {
    hide Contents, Inside;
    if n.Leaf() { return n; }
    var total := CountUpTo(n, cap);
    if total > cap { return n; }
    var all := Gather(n, []);
    m := Bare(n.region, all, []);
    LeafContents(n.region, (), all);
  }

  ghost predicate Collapsed(n: Tree, m: Tree, cap: nat) {
    if n.kids != [] && |Contents(n)| <= cap then m.kids == [] && m.region == n.region && Contents(m) == Contents(n)
    else m == n
  }

  /** One entry gone, before any collapse: invariants kept, except that a divided node may now hold too few. */
  ghost predicate Lighter(n: Tree, m: Tree, e: Entry, cap: nat, maxDepth: nat, depth: nat) {
    && m.region == n.region && Contents(m) + multiset{e} == Contents(n) && (n.kids == [] <==> m.kids == [])
    && (Inside(n) ==> Inside(m)) && (Tiled(n) ==> Tiled(m))
    && (Capped(n, cap, maxDepth, depth) ==> Capped(m, cap, maxDepth, depth))
    && (Canonical(n, cap, maxDepth, depth) ==> m.kids == [] || (Placed(m) && CanonicalKids(m, cap, maxDepth, depth)))
  }

  ghost predicate CanonicalKids(m: Tree, cap: nat, maxDepth: nat, depth: nat) {
    forall i :: 0 <= i < |m.kids| ==>
      m.kids[i].region == Quadrant(m.region, i) && Canonical(m.kids[i], cap, maxDepth, depth + 1)
  }

  lemma LighterHere(n: Tree, k: nat, cap: nat, maxDepth: nat, depth: nat)
    requires Inside(n) && k < |n.items|
    ensures Lighter(n, Bare(n.region, n.items[..k] + n.items[k + 1..], n.kids), n.items[k], cap, maxDepth, depth)
  {
    hide Choose, FullyContains, Quadrant, Contents, Inside, Canonical, Placed;
    var m := Bare(n.region, n.items[..k] + n.items[k + 1..], n.kids);
    ContentsWithout(n, k);
    if n.kids == [] {
      LeafInside(n);
      SmallerStaysInside(n, m);
      LeafShrinks(n, m, cap, maxDepth, depth);
    } else {
      FourInside(n);
      SmallerStaysInside(n, m);
      if Canonical(n, cap, maxDepth, depth) {
        PlacedOfCanonical(n, cap, maxDepth, depth);
        KidsOfCanonical(n, cap, maxDepth, depth);
        PlacedWithout(n, k);
      }
    }
  }

  lemma LeafInside(n: Tree)
    requires Inside(n) && n.kids == []
    ensures forall x :: x in n.items ==> FullyContains(n.region, x.box)
  {
    hide FullyContains;
    UpToFirst(n);
  }

  lemma LeafShrinks(n: Tree, m: Tree, cap: nat, maxDepth: nat, depth: nat)
    requires n.kids == [] && m.kids == [] && |m.items| <= |n.items|
    ensures Canonical(n, cap, maxDepth, depth) ==> Canonical(m, cap, maxDepth, depth)
  {
    hide Quadrant, Placed;
    UpToFirst(n);
    UpToFirst(m);
  }

  lemma PlacedWithout(n: Tree, k: nat)
    requires Placed(n) && k < |n.items|
    ensures Placed(Bare(n.region, n.items[..k] + n.items[k + 1..], n.kids))
  {
    hide Choose, Contents;
    assert forall x :: x in n.items[..k] + n.items[k + 1..] ==> x in n.items;
  }

  lemma ContentsWithout(n: Tree, k: nat)
    requires k < |n.items|
    ensures Contents(Bare(n.region, n.items[..k] + n.items[k + 1..], n.kids)) + multiset{n.items[k]} == Contents(n)
  {
    Sorting.WithoutOne(n.items, k);
  }

  lemma SmallerStaysInside(n: Tree, m: Tree)
    requires Inside(n) && m.region == n.region && Contents(m) <= Contents(n)
    requires (|m.kids| == 0 || |m.kids| == 4) && forall i :: 0 <= i < |m.kids| ==> Inside(m.kids[i])
    ensures Inside(m)
  {
    hide FullyContains, Contents;
    forall x | x in Contents(m) ensures FullyContains(m.region, x.box) {
      assert Contents(m)[x] <= Contents(n)[x];
    }
  }

  lemma LighterBelow(n: Tree, e: Entry, i: nat, k: Tree, cap: nat, maxDepth: nat, depth: nat)
    requires Inside(n) && |n.kids| == 4 && i < 4
    requires Contents(k) + multiset{e} == Contents(n.kids[i]) && Keeps(n.kids[i], k, cap, maxDepth, depth + 1) && Inside(k)
    ensures Lighter(n, Bare(n.region, n.items, n.kids[i := k]), e, cap, maxDepth, depth)
  {
    hide Choose, FullyContains, Quadrant, Contents, Inside, Tiled, Capped, Canonical, Placed;
    var m := Bare(n.region, n.items, n.kids[i := k]);
    assert n.depth == ();
    KidReplaced(n, n.region, i, k);
    Cancel(Contents(n), Contents(m), Contents(k), multiset{e});
    FourInside(n);
    SmallerStaysInside(n, m);
    TiledBelow(n, i, k);
    CappedBelow(n, i, k, cap, maxDepth, depth);
    if Canonical(n, cap, maxDepth, depth) {
      PlacedOfCanonical(n, cap, maxDepth, depth);
      KidsOfCanonical(n, cap, maxDepth, depth);
      PlacedShrunk(n, i, k);
    }
  }

  lemma KidsOfCanonical(n: Tree, cap: nat, maxDepth: nat, depth: nat)
    requires Canonical(n, cap, maxDepth, depth)
    ensures CanonicalKids(n, cap, maxDepth, depth)
  {
    hide Quadrant, Placed, Contents;
  }

  lemma PlacedShrunk(n: Tree, i: nat, k: Tree)
    requires Placed(n) && i < 4 && k.region == n.kids[i].region && Contents(k) <= Contents(n.kids[i])
    ensures Placed(Bare(n.region, n.items, n.kids[i := k]))
  {
    hide Choose, Contents;
    var kids := n.kids[i := k];
    forall x: Entry ensures Choose(kids, x.box, 0) == Choose(n.kids, x.box, 0) {
      SameChoice(kids, n.kids, x.box, 0);
    }
    forall x | x in Contents(k) ensures Choose(n.kids, x.box, 0) == i {
      assert Contents(k)[x] <= Contents(n.kids[i])[x];
    }
  }

  /** Collapsing what a removal left too light restores the canonical form: it undoes the split. */
  lemma CollapseKeeps(n: Tree, light: Tree, m: Tree, e: Entry, cap: nat, maxDepth: nat, depth: nat)
    requires Inside(n) && Lighter(n, light, e, cap, maxDepth, depth) && Collapsed(light, m, cap)
    ensures Contents(m) + multiset{e} == Contents(n) && Keeps(n, m, cap, maxDepth, depth) && Inside(m)
  {
    hide Choose, FullyContains, Quadrant, Contents, Placed;
    assert |Contents(m) + multiset{e}| == |Contents(m)| + 1;
    if m.kids == [] {
      assert m.depth == ();
      LeafContents(m.region, (), m.items);
      SmallerStaysInside(n, m);
    }
  }

  /** Removes the first entry with the id that a depth-first search meets, collapsing on the way back. */
  method RemoveNode(n: Tree, id: nat, cap: nat, ghost maxDepth: nat, ghost depth: nat)
    returns (found: bool, m: Tree, ghost e: Entry)
    requires Inside(n)
    ensures !found ==> m == n && forall x :: x in Contents(n) ==> x.id != id
    ensures found ==> e.id == id && Contents(m) + multiset{e} == Contents(n)
    ensures found ==> Keeps(n, m, cap, maxDepth, depth) && Inside(m)
    decreases n
  {
    hide Contents, Inside, UpTo, Keeps, Lighter, Collapsed;
    found, m, e := false, n, Entry(id, Box(0.0, 0.0, 0.0, 0.0));
    for i := 0 to |n.items|
      invariant forall j :: 0 <= j < i ==> n.items[j].id != id
    {
      if n.items[i].id == id {
        LighterHere(n, i, cap, maxDepth, depth);
        var light := Bare(n.region, n.items[..i] + n.items[i + 1..], n.kids);
        LighterInside(n, light, n.items[i], cap, maxDepth, depth);
        m := TryCollapse(light, cap);
        CollapseKeeps(n, light, m, n.items[i], cap, maxDepth, depth);
        return true, m, n.items[i];
      }
    }
    UpToFirst(n);
    if n.Leaf() { return; }
    FourInside(n);
    UpToAll(n);
    for i := 0 to 4
      invariant forall x :: x in UpTo(n, i) ==> x.id != id
    {
      UpToNext(n, i);
      var hit, kid, gone := RemoveNode(n.kids[i], id, cap, maxDepth, depth + 1);
      if hit {
        LighterBelow(n, gone, i, kid, cap, maxDepth, depth);
        var light := Bare(n.region, n.items, n.kids[i := kid]);
        LighterInside(n, light, gone, cap, maxDepth, depth);
        m := TryCollapse(light, cap);
        CollapseKeeps(n, light, m, gone, cap, maxDepth, depth);
        return true, m, gone;
      }
    }
  }

  lemma LighterInside(n: Tree, m: Tree, e: Entry, cap: nat, maxDepth: nat, depth: nat)
    requires Inside(n) && Lighter(n, m, e, cap, maxDepth, depth)
    ensures Inside(m)
  {
    hide Inside;
  }
}
