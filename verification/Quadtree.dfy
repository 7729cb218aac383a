/** The plain quadtree index: a root fitted to the data, grown by doubling when a box falls outside. */
module Quadtree {
  import opened Geometry
  import opened LinearScan
  import opened QuadNodes
  import opened QuadtreeNodes
  import opened RootGrowth

  /** Two per cent of the extent, and a little more so that a single point has an extent. */
  function Pad(lo: real, hi: real): real {
    (hi - lo) * 0.02 + 0.000001
  }

  function Padded(b: Box): Box {
    var lat, lon := Pad(b.minLat, b.maxLat), Pad(b.minLon, b.maxLon);
    Box(b.minLat - lat, b.minLon - lon, b.maxLat + lat, b.maxLon + lon)
  }

  ghost predicate ContainsAll(c: Box, items: seq<Entry>) {
    forall j :: 0 <= j < |items| ==> FullyContains(c, items[j].box)
  }

  /** The least box that contains all items. */
  ghost predicate Surrounds(extent: Box, items: seq<Entry>) {
    forall c: Box :: ContainsAll(c, items) <==> FullyContains(c, extent)
  }

  lemma SurroundsOne(items: seq<Entry>)
    requires items != []
    ensures Surrounds(items[0].box, items[..1])
  {
    hide FullyContains;
    assert items[..1] == [items[0]];
  }

  lemma SurroundsMore(extent: Box, items: seq<Entry>, i: nat)
    requires i < |items| && Surrounds(extent, items[..i])
    ensures Surrounds(Expand(extent, items[i].box), items[..i + 1])
  {
    hide FullyContains, Expand;
    forall c: Box ensures ContainsAll(c, items[..i + 1]) <==> FullyContains(c, Expand(extent, items[i].box)) {
      ExpandIsLeast(extent, items[i].box, c);
      assert ContainsAll(c, items[..i + 1]) <==> ContainsAll(c, items[..i]) && FullyContains(c, items[i].box) by {
        assert items[..i + 1] == items[..i] + [items[i]];
      }
    }
  }

  lemma SurroundsMeans(extent: Box, items: seq<Entry>)
    requires Surrounds(extent, items)
    ensures forall j :: 0 <= j < |items| ==> FullyContains(extent, items[j].box)
  {
    assert FullyContains(extent, extent);
    assert ContainsAll(extent, items);
  }

  /** The region is that box with its padding. */
  ghost predicate Fitted(region: Box, items: seq<Entry>) {
    exists extent :: Surrounds(extent, items) && region == Padded(extent)
  }

  /** The padding moves every side out by two per cent of the extent and a millionth; the centre stays. */
  lemma PaddingExact(b: Box)
    ensures var p := Padded(b);
            && Height(p) == 1.04 * Height(b) + 0.000002 && Width(p) == 1.04 * Width(b) + 0.000002
            && p.minLat + p.maxLat == b.minLat + b.maxLat && p.minLon + p.maxLon == b.minLon + b.maxLon
  {
  }

  class Index {
    var root: Tree
    var count: nat
    var rootWidened: bool
    const cap: nat
    const maxDepth: nat

    /** The root has been replaced or widened since it was last fitted to its data. */
    ghost var grown: bool

    ghost function Items(): multiset<Entry>
      reads this
    {
      Contents(root)
    }

    /**
     Every entry lies inside its node's region; no leaf above the maximum depth is overfull; children tile their
     parents unless the root was widened; and until the root first grows the tree is in canonical form.
     */
    ghost predicate Valid()
      reads this
    {
      && Inside(root) && HasExtent(root.region) && Capped(root, cap, maxDepth, 0)
      && (!rootWidened ==> Tiled(root)) && (!grown ==> Canonical(root, cap, maxDepth, 0)) && (rootWidened ==> grown)
      && count == |Items()| && cap >= 1
    }

    constructor (cap: nat, maxDepth: nat)
      ensures Valid() && Items() == multiset{} && !grown
      ensures this.cap == (if cap < 1 then 1 else cap) && this.maxDepth == maxDepth
    {
      this.cap, this.maxDepth := if cap < 1 then 1 else cap, maxDepth;
      root := Bare(Box(-90.0, -180.0, 90.0, 180.0), [], []);
      count, rootWidened, grown := 0, false, false;
    }

    /** Fits the root to the data and inserts the items one by one; nothing has to grow. */
    method Build(items: seq<Entry>)
      requires Valid() && forall i :: 0 <= i < |items| ==> WellFormed(items[i].box)
      modifies this
      ensures Valid() && Items() == multiset(items) && !grown
      ensures items != [] ==> Fitted(root.region, items)
    {
      hide Canonical, Capped, Tiled, Inside, Contents, Doublings, CanonicalAfterGrowth, Surrounds;
      count, rootWidened, grown := 0, false, false;
      if items == [] {
        root := Bare(Box(-90.0, -180.0, 90.0, 180.0), [], []);
        EmptyTree(root, cap, maxDepth);
        return;
      }
      var extent := items[0].box;
      SurroundsOne(items);
      for i := 1 to |items|
        invariant WellFormed(extent) && Surrounds(extent, items[..i]) && count == 0 && !rootWidened && !grown
      {
        SurroundsMore(extent, items, i);
        extent := Expand(extent, items[i].box);
      }
      assert items[..|items|] == items;
      root := Bare(Padded(extent), [], []);
      EmptyTree(root, cap, maxDepth);
      PaddedContains(extent);
      SurroundsMeans(extent, items);
      ghost var region := root.region;
      forall j | 0 <= j < |items| ensures FullyContains(region, items[j].box) {
      }
      for i := 0 to |items|
        invariant Valid() && Items() == multiset(items[..i]) && !grown && root.region == region
      {
        assert items[..i + 1] == items[..i] + [items[i]];
        Insert(items[i].id, items[i].box);
      }
      assert items[..|items|] == items;
    }

    method Insert(id: nat, box: Box)
      requires Valid()
      modifies this
      ensures Valid() && Items() == old(Items()) + multiset{Entry(id, box)}
      ensures FullyContains(old(root).region, box) ==>
                && root.region == old(root).region && grown == old(grown)
                && (Canonical(old(root), cap, maxDepth, 0) ==> Canonical(root, cap, maxDepth, 0))
      ensures !FullyContains(old(root).region, box) ==>
                exists k: nat :: Doublings(old(root), box, 64, k)
                  && (Canonical(root, cap, maxDepth, 0) <==> CanonicalAfterGrowth(old(root), box, k, cap, maxDepth))
    {
      hide Canonical, Capped, Tiled, Inside, Contents, FullyContains, Doublings, GrownTo, Descends, CanonicalAfterGrowth;
      ghost var before, k := root, 0;
      ghost var grows := !FullyContains(root.region, box);
      if !FullyContains(root.region, box) {
        var wide, widened;
        wide, widened, k := ExpandRootToCover(root, box, cap, maxDepth);
        root, grown := wide, true;
        if widened { rootWidened := true; }
      }
      ghost var was := root;
      var n := InsertInto(root, Entry(id, box), cap, maxDepth, 0);
      InsertKeeps(was, n, Entry(id, box), cap, maxDepth);
      if grows {
        GrowthIsCanonical(before, Entry(id, box), k, was, n, cap, maxDepth);
      }
      root := n;
      count := count + 1;
    }

    /** Removes the first entry with the id that the search meets. */
    method Remove(id: nat) returns (found: bool)
      requires Valid()
      modifies this
      ensures Valid() && grown == old(grown) && root.region == old(root).region
      ensures !found ==> root == old(root) && forall x :: x in Items() ==> x.id != id
      ensures found ==> exists e: Entry :: e.id == id && Items() + multiset{e} == old(Items())
    {
      hide Canonical, Capped, Tiled, Inside, Contents;
      var hit, n, e := RemoveNode(root, id, cap, maxDepth, 0);
      if !hit { return false; }
      assert |Contents(n) + multiset{e}| == |Contents(n)| + 1;
      root, count := n, count - 1;
      found := true;
    }

    /** Appends what a linear scan of the stored entries, in any order, would: each match as often as it is stored. */
    method Query(q: Box, out: seq<nat>) returns (out': seq<nat>)
      requires Valid()
      ensures forall items :: multiset(items) == Items() ==>
                multiset(out') == multiset(out) + multiset(Ids(Filter(items, q)))
    {
      hide Canonical, Capped, Tiled, Inside, Ids, Contents, QuadNodes.Query, Filter, Intersects;
      out' := QueryNode(root, q, out);
      forall x: Entry
        ensures multiset(QuadNodes.Query(root, q))[x] == if Intersects(x.box, q) then Items()[x] else 0
      {
        QueryExact(root, q, x);
      }
      forall items | multiset(items) == Items()
        ensures multiset(out') == multiset(out) + multiset(Ids(Filter(items, q)))
      {
        AgreesWithScan(QuadNodes.Query(root, q), items, q);
      }
    }
  }

  /** Two histories that end with the same entries under the same root region leave the same tree. */
  lemma HistoryIndependent(a: Index, b: Index)
    requires a.Valid() && b.Valid() && !a.grown && !b.grown
    requires a.cap == b.cap && a.maxDepth == b.maxDepth && a.root.region == b.root.region && a.Items() == b.Items()
    ensures SameTree(a.root, b.root)
  {
    CanonicalUnique(a.root, b.root, a.cap, a.maxDepth, 0);
  }

  /** A tree has the shape of a canonical tree over the same region and entries exactly when it is canonical itself. */
  lemma FreshShape(root: Tree, built: Tree, cap: nat, maxDepth: nat)
    requires Canonical(built, cap, maxDepth, 0) && root.region == built.region && Contents(root) == Contents(built)
    requires Inside(root)
    ensures SameTree(root, built) <==> Canonical(root, cap, maxDepth, 0)
  {
    hide Canonical, Contents, Inside;
    if Canonical(root, cap, maxDepth, 0) {
      CanonicalUnique(root, built, cap, maxDepth, 0);
    }
    if SameTree(root, built) {
      SameTreeCanonical(root, built, cap, maxDepth, 0);
    }
  }

  lemma EmptyTree(n: Tree, cap: nat, maxDepth: nat)
    requires n.items == [] && n.kids == []
    ensures Inside(n) && Tiled(n) && Capped(n, cap, maxDepth, 0) && Canonical(n, cap, maxDepth, 0) && Contents(n) == multiset{}
  {
  }

  lemma PaddedContains(extent: Box)
    requires WellFormed(extent)
    ensures HasExtent(Padded(extent))
    ensures forall b :: FullyContains(extent, b) ==> FullyContains(Padded(extent), b)
  {
  }

  lemma InsertKeeps(n: Tree, m: Tree, e: Entry, cap: nat, maxDepth: nat)
    requires Inside(n) && FullyContains(n.region, e.box) && Contents(m) == Contents(n) + multiset{e}
    requires Keeps(n, m, cap, maxDepth, 0)
    ensures Inside(m) && |Contents(m)| == |Contents(n)| + 1
  {
    hide Contents, FullyContains, Tiled, Capped, Canonical;
    assert Inside(n) ==> forall x :: x in Contents(n) ==> FullyContains(n.region, x.box);
  }
}
