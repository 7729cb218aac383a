/**
 What growth leaves behind in the quadtree: when doublings show in the shape, and what a widened root does to the
 tiling, with inputs that reach both.
 */
module QuadtreeTraces {
  import opened Geometry
  import opened LinearScan
  import opened PowersOfTwo
  import opened QuadNodes
  import opened QuadtreeNodes
  import opened RootGrowth

  // ------------------------------------------------------------------------------------------ tiling

  /** A doubling repairs nothing and breaks nothing: the new root tiles exactly when the old one did. */
  lemma DoublingTilesExactly(small: Tree, grown: Tree)
    requires Doubles(small, grown) && Inside(small) && HasExtent(small.region)
    ensures Tiled(grown) <==> Tiled(small)
  {
    hide Tiled, Doubles;
    DoublingKeeps(small, grown, 0, 0);
  }

  /** A widened root tiles exactly when it has no children, or the box was inside all the same. */
  lemma WideningTiles(n: Tree, box: Box)
    requires Tiled(n)
    ensures Tiled(Bare(Expand(n.region, box), n.items, n.kids)) <==> n.kids == [] || Expand(n.region, box) == n.region
  {
    hide Quadrant;
    QuadrantFixes(Expand(n.region, box), n.region);
  }

  /** Once a divided root was widened, each later doubling leaves the gap one level further below the root. */
  lemma {:induction false} GapMovesDown(n: Tree, box: Box, next: Box, k: nat)
    requires Tiled(n) && n.kids != [] && !FullyContains(n.region, box) && Inside(n) && HasExtent(n.region)
    ensures var w := Bare(Expand(n.region, box), n.items, n.kids);
            Inside(w) && HasExtent(w.region) && !Tiled(GrownTo(w, next, k))
  {
    hide Tiled, Inside, Doubles, Doubled;
    var w := Bare(Expand(n.region, box), n.items, n.kids);
    WidenKeeps(n, box, 0, 0);
    WideningTiles(n, box);
    if k > 0 {
      GapMovesDown(n, box, next, k - 1);
      var small := GrownTo(w, next, k - 1);
      GrownToKeeps(w, next, k - 1);
      DoubledDoubles(small, next);
      DoublingTilesExactly(small, Doubled(small, next));
    }
  }

  /** A unit root and a box far to the north-east: too far for 64 doublings. */
  function UnitRoot(): Tree {
    Bare(Box(0.0, 0.0, 1.0, 1.0), [], [])
  }

  function FarBox(): Box {
    var d := Pow2(65) as real;
    Box(d, d, d + 1.0, d + 1.0)
  }

  lemma {:induction false} GrowsNorthEast(k: nat)
    requires k <= 65
    ensures GrownTo(UnitRoot(), FarBox(), k).region == Box(0.0, 0.0, Pow2(k) as real, Pow2(k) as real)
  {
    hide Doubled, Pow2, FarBox;
    if k == 0 {
      PowZero();
    } else {
      GrowsNorthEast(k - 1);
      Pow2Monotone(k - 1, 65);
      PowNext(k - 1);
      FarBoxBeyond();
      NorthEastStep(GrownTo(UnitRoot(), FarBox(), k - 1), Pow2(k - 1) as real, FarBox());
    }
  }

  lemma FarBoxBeyond()
    ensures FarBox().maxLat > Pow2(65) as real && FarBox().maxLon > Pow2(65) as real
  {
    hide Pow2;
  }

  lemma NorthEastStep(small: Tree, side: real, box: Box)
    requires small.region == Box(0.0, 0.0, side, side) && box.maxLat > side && box.maxLon > side
    ensures Doubled(small, box).region == Box(0.0, 0.0, 2.0 * side, 2.0 * side)
  {
    hide Doubled;
  }

  lemma PowZero()
    ensures Pow2(0) == 1
  {
  }

  lemma PowNext(k: nat)
    ensures Pow2(k + 1) == 2 * Pow2(k)
  {
  }

  /** That box is out of reach for k = 64 doublings. */
  lemma FarBoxWidens(k: nat)
    requires k == 64
    ensures Doublings(UnitRoot(), FarBox(), k, k) && !FullyContains(GrownTo(UnitRoot(), FarBox(), k).region, FarBox())
  {
    hide Pow2, GrownTo;
    forall j: nat | j <= k ensures !FullyContains(GrownTo(UnitRoot(), FarBox(), j).region, FarBox()) {
      GrowsNorthEast(j);
      Pow2Monotone(j, 65);
    }
  }

  /** So its insertion widens a divided root, and the doubling that the next far box causes puts the gap below the new
      root, where the tiling is still expected. */
  lemma WidenedThenDoubled(next: Box, k: nat, last: Tree, widened: Tree)
    requires k == 64 && last == GrownTo(UnitRoot(), FarBox(), k)
    requires widened == Bare(Expand(last.region, FarBox()), last.items, last.kids)
    ensures Doublings(UnitRoot(), FarBox(), k, k) && !FullyContains(last.region, FarBox())
    ensures !Tiled(widened) && !Tiled(Doubled(widened, next))
    ensures |Doubled(widened, next).kids| == 4 && Doubled(widened, next).kids[Slot(widened.region, next)] == widened
  {
    hide Tiled, Inside, Doubled, Pow2, GrownTo, FarBox, UnitRoot, Doublings, FullyContains, Expand, Slot;
    FarBoxWidens(k);
    UnitInside();
    GrownToKeeps(UnitRoot(), FarBox(), k);
    GrownToTiled(UnitRoot(), FarBox(), k);
    LastStep(UnitRoot(), FarBox(), k);
    Divided(GrownTo(UnitRoot(), FarBox(), k - 1), FarBox());
    GapMovesDown(last, FarBox(), next, 0);
    GapMovesDown(last, FarBox(), next, 1);
    LastStep(widened, next, 1);
    OldRootKept(widened, next);
  }

  lemma LastStep(root: Tree, box: Box, k: nat)
    requires k > 0
    ensures GrownTo(root, box, k) == Doubled(GrownTo(root, box, k - 1), box) && GrownTo(root, box, 0) == root
  {
    hide Doubled;
  }

  lemma Divided(n: Tree, box: Box)
    ensures |Doubled(n, box).kids| == 4
  {
  }

  lemma OldRootKept(n: Tree, box: Box)
    ensures |Doubled(n, box).kids| == 4 && Doubled(n, box).kids[Slot(n.region, box)] == n
  {
  }

  lemma UnitInside()
    ensures Inside(UnitRoot()) && HasExtent(UnitRoot().region) && Tiled(UnitRoot())
  {
  }

  lemma {:induction false} GrownToTiled(root: Tree, box: Box, k: nat)
    requires Inside(root) && HasExtent(root.region) && Tiled(root)
    ensures Tiled(GrownTo(root, box, k))
  {
    hide Tiled, Inside, Doubled, Doubles;
    if k > 0 {
      GrownToTiled(root, box, k - 1);
      GrownToKeeps(root, box, k - 1);
      DoubledDoubles(GrownTo(root, box, k - 1), box);
      DoublingTilesExactly(GrownTo(root, box, k - 1), Doubled(GrownTo(root, box, k - 1), box));
    }
  }

  // ------------------------------------------------------------------------------------------- shape

  /** A root that is not full shows its growth: the tree m after the insertion is not canonical. */
  lemma SparseGrowthShows(root: Tree, e: Entry, k: nat, wide: Tree, m: Tree, cap: nat, maxDepth: nat)
    requires Inside(root) && HasExtent(root.region) && !FullyContains(root.region, e.box) && |Contents(root)| < cap
    requires Doublings(root, e.box, 64, k)
    requires var last := GrownTo(root, e.box, k);
             wide == if FullyContains(last.region, e.box) then last
                     else Bare(Expand(last.region, e.box), last.items, last.kids)
    requires |wide.kids| == 4 ==> Descends(wide, e, m, cap, maxDepth, 0)
    requires Contents(m) == Contents(wide) + multiset{e}
    ensures !Canonical(m, cap, maxDepth, 0)
  {
    hide Inside, Contents, Canonical, GrownTo, Doublings, FullyContains, Descends;
    GrowthIsCanonical(root, e, k, wide, m, cap, maxDepth);
  }

  /** A full root may grow without a trace: one entry in the unit square, and a box that takes one doubling. */
  lemma FullGrowthMayNotShow(e: Entry, box: Box)
    requires e.box == Box(0.2, 0.2, 0.3, 0.3) && box == Box(1.5, 1.5, 1.6, 1.6)
    ensures var root := Bare(Box(0.0, 0.0, 1.0, 1.0), [e], []);
            Doublings(root, box, 64, 1) && CanonicalAfterGrowth(root, box, 1, 1, 5)
  {
    hide Placed;
    var root := Bare(Box(0.0, 0.0, 1.0, 1.0), [e], []);
    assert GrownTo(root, box, 0) == root;
    assert GrownTo(root, box, 1) == Doubled(root, box);
    assert Contents(root) == multiset(root.items);
    assert Slot(root.region, box) == 0;
  }
}
