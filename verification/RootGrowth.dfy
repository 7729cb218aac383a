/** Growing the root of the quadtree: by doublings that keep the old root as one quadrant, or by widening it. */
module RootGrowth {
  import opened Geometry
  import opened LinearScan
  import opened PowersOfTwo
  import opened QuadNodes
  import opened QuadtreeNodes

  function Height(r: Box): real {
    r.maxLat - r.minLat
  }

  function Width(r: Box): real {
    r.maxLon - r.minLon
  }

  predicate HasExtent(r: Box) {
    Height(r) > 0.0 && Width(r) > 0.0
  }

  // ---------------------------------------------------------------------------------------- doubling

  /** Grow north when the box overflows north, or does not overflow south; east likewise. */
  predicate North(r: Box, box: Box) {
    box.maxLat > r.maxLat || !(box.minLat < r.minLat)
  }

  predicate East(r: Box, box: Box) {
    box.maxLon > r.maxLon || !(box.minLon < r.minLon)
  }

  function DoubledRegion(r: Box, box: Box): Box {
    Box(if North(r, box) then r.minLat else r.minLat - Height(r),
        if East(r, box) then r.minLon else r.minLon - Width(r),
        if North(r, box) then r.maxLat + Height(r) else r.maxLat,
        if East(r, box) then r.maxLon + Width(r) else r.maxLon)
  }

  /** The quadrant of the new root that is the old root. */
  function Slot(r: Box, box: Box): (slot: nat)
    ensures slot < 4
  {
    (if North(r, box) then 0 else 2) + (if East(r, box) then 0 else 1)
  }

  /** The root one doubling later: the old root in its quadrant, the other three empty. */
  function Doubled(root: Tree, box: Box): (grown: Tree)
    ensures grown.region == DoubledRegion(root.region, box)
  {
    var region := DoubledRegion(root.region, box);
    Bare(region, [], Subdivided(region)[Slot(root.region, box) := root])
  }

  /** The larger root has the smaller as quadrant slot, doubles both extents, and holds nothing else. */
  ghost predicate DoublesAt(small: Tree, grown: Tree, slot: nat) {
    && grown.items == [] && |grown.kids| == 4 && slot < 4
    && grown.kids[slot] == small && small.region == Quadrant(grown.region, slot)
    && (forall i :: 0 <= i < 4 && i != slot ==> grown.kids[i] == Bare(Quadrant(grown.region, i), [], []))
    && Height(grown.region) == 2.0 * Height(small.region) && Width(grown.region) == 2.0 * Width(small.region)
  }

  ghost predicate Doubles(small: Tree, grown: Tree) {
    exists slot: nat :: DoublesAt(small, grown, slot)
  }

  method DoubleRoot(root: Tree, box: Box) returns (grown: Tree)
    ensures grown == Doubled(root, box)
    ensures DoublesAt(root, grown, Slot(root.region, box))
  {
    var r := root.region;
    var h, w := r.maxLat - r.minLat, r.maxLon - r.minLon;
    var north := box.maxLat > r.maxLat || !(box.minLat < r.minLat);
    var east := box.maxLon > r.maxLon || !(box.minLon < r.minLon);
    var region := Box(if north then r.minLat else r.minLat - h, if east then r.minLon else r.minLon - w,
                      if north then r.maxLat + h else r.maxLat, if east then r.maxLon + w else r.maxLon);
    var slot := (if north then 0 else 2) + (if east then 0 else 1);
    grown := Bare(region, [], Subdivided(region)[slot := root]);
    DoubledDoubles(root, box);
  }

  lemma DoubledDoubles(root: Tree, box: Box)
    ensures DoublesAt(root, Doubled(root, box), Slot(root.region, box)) && Doubles(root, Doubled(root, box))
  {
    hide Quadrant;
    OldRootIsQuadrant(root.region, box);
    var grown := Doubled(root, box);
    assert grown.kids[Slot(root.region, box)] == root;
    TwiceTheSize(root.region, box);
  }

  lemma TwiceTheSize(r: Box, box: Box)
    ensures var d := DoubledRegion(r, box); Height(d) == 2.0 * Height(r) && Width(d) == 2.0 * Width(r)
  {
  }

  lemma OldRootIsQuadrant(r: Box, box: Box)
    ensures r == Quadrant(DoubledRegion(r, box), Slot(r, box))
  {
  }

  /** A doubled root keeps the entries and the invariants that do not depend on its depth. */
  lemma DoublingKeeps(small: Tree, grown: Tree, cap: nat, maxDepth: nat)
    requires Doubles(small, grown) && Inside(small) && HasExtent(small.region)
    ensures Contents(grown) == Contents(small) && Inside(grown) && HasExtent(grown.region)
    ensures Tiled(small) <==> Tiled(grown)
    ensures Capped(small, cap, maxDepth, 0) ==> Capped(grown, cap, maxDepth, 0)
  {
    hide Inside, Tiled, Capped, Quadrant;
    var slot: nat :| DoublesAt(small, grown, slot);
    forall i | 0 <= i < 4 && i != slot ensures EmptyLeaf(grown.kids[i]) {
    }
    DoublingContents(small, grown, slot);
    DoublingInside(small, grown, slot);
    DoublingTiles(small, grown, slot, cap, maxDepth);
  }

  ghost predicate EmptyLeaf(n: Tree) {
    n.items == [] && n.kids == []
  }

  lemma DoublingContents(small: Tree, grown: Tree, slot: nat)
    requires grown.items == [] && |grown.kids| == 4 && slot < 4 && grown.kids[slot] == small
    requires forall i :: 0 <= i < 4 && i != slot ==> EmptyLeaf(grown.kids[i])
    ensures Contents(grown) == Contents(small)
  {
    hide Contents;
    FourParts(grown);
    forall i | 0 <= i < 4 && i != slot ensures Contents(grown.kids[i]) == multiset{} {
      UpToFirst(grown.kids[i]);
      assert EmptyLeaf(grown.kids[i]);
    }
  }

  lemma DoublingInside(small: Tree, grown: Tree, slot: nat)
    requires grown.items == [] && |grown.kids| == 4 && slot < 4 && grown.kids[slot] == small && Inside(small)
    requires forall i :: 0 <= i < 4 && i != slot ==> EmptyLeaf(grown.kids[i])
    requires Contents(grown) == Contents(small) && HasExtent(small.region)
    requires small.region == Quadrant(grown.region, slot)
    requires Height(grown.region) == 2.0 * Height(small.region) && Width(grown.region) == 2.0 * Width(small.region)
    ensures Inside(grown) && HasExtent(grown.region)
  {
    hide Contents;
    forall i | 0 <= i < 4 ensures Inside(grown.kids[i]) {
      if i != slot {
        UpToFirst(grown.kids[i]);
        assert EmptyLeaf(grown.kids[i]);
      }
    }
    assert FullyContains(grown.region, small.region);
    forall x | x in Contents(grown) ensures FullyContains(grown.region, x.box) {
      assert FullyContains(small.region, x.box);
    }
  }

  lemma DoublingTiles(small: Tree, grown: Tree, slot: nat, cap: nat, maxDepth: nat)
    requires |grown.kids| == 4 && slot < 4 && grown.kids[slot] == small && small.region == Quadrant(grown.region, slot)
    requires forall i :: 0 <= i < 4 && i != slot ==> grown.kids[i] == Bare(Quadrant(grown.region, i), [], [])
    ensures Tiled(small) <==> Tiled(grown)
    ensures Capped(small, cap, maxDepth, 0) ==> Capped(grown, cap, maxDepth, 0)
  {
    hide Quadrant;
    if Capped(small, cap, maxDepth, 0) {
      CappedDeeper(small, cap, maxDepth, 0);
    }
  }

  lemma {:induction false} CappedDeeper(n: Tree, cap: nat, maxDepth: nat, depth: nat)
    requires Capped(n, cap, maxDepth, depth)
    ensures Capped(n, cap, maxDepth, depth + 1)
    decreases n
  {
    forall i | 0 <= i < |n.kids| ensures Capped(n.kids[i], cap, maxDepth, depth + 2) {
      CappedDeeper(n.kids[i], cap, maxDepth, depth + 1);
    }
  }

  // ---------------------------------------------------------------------------- how far doubling reaches

  function Positive(x: real): real {
    if x > 0.0 then x else 0.0
  }

  /** What an axis must have grown to once the box is covered along it. */
  function Reach(lo: real, hi: real, boxLo: real, boxHi: real): real {
    2.0 * (Positive(boxHi - hi) + (hi - lo)) + Positive(lo - boxLo)
  }

  /** After j doublings the box may still be out of reach along some axis. */
  ghost predicate Beyond(r: Box, box: Box, j: nat) {
    || Height(r) * (Pow2(j) as real) < Reach(r.minLat, r.maxLat, box.minLat, box.maxLat)
    || Width(r) * (Pow2(j) as real) < Reach(r.minLon, r.maxLon, box.minLon, box.maxLon)
  }

  /** How far one axis has grown from [lo, hi] to [curLo, curHi]: up first, down only when that side is covered. */
  ghost predicate AxisGrown(lo: real, hi: real, boxLo: real, boxHi: real, curLo: real, curHi: real) {
    && lo < hi && curLo <= lo && hi <= curHi
    && ((boxLo >= curLo && boxHi <= curHi)
        || (curHi - lo <= 2.0 * (Positive(boxHi - hi) + (hi - lo)) && (boxHi > curHi ==> curLo == lo)))
  }

  ghost predicate Grown(r: Box, box: Box, cur: Box) {
    && AxisGrown(r.minLat, r.maxLat, box.minLat, box.maxLat, cur.minLat, cur.maxLat)
    && AxisGrown(r.minLon, r.maxLon, box.minLon, box.maxLon, cur.minLon, cur.maxLon)
  }

  lemma GrowStep(r: Box, box: Box, cur: Box)
    requires Grown(r, box, cur)
    ensures Grown(r, box, DoubledRegion(cur, box))
  {
  }

  ghost predicate SizeAfter(r: Box, cur: Box, j: nat) {
    Height(cur) == Height(r) * (Pow2(j) as real) && Width(cur) == Width(r) * (Pow2(j) as real)
  }

  lemma StillBeyond(r: Box, box: Box, cur: Box, j: nat)
    requires Grown(r, box, cur) && SizeAfter(r, cur, j) && !FullyContains(cur, box)
    ensures Beyond(r, box, j)
  {
  }

  /** The root after k doublings towards the box. */
  function GrownTo(root: Tree, box: Box, k: nat): Tree {
    if k == 0 then root else Doubled(GrownTo(root, box, k - 1), box)
  }

  /** How many doublings it takes to cover the box, at most the limit: all smaller roots do not cover it. */
  ghost predicate Doublings(root: Tree, box: Box, limit: nat, k: nat) {
    && k <= limit && (forall j :: 0 <= j < k ==> !FullyContains(GrownTo(root, box, j).region, box))
    && (k == limit || FullyContains(GrownTo(root, box, k).region, box))
  }

  /** Grows the root by at most 64 doublings; widens it in place if the box is still outside. */
  method ExpandRootToCover(root: Tree, box: Box, ghost cap: nat, ghost maxDepth: nat)
    returns (grown: Tree, widened: bool, ghost k: nat)
    requires Inside(root) && HasExtent(root.region)
    ensures Contents(grown) == Contents(root) && Inside(grown) && HasExtent(grown.region) && FullyContains(grown.region, box)
    ensures Capped(root, cap, maxDepth, 0) ==> Capped(grown, cap, maxDepth, 0)
    ensures Tiled(root) && !widened ==> Tiled(grown)
    ensures Doublings(root, box, 64, k) && widened == !FullyContains(GrownTo(root, box, k).region, box)
    ensures var last := GrownTo(root, box, k);
            grown == if widened then Bare(Expand(last.region, box), last.items, last.kids) else last
    ensures widened ==> k == 64 && Beyond(root.region, box, 64)
    ensures k > 0 ==> Beyond(root.region, box, k - 1)
  {
    hide Inside, Tiled, Capped, Contents, Doubles, DoublesAt, Doubled, DoubledRegion, Grown, Beyond;
    grown, k, widened := root, 0, false;
    StartGrown(root.region, box);
    var guard := 0;
    while !FullyContains(grown.region, box) && guard < 64
      invariant k == guard <= 64 && grown == GrownTo(root, box, k)
      invariant forall j :: 0 <= j < k ==> !FullyContains(GrownTo(root, box, j).region, box)
      invariant Contents(grown) == Contents(root) && Inside(grown) && HasExtent(grown.region)
      invariant Capped(root, cap, maxDepth, 0) ==> Capped(grown, cap, maxDepth, 0)
      invariant Tiled(root) ==> Tiled(grown)
      invariant Grown(root.region, box, grown.region) && SizeAfter(root.region, grown.region, guard)
      invariant guard > 0 ==> Beyond(root.region, box, guard - 1)
    {
      StillBeyond(root.region, box, grown.region, guard);
      GrowStep(root.region, box, grown.region);
      DoubledDoubles(grown, box);
      var next := DoubleRoot(grown, box);
      DoublingKeeps(grown, next, cap, maxDepth);
      SizeDoubled(root.region, grown, next, guard);
      grown, guard, k := next, guard + 1, k + 1;
    }
    if !FullyContains(grown.region, box) {
      StillBeyond(root.region, box, grown.region, guard);
      WidenKeeps(grown, box, cap, maxDepth);
      grown := Bare(Expand(grown.region, box), grown.items, grown.kids);
      widened := true;
    }
  }

  lemma StartGrown(r: Box, box: Box)
    requires HasExtent(r)
    ensures Grown(r, box, r) && SizeAfter(r, r, 0)
  {
  }

  lemma SizeDoubled(r: Box, small: Tree, grown: Tree, j: nat)
    requires SizeAfter(r, small.region, j) && Doubles(small, grown)
    ensures SizeAfter(r, grown.region, j + 1)
  {
    hide Quadrant;
    TwiceAsFar(Height(r), j);
    TwiceAsFar(Width(r), j);
  }

  lemma TwiceAsFar(h: real, j: nat)
    ensures h * (Pow2(j + 1) as real) == 2.0 * (h * (Pow2(j) as real))
  {
    assert Pow2(j + 1) as real == 2.0 * (Pow2(j) as real);
  }

  lemma WidenKeeps(n: Tree, box: Box, cap: nat, maxDepth: nat)
    requires Inside(n) && HasExtent(n.region)
    ensures var m := Bare(Expand(n.region, box), n.items, n.kids);
            && Contents(m) == Contents(n) && Inside(m) && HasExtent(m.region) && FullyContains(m.region, box)
            && (Capped(n, cap, maxDepth, 0) ==> Capped(m, cap, maxDepth, 0))
  {
    hide Contents, FullyContains, Expand, HasExtent;
    var m := Bare(Expand(n.region, box), n.items, n.kids);
    SameContents(n, m);
    ExpandedHolds(n.region, box);
    forall e | e in Contents(m) ensures FullyContains(m.region, e.box) {
      assert FullyContains(n.region, e.box);
    }
  }

  lemma SameContents(n: Tree, m: Tree)
    requires n.items == m.items && n.kids == m.kids
    ensures Contents(n) == Contents(m)
  {
  }

  lemma ExpandedHolds(r: Box, box: Box)
    ensures var e := Expand(r, box);
            && FullyContains(e, box) && (HasExtent(r) ==> HasExtent(e))
            && forall b: Box :: FullyContains(r, b) ==> FullyContains(e, b)
  {
  }

  // ------------------------------------------------------------- when a grown tree is still canonical

  lemma {:induction false} GrownToKeeps(root: Tree, box: Box, k: nat)
    requires Inside(root) && HasExtent(root.region)
    ensures var g := GrownTo(root, box, k); Contents(g) == Contents(root) && Inside(g) && HasExtent(g.region)
  {
    hide Inside, Contents, Doubled;
    if k > 0 {
      GrownToKeeps(root, box, k - 1);
      var small := GrownTo(root, box, k - 1);
      DoubledDoubles(small, box);
      DoublingKeeps(small, Doubled(small, box), 0, 0);
    }
  }

  /** No entry of the old root would be sent to an earlier quadrant: none is flat on a shared edge. */
  ghost predicate Unambiguous(small: Tree, grown: Tree, slot: nat) {
    forall e, i :: e in Contents(small) && 0 <= i < slot ==> !FullyContains(Quadrant(grown.region, i), e.box)
  }

  lemma ChooseSlot(small: Tree, grown: Tree, slot: nat, box: Box)
    requires DoublesAt(small, grown, slot) && FullyContains(small.region, box)
    ensures Choose(grown.kids, box, 0) <= slot
    ensures Choose(grown.kids, box, 0) == slot <==> forall i :: 0 <= i < slot ==> !FullyContains(Quadrant(grown.region, i), box)
  {
    hide FullyContains, Quadrant;
    KidRegions(small, grown, slot);
    ChooseFirst(grown.kids, box, 0, slot);
  }

  lemma KidRegions(small: Tree, grown: Tree, slot: nat)
    requires DoublesAt(small, grown, slot)
    ensures forall i :: 0 <= i < 4 ==> grown.kids[i].region == Quadrant(grown.region, i)
    ensures forall i :: 0 <= i < 4 && i != slot ==> EmptyLeaf(grown.kids[i])
  {
    hide Quadrant;
  }

  lemma {:induction false} ChooseFirst(kids: seq<Tree>, box: Box, i: nat, slot: nat)
    requires i <= slot < |kids| && FullyContains(kids[slot].region, box)
    ensures Choose(kids, box, i) <= slot
    ensures Choose(kids, box, i) == slot <==> forall j :: i <= j < slot ==> !FullyContains(kids[j].region, box)
    decreases slot - i
  {
    hide FullyContains;
    if i < slot {
      ChooseFirst(kids, box, i + 1, slot);
    }
  }

  /** A doubled root places its entries properly exactly when none of them would be sent to an earlier quadrant. */
  lemma DoublingPlaced(small: Tree, grown: Tree, slot: nat)
    requires DoublesAt(small, grown, slot) && Inside(small)
    ensures Placed(grown) <==> Unambiguous(small, grown, slot)
  {
    hide FullyContains, Quadrant, Choose, Contents;
    KidRegions(small, grown, slot);
    forall i | 0 <= i < 4 && i != slot ensures Contents(grown.kids[i]) == multiset{} {
      UpToFirst(grown.kids[i]);
      assert EmptyLeaf(grown.kids[i]);
    }
    forall e | e in Contents(small)
      ensures Choose(grown.kids, e.box, 0) == slot <==>
              forall i :: 0 <= i < slot ==> !FullyContains(Quadrant(grown.region, i), e.box)
    {
      InsideRoot(small, e);
      ChooseSlot(small, grown, slot, e.box);
    }
  }

  lemma InsideRoot(n: Tree, e: Entry)
    requires Inside(n) && e in Contents(n)
    ensures FullyContains(n.region, e.box)
  {
    hide FullyContains, Contents;
  }

  /**
   When a doubling leaves a canonical tree: exactly when the old root holds more than one node may, there is a level
   left for it, it is canonical one level deeper, and none of its entries fits an earlier quadrant.
   */
  lemma DoublingCanonical(small: Tree, grown: Tree, slot: nat, cap: nat, maxDepth: nat, depth: nat)
    requires DoublesAt(small, grown, slot) && Inside(small) && HasExtent(small.region)
    ensures Canonical(grown, cap, maxDepth, depth) <==>
              && |Contents(small)| > cap && depth < maxDepth && Canonical(small, cap, maxDepth, depth + 1)
              && Unambiguous(small, grown, slot)
  {
    hide Inside, Contents, Quadrant, Placed, Unambiguous, FullyContains;
    DoublingPlaced(small, grown, slot);
    KidRegions(small, grown, slot);
    DoublingContents(small, grown, slot);
    EmptyKidsCanonical(small, grown, slot, cap, maxDepth, depth);
  }

  lemma EmptyKidsCanonical(small: Tree, grown: Tree, slot: nat, cap: nat, maxDepth: nat, depth: nat)
    requires DoublesAt(small, grown, slot)
    ensures forall i :: 0 <= i < 4 && i != slot ==> Canonical(grown.kids[i], cap, maxDepth, depth + 1)
  {
    hide Quadrant, Placed;
    forall i | 0 <= i < 4 && i != slot ensures Canonical(grown.kids[i], cap, maxDepth, depth + 1) {
      EmptyCanonical(grown.kids[i], cap, maxDepth, depth + 1);
    }
  }

  lemma EmptyCanonical(n: Tree, cap: nat, maxDepth: nat, depth: nat)
    requires EmptyLeaf(n)
    ensures Canonical(n, cap, maxDepth, depth) && Contents(n) == multiset{}
  {
    hide Quadrant, Placed;
    UpToFirst(n);
  }

  /** No doubling on the way to k sends an entry to an earlier quadrant. */
  ghost predicate UnambiguousUpTo(root: Tree, box: Box, k: nat) {
    forall j: nat :: j < k ==>
      var small := GrownTo(root, box, j);
      Unambiguous(small, Doubled(small, box), Slot(small.region, box))
  }

  /** When k doublings leave a canonical tree. */
  lemma {:induction false} GrownCanonical(root: Tree, box: Box, k: nat, cap: nat, maxDepth: nat, depth: nat)
    requires Inside(root) && HasExtent(root.region)
    ensures Canonical(GrownTo(root, box, k), cap, maxDepth, depth) <==>
              && Canonical(root, cap, maxDepth, depth + k)
              && (k > 0 ==> |Contents(root)| > cap && depth + k - 1 < maxDepth && UnambiguousUpTo(root, box, k))
  {
    hide Inside, Contents, Canonical, Doubled, Unambiguous;
    if k > 0 {
      var small := GrownTo(root, box, k - 1);
      GrownToKeeps(root, box, k - 1);
      DoubledDoubles(small, box);
      DoublingCanonical(small, Doubled(small, box), Slot(small.region, box), cap, maxDepth, depth);
      GrownCanonical(root, box, k - 1, cap, maxDepth, depth + 1);
    }
  }

  // --------------------------------------------------------------- the insertion that caused the growth

  /** The new entry, which the old root does not cover, goes to another quadrant or stays at the root. */
  lemma NotIntoOldRoot(small: Tree, grown: Tree, slot: nat, box: Box)
    requires DoublesAt(small, grown, slot) && !FullyContains(small.region, box)
    ensures Choose(grown.kids, box, 0) != slot
  {
    hide Quadrant;
    if Choose(grown.kids, box, 0) == slot {
      ChosenContains(grown.kids, box, 0);
    }
  }

  /** When the doubled root is canonical once the entry that caused the doubling is stored. */
  lemma InsertionCanonical(small: Tree, grown: Tree, slot: nat, e: Entry, m: Tree, cap: nat, maxDepth: nat)
    requires DoublesAt(small, grown, slot) && Inside(small) && HasExtent(small.region)
    requires !FullyContains(small.region, e.box)
    requires Descends(grown, e, m, cap, maxDepth, 0) && Contents(m) == Contents(grown) + multiset{e}
    ensures Canonical(m, cap, maxDepth, 0) <==>
              && |Contents(small)| >= cap && 0 < maxDepth && Canonical(small, cap, maxDepth, 1)
              && Unambiguous(small, grown, slot)
  {
    hide Inside, Contents, Quadrant, Placed, Unambiguous, FullyContains, Choose, Keeps, DoublesAt, Descends, Canonical;
    NotIntoOldRoot(small, grown, slot, e.box);
    DoublingPlaced(small, grown, slot);
    KidRegions(small, grown, slot);
    KeptSlot(small, grown, slot);
    DoublingContents(small, grown, slot);
    EmptyKidsCanonical(small, grown, slot, cap, maxDepth, 0);
    assert |Contents(m)| == |Contents(small)| + 1;
    DescendedKids(grown, e, m, slot, cap, maxDepth);
    CanonicalMeans(m, cap, maxDepth, 0);
  }

  lemma KeptSlot(small: Tree, grown: Tree, slot: nat)
    requires DoublesAt(small, grown, slot)
    ensures slot < 4 == |grown.kids| && grown.kids[slot] == small && grown.items == []
  {
    hide Quadrant;
  }

  lemma CanonicalMeans(n: Tree, cap: nat, maxDepth: nat, depth: nat)
    requires |n.kids| == 4
    ensures Canonical(n, cap, maxDepth, depth) <==>
              && Placed(n) && depth < maxDepth && |Contents(n)| > cap
              && forall i :: 0 <= i < 4 ==> n.kids[i].region == Quadrant(n.region, i) && Canonical(n.kids[i], cap, maxDepth, depth + 1)
  {
    hide Placed, Quadrant, Contents;
  }

  /** Below a doubled root only an empty quadrant changes. */
  lemma DescendedKids(grown: Tree, e: Entry, m: Tree, slot: nat, cap: nat, maxDepth: nat)
    requires |grown.kids| == 4 && slot < 4 && Choose(grown.kids, e.box, 0) != slot
    requires Descends(grown, e, m, cap, maxDepth, 0)
    requires forall i :: 0 <= i < 4 && i != slot ==> Canonical(grown.kids[i], cap, maxDepth, 1)
    ensures |m.kids| == 4 && m.region == grown.region && m.kids[slot] == grown.kids[slot] && (Placed(m) <==> Placed(grown))
    ensures forall i :: 0 <= i < 4 ==> m.kids[i].region == grown.kids[i].region
    ensures forall i :: 0 <= i < 4 && i != slot ==> Canonical(m.kids[i], cap, maxDepth, 1)
  {
    hide Contents, Placed, Choose, Keeps, Canonical;
    var i := Choose(grown.kids, e.box, 0);
    if i == 4 {
      PlacedHere(grown, e);
    } else {
      KeptCanonical(grown.kids[i], m.kids[i], cap, maxDepth, 1);
      PlacedInto(grown, e, i, m.kids[i]);
    }
  }

  lemma KeptCanonical(n: Tree, m: Tree, cap: nat, maxDepth: nat, depth: nat)
    requires Keeps(n, m, cap, maxDepth, depth) && Canonical(n, cap, maxDepth, depth)
    ensures Canonical(m, cap, maxDepth, depth) && m.region == n.region
  {
    hide Canonical, Tiled, Capped, Inside;
  }

  lemma PlacedHere(n: Tree, e: Entry)
    requires |n.kids| == 4 && Choose(n.kids, e.box, 0) == 4
    ensures Placed(Bare(n.region, n.items + [e], n.kids)) <==> Placed(n)
  {
    hide Choose, Contents;
    var m := Bare(n.region, n.items + [e], n.kids);
    assert forall x :: x in m.items <==> x in n.items || x == e;
  }

  lemma PlacedInto(n: Tree, e: Entry, i: nat, k: Tree)
    requires |n.kids| == 4 && i < 4 && Choose(n.kids, e.box, 0) == i && k.region == n.kids[i].region
    requires Contents(k) == Contents(n.kids[i]) + multiset{e}
    ensures Placed(Bare(n.region, n.items, n.kids[i := k])) <==> Placed(n)
  {
    hide Choose, Contents;
    var kids := n.kids[i := k];
    forall x: Entry ensures Choose(kids, x.box, 0) == Choose(n.kids, x.box, 0) {
      SameChoice(kids, n.kids, x.box, 0);
    }
    forall x: Entry ensures x in Contents(k) <==> x in Contents(n.kids[i]) || x == e {
      assert Contents(k)[x] == (Contents(n.kids[i]) + multiset{e})[x];
    }
    var m := Bare(n.region, n.items, kids);
    if Placed(m) {
      forall j, x | 0 <= j < 4 && x in Contents(n.kids[j]) ensures Choose(n.kids, x.box, 0) == j {
        assert x in Contents(m.kids[j]);
      }
    }
  }

  /** A root with children that had to be widened is never canonical: its children no longer fit it. */
  lemma WidenedNotCanonical(n: Tree, box: Box, cap: nat, maxDepth: nat, depth: nat)
    requires |n.kids| == 4 && (forall i :: 0 <= i < 4 ==> n.kids[i].region == Quadrant(n.region, i))
    requires !FullyContains(n.region, box)
    ensures var w := Bare(Expand(n.region, box), n.items, n.kids);
            !Canonical(w, cap, maxDepth, depth) && !Tiled(w) && w.region != n.region
  {
    hide Placed, Contents;
    QuadrantFixes(Expand(n.region, box), n.region);
  }

  lemma QuadrantFixes(r: Box, s: Box)
    ensures r != s ==> Quadrant(r, 0) != Quadrant(s, 0)
  {
  }

  lemma InsertionNotCanonical(w: Tree, e: Entry, m: Tree, cap: nat, maxDepth: nat)
    requires |w.kids| == 4 && Descends(w, e, m, cap, maxDepth, 0)
    requires exists i :: 0 <= i < 4 && w.kids[i].region != Quadrant(w.region, i)
    ensures !Canonical(m, cap, maxDepth, 0)
  {
    hide Contents, Quadrant, Placed, Choose;
    var i :| 0 <= i < 4 && w.kids[i].region != Quadrant(w.region, i);
    assert m.region == w.region && |m.kids| == 4;
    assert m.kids[i].region == w.kids[i].region;
  }

  /**
   What the tree looks like after an insertion that made the root grow by k doublings, told from the tree before: it is
   canonical exactly when the doublings covered the box, the old root was full, its subtree had to be divided at every
   new level, it is canonical k levels deeper, and no entry fits an earlier quadrant.
   */
  ghost predicate CanonicalAfterGrowth(root: Tree, box: Box, k: nat, cap: nat, maxDepth: nat) {
    && FullyContains(GrownTo(root, box, k).region, box)
    && |Contents(root)| >= cap && (k > 1 ==> |Contents(root)| > cap) && k <= maxDepth
    && Canonical(root, cap, maxDepth, k) && UnambiguousUpTo(root, box, k)
  }

  lemma GrowthIsCanonical(root: Tree, e: Entry, k: nat, wide: Tree, m: Tree, cap: nat, maxDepth: nat)
    requires Inside(root) && HasExtent(root.region) && !FullyContains(root.region, e.box)
    requires Doublings(root, e.box, 64, k)
    requires var last := GrownTo(root, e.box, k);
             wide == if FullyContains(last.region, e.box) then last
                     else Bare(Expand(last.region, e.box), last.items, last.kids)
    requires |wide.kids| == 4 ==> Descends(wide, e, m, cap, maxDepth, 0)
    requires Contents(m) == Contents(wide) + multiset{e}
    ensures k > 0 && |wide.kids| == 4
    ensures Canonical(m, cap, maxDepth, 0) <==> CanonicalAfterGrowth(root, e.box, k, cap, maxDepth)
  {
    hide Inside, Contents, Canonical, Doubled, Unambiguous, FullyContains, Quadrant, DoublesAt, Descends;
    assert k > 0;
    var small := GrownTo(root, e.box, k - 1);
    var slot := Slot(small.region, e.box);
    GrownToKeeps(root, e.box, k - 1);
    DoubledDoubles(small, e.box);
    FourKidsDoubled(small, Doubled(small, e.box), slot);
    KidRegions(small, Doubled(small, e.box), slot);
    if FullyContains(wide.region, e.box) && wide == Doubled(small, e.box) {
      InsertionCanonical(small, wide, slot, e, m, cap, maxDepth);
      GrownCanonical(root, e.box, k - 1, cap, maxDepth, 1);
    } else {
      WidenedNotCanonical(Doubled(small, e.box), e.box, cap, maxDepth, 0);
      SomeKidMisfits(Doubled(small, e.box), wide);
      InsertionNotCanonical(wide, e, m, cap, maxDepth);
    }
  }

  lemma FourKidsDoubled(small: Tree, grown: Tree, slot: nat)
    requires DoublesAt(small, grown, slot)
    ensures |grown.kids| == 4
  {
  }

  lemma SomeKidMisfits(n: Tree, w: Tree)
    requires |n.kids| == 4 && (forall i :: 0 <= i < 4 ==> n.kids[i].region == Quadrant(n.region, i))
    requires w.kids == n.kids && w.region != n.region
    ensures exists i :: 0 <= i < 4 && w.kids[i].region != Quadrant(w.region, i)
  {
    hide Quadrant;
    QuadrantFixes(w.region, n.region);
    assert w.kids[0].region != Quadrant(w.region, 0);
  }
}
