/** The indexes are interchangeable: whichever answers the queries, the evaluator raises the same events. */
module IndexIndependence {
  import opened Evaluator
  import opened FenceGuarantees
  import opened FenceRuns
  import Geohash
  import opened Geometry
  import Hysteresis
  import opened LinearScan
  import Quadtree
  import RTree

  /** Three indexes over the same zones return the same candidates as a linear scan, each in its own order. */
  method SameCandidates(r: RTree.Index, t: Quadtree.Index, g: Geohash.Index, items: seq<Entry>, q: Box)
    returns (a: seq<nat>, b: seq<nat>, c: seq<nat>)
    requires r.Valid() && t.Valid() && g.Valid() && q.minLat <= q.maxLat && q.minLon <= q.maxLon
    requires r.Items() == t.Items() == g.Items() == multiset(items)
    ensures multiset(a) == multiset(b) == multiset(c) == multiset(Ids(Filter(items, q)))
  {
    hide Ids, Filter, Intersects;
    hide RTree.Index.Valid, Quadtree.Index.Valid, Geohash.Index.Valid;
    hide RTree.Index.Items, Quadtree.Index.Items, Geohash.Index.Items;
    ghost var scan := multiset(Ids(Filter(items, q)));
    a := r.Query(q, []);
    assert multiset(a) == multiset([]) + scan;
    b := t.Query(q, []);
    assert multiset(b) == multiset([]) + scan;
    c := g.Query(q, []);
    assert multiset(c) == multiset([]) + scan;
  }

  /** Each fix's candidates come from some index over the same zones, asked about the fix's query box. */
  ghost predicate Answered(fixes: seq<Fix>, items: seq<seq<Entry>>, boxes: seq<Box>) {
    && |items| == |boxes| == |fixes|
    && forall i :: 0 <= i < |fixes| ==> multiset(fixes[i].candidates) == multiset(Ids(Filter(items[i], boxes[i])))
  }

  /** The same run of fixes, answered by two indexes, raises the same events and leaves the same states. */
  lemma SameEvents(a: seq<Fix>, b: seq<Fix>, items: seq<seq<Entry>>, boxes: seq<Box>, cfg: Hysteresis.Config)
    requires Answered(a, items, boxes) && Answered(b, items, boxes)
    requires forall i :: 0 <= i < |a| ==> a[i].(candidates := []) == b[i].(candidates := [])
    ensures Tracked(a, cfg) == Tracked(b, cfg)
  {
    hide Tracked, Ids, Filter;
    IndexIndependent(a, b, cfg);
  }
}
