/** Axis-aligned boxes with exact coordinates. */
module Geometry {

  datatype Box = Box(minLat: real, minLon: real, maxLat: real, maxLon: real)

  function Min(a: real, b: real): real {
    if b < a then b else a
  }

  function Max(a: real, b: real): real {
    if a < b then b else a
  }

  /** A box with its corners the right way round. */
  predicate WellFormed(b: Box) {
    b.minLat <= b.maxLat && b.minLon <= b.maxLon
  }

  /** The point is in the box, its border included. */
  predicate Holds(b: Box, lat: real, lon: real) {
    b.minLat <= lat <= b.maxLat && b.minLon <= lon <= b.maxLon
  }

  predicate Intersects(a: Box, b: Box) {
    !(b.minLat > a.maxLat || b.maxLat < a.minLat || b.minLon > a.maxLon || b.maxLon < a.minLon)
  }

  predicate FullyContains(outer: Box, inner: Box) {
    && inner.minLat >= outer.minLat && inner.maxLat <= outer.maxLat
    && inner.minLon >= outer.minLon && inner.maxLon <= outer.maxLon
  }

  function Expand(a: Box, b: Box): Box {
    Box(Min(a.minLat, b.minLat), Min(a.minLon, b.minLon), Max(a.maxLat, b.maxLat), Max(a.maxLon, b.maxLon))
  }

  /** Quadrants in the order south-west, south-east, north-west, north-east. */
  function Quadrant(r: Box, i: nat): Box {
    var mlat, mlon := (r.minLat + r.maxLat) / 2.0, (r.minLon + r.maxLon) / 2.0;
    match i
    case 0 => Box(r.minLat, r.minLon, mlat, mlon)
    case 1 => Box(r.minLat, mlon, mlat, r.maxLon)
    case 2 => Box(mlat, r.minLon, r.maxLat, mlon)
    case _ => Box(mlat, mlon, r.maxLat, r.maxLon)
  }

  /** Skipping a region that misses the query cannot skip a box inside the region. */
  lemma PruningIsSound(region: Box, box: Box, q: Box)
    requires FullyContains(region, box) && Intersects(box, q)
    ensures Intersects(region, q)
  {
  }

  ghost predicate SharePoint(a: Box, b: Box) {
    exists lat, lon :: Holds(a, lat, lon) && Holds(b, lat, lon)
  }

  /** Two boxes intersect exactly when they share a point; touching borders and single points count. */
  lemma IntersectsExactly(a: Box, b: Box)
    requires WellFormed(a) && WellFormed(b)
    ensures Intersects(a, b) <==> SharePoint(a, b)
  {
    if Intersects(a, b) {
      var lat, lon := Max(a.minLat, b.minLat), Max(a.minLon, b.minLon);
      assert Holds(a, lat, lon) && Holds(b, lat, lon);
    }
  }

  /** A box contains another exactly when it holds every point of it. */
  lemma ContainsExactly(outer: Box, inner: Box)
    requires WellFormed(inner)
    ensures FullyContains(outer, inner) <==> forall lat, lon :: Holds(inner, lat, lon) ==> Holds(outer, lat, lon)
  {
    if forall lat, lon :: Holds(inner, lat, lon) ==> Holds(outer, lat, lon) {
      assert Holds(inner, inner.minLat, inner.minLon) && Holds(inner, inner.maxLat, inner.maxLon);
      assert Holds(outer, inner.minLat, inner.minLon) && Holds(outer, inner.maxLat, inner.maxLon);
    }
  }

  /** The expanded box is the least that contains both. */
  lemma ExpandIsLeast(a: Box, b: Box, c: Box)
    ensures FullyContains(c, Expand(a, b)) <==> FullyContains(c, a) && FullyContains(c, b)
  {
  }

  /** The quadrants of a box hold exactly its points, and each has a corner of its own in common with it. */
  lemma QuadrantsTile(r: Box, lat: real, lon: real)
    requires WellFormed(r)
    ensures Holds(r, lat, lon) <==> exists i: nat :: i < 4 && Holds(Quadrant(r, i), lat, lon)
    ensures Holds(Quadrant(r, 0), r.minLat, r.minLon) && Holds(Quadrant(r, 1), r.minLat, r.maxLon)
    ensures Holds(Quadrant(r, 2), r.maxLat, r.minLon) && Holds(Quadrant(r, 3), r.maxLat, r.maxLon)
  {
    if Holds(r, lat, lon) {
      var i: nat := (if lat + lat <= r.minLat + r.maxLat then 0 else 2) + if lon + lon <= r.minLon + r.maxLon then 0 else 1;
      assert Holds(Quadrant(r, i), lat, lon);
    }
    if i: nat :| i < 4 && Holds(Quadrant(r, i), lat, lon) {
      assert FullyContains(r, Quadrant(r, i));
    }
  }

  /** A stored zone: its id and its bounding box. */
  datatype Entry = Entry(id: nat, box: Box)
}
