/** Tight envelopes: the exact union of boxes, or nothing. */
module Envelopes {
  import opened Geometry

  datatype Envelope = Empty | Env(box: Box)

  function Grow(a: Envelope, b: Envelope): Envelope {
    match (a, b)
    case (Empty, _) => b
    case (_, Empty) => a
    case (Env(x), Env(y)) => Env(Expand(x, y))
  }

  /** Nothing has no area; only an empty root has an empty envelope, and nothing ever asks for its area. */
  function Area(e: Envelope): real {
    match e
    case Empty => 0.0
    case Env(b) => (b.maxLat - b.minLat) * (b.maxLon - b.minLon)
  }

  function Enlargement(have: Envelope, add: Envelope): real {
    Area(Grow(have, add)) - Area(have)
  }

  /** What two boxes waste when put together. */
  function Waste(a: Envelope, b: Envelope): real {
    Area(Grow(a, b)) - Area(a) - Area(b)
  }

  /** The union of the envelopes in a list. */
  function Hull(s: seq<Envelope>): Envelope {
    if s == [] then Empty else Grow(Hull(s[..|s| - 1]), s[|s| - 1])
  }

  /** The unit square has area one, and cutting a box along either axis divides its area. */
  lemma AreaAddsUp(b: Box, lat: real, lon: real)
    ensures Area(Env(Box(0.0, 0.0, 1.0, 1.0))) == 1.0
    ensures Area(Env(b)) == Area(Env(b.(maxLat := lat))) + Area(Env(b.(minLat := lat)))
    ensures Area(Env(b)) == Area(Env(b.(maxLon := lon))) + Area(Env(b.(minLon := lon)))
  {
  }

  /** A box is never enlarged by a negative area, and not at all by a box it contains. */
  lemma EnlargementNotNegative(have: Box, add: Box)
    requires WellFormed(have) && WellFormed(add)
    ensures Enlargement(Env(have), Env(add)) >= 0.0
    ensures FullyContains(have, add) ==> Enlargement(Env(have), Env(add)) == 0.0
  {
    var e := Expand(have, add);
    Product(have.maxLat - have.minLat, e.maxLat - e.minLat, have.maxLon - have.minLon, e.maxLon - e.minLon);
  }

  lemma Product(a: real, b: real, c: real, d: real)
    requires 0.0 <= a <= b && 0.0 <= c <= d
    ensures a * c <= b * d
  {
    assert a * c <= b * c;
    assert b * c <= b * d;
  }

  /** Two halves of a box waste nothing, and a box beside itself wastes its own area less than nothing. */
  lemma WasteExact(b: Box, lat: real)
    requires WellFormed(b) && b.minLat <= lat <= b.maxLat
    ensures Waste(Env(b.(maxLat := lat)), Env(b.(minLat := lat))) == 0.0
    ensures Waste(Env(b), Env(b)) == -Area(Env(b))
  {
    AreaAddsUp(b, lat, b.minLon);
  }

  predicate Meets(e: Envelope, q: Box) {
    e.Env? && Intersects(e.box, q)
  }

  predicate Covers(outer: Envelope, inner: Envelope) {
    inner.Empty? || (outer.Env? && FullyContains(outer.box, inner.box))
  }

  /** The hull covers every member, and whatever covers every member covers the hull. */
  lemma {:induction false} HullIsLeast(s: seq<Envelope>, e: Envelope)
    ensures Covers(e, Hull(s)) <==> forall i :: 0 <= i < |s| ==> Covers(e, s[i])
  {
    if s != [] {
      var init := s[..|s| - 1];
      HullIsLeast(init, e);
      assert forall i :: 0 <= i < |init| ==> init[i] == s[i];
    }
  }

  lemma HullCovers(s: seq<Envelope>, i: nat)
    requires i < |s|
    ensures Covers(Hull(s), s[i])
  {
    HullIsLeast(s, Hull(s));
  }

  /** Skipping an envelope that misses the query skips nothing it covers. */
  lemma MissesAll(outer: Envelope, inner: Envelope, q: Box)
    requires Covers(outer, inner) && Meets(inner, q)
    ensures Meets(outer, q)
  {
  }
}
