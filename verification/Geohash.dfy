/** The geohash index: boxes sorted by the Morton key of their centres, queried by scanning a padded key range. */
module Geohash {
  import opened Geometry
  import opened LinearScan
  import opened PowersOfTwo
  import Sorting

  const BITS: nat := 24
  const MAX_Q: nat := 0xff_ffff

  // -------------------------------------------------------------------------------------- Morton keys

  /** Bit i of a number. */
  function Bit(x: nat, i: nat): nat {
    if i == 0 then x % 2 else Bit(x / 2, i - 1)
  }

  /** The bits of v in every other position. */
  function Spread(v: nat): nat {
    if v == 0 then 0 else v % 2 + 4 * Spread(v / 2)
  }

  /** Latitude bits in the odd positions, longitude bits in the even ones. */
  function Interleave(lat: nat, lon: nat): nat {
    2 * Spread(lat) + Spread(lon)
  }

  lemma SpreadStep(v: nat)
    ensures Spread(v) == v % 2 + 4 * Spread(v / 2)
  {
  }

  /** Interleaving places bit i of the longitude at 2i and bit i of the latitude at 2i + 1. */
  lemma {:induction false} InterleavedBits(lat: nat, lon: nat, i: nat)
    ensures Bit(Interleave(lat, lon), 2 * i) == Bit(lon, i) && Bit(Interleave(lat, lon), 2 * i + 1) == Bit(lat, i)
    decreases i
  {
    hide Spread;
    SpreadStep(lat);
    SpreadStep(lon);
    var x := Interleave(lat, lon);
    assert x == lon % 2 + 2 * (lat % 2) + 4 * Interleave(lat / 2, lon / 2);
    assert x % 2 == lon % 2 && (x / 2) % 2 == lat % 2 && x / 2 / 2 == Interleave(lat / 2, lon / 2);
    if i > 0 {
      InterleavedBits(lat / 2, lon / 2, i - 1);
      assert Bit(x, 2 * i) == Bit(x / 2, 2 * i - 1) == Bit(x / 2 / 2, 2 * i - 2);
      assert Bit(x, 2 * i + 1) == Bit(x / 2, 2 * i) == Bit(x / 2 / 2, 2 * i - 1);
    } else {
      assert Bit(x, 1) == Bit(x / 2, 0);
    }
  }

  lemma {:induction false} SpreadMonotone(v: nat, w: nat)
    requires v < w
    ensures Spread(v) < Spread(w)
    decreases w
  {
    hide Spread;
    SpreadStep(v);
    SpreadStep(w);
    if v / 2 < w / 2 {
      SpreadMonotone(v / 2, w / 2);
    }
  }

  /** A cell between two corner cells, along both axes, has its key between the corner keys. */
  lemma InterleaveMonotone(lat: nat, lon: nat, lat': nat, lon': nat)
    requires lat <= lat' && lon <= lon'
    ensures Interleave(lat, lon) <= Interleave(lat', lon')
  {
    if lat < lat' { SpreadMonotone(lat, lat'); }
    if lon < lon' { SpreadMonotone(lon, lon'); }
  }

  /** What is left of v above its i lowest bits. */
  function Rest(v: nat, i: nat): nat {
    if i == 0 then v else Rest(v / 2, i - 1)
  }

  lemma {:induction false} RestStep(v: nat, i: nat)
    ensures Bit(v, i) == Rest(v, i) % 2 && Rest(v, i + 1) == Rest(v, i) / 2
    decreases i
  {
    if i > 0 {
      RestStep(v / 2, i - 1);
    }
  }

  lemma {:induction false} NothingLeft(v: nat, k: nat)
    requires v < Pow2(k)
    ensures Rest(v, k) == 0
    decreases k
  {
    if k > 0 {
      NothingLeft(v / 2, k - 1);
    }
  }

  /** Sets bit 2i for each bit i of v. */
  method SpreadBits(v: nat) returns (x: nat)
    requires v <= MAX_Q
    ensures x == Spread(v)
  {
    hide Pow2, Spread, Bit, Rest;
    x := 0;
    SpreadStarts(v);
    for i := 0 to BITS
      invariant x + Pow2(2 * i) * Spread(Rest(v, i)) == Spread(v)
    {
      SpreadOneBit(v, i);
      if Bit(v, i) == 1 { x := x + Pow2(2 * i); }
    }
    SpreadEnds(v);
  }

  lemma SpreadStarts(v: nat)
    ensures Pow2(0) * Spread(Rest(v, 0)) == Spread(v)
  {
    hide Spread;
  }

  lemma SpreadOneBit(v: nat, i: nat)
    ensures Pow2(2 * i) * Spread(Rest(v, i)) ==
              (if Bit(v, i) == 1 then Pow2(2 * i) else 0) + Pow2(2 * (i + 1)) * Spread(Rest(v, i + 1))
  {
    hide Pow2, Spread, Bit, Rest;
    RestStep(v, i);
    SpreadStep(Rest(v, i));
    Pow4(i);
    SplitProduct(Pow2(2 * i), Bit(v, i), Spread(Rest(v, i + 1)));
  }

  lemma Pow4(i: nat)
    ensures Pow2(2 * (i + 1)) == 4 * Pow2(2 * i)
  {
    assert Pow2(2 * i + 2) == 2 * Pow2(2 * i + 1) == 4 * Pow2(2 * i);
  }

  lemma SplitProduct(p: nat, bit: nat, rest: nat)
    ensures p * (bit + 4 * rest) == p * bit + 4 * p * rest
  {
  }

  lemma SpreadEnds(v: nat)
    requires v <= MAX_Q
    ensures Spread(Rest(v, BITS)) == 0
  {
    assert Pow2(24) == 0x100_0000 by {
      assert Pow2(8) == 256 && Pow2(16) == 65536;
    }
    NothingLeft(v, BITS);
  }

  function Clamp(f: real): real {
    if !(f >= 0.0) then 0.0 else if f > 1.0 then 1.0 else f
  }

  /** The cell of a coordinate, given as a fraction of its span. */
  function Cell(f: real): (q: nat)
    ensures q <= MAX_Q
  {
    var scaled := Clamp(f) * (MAX_Q as real);
    assert 0.0 <= scaled <= MAX_Q as real;
    scaled.Floor
  }

  /** Within its span, a coordinate lies in its cell; outside, it goes to the first or the last. */
  lemma CellExact(f: real)
    ensures 0.0 <= f <= 1.0 ==> Cell(f) as real <= f * MAX_Q as real < Cell(f) as real + 1.0
    ensures f < 0.0 ==> Cell(f) == 0
    ensures f > 1.0 ==> Cell(f) == MAX_Q
  {
  }

  function LatFraction(lat: real): real {
    (lat + 90.0) / 180.0
  }

  function LonFraction(lon: real): real {
    (lon + 180.0) / 360.0
  }

  /** The fractions run evenly from one end of the span to the other. */
  lemma FractionsExact(lat: real, lon: real)
    ensures LatFraction(-90.0) == 0.0 && LatFraction(90.0) == 1.0 && LonFraction(-180.0) == 0.0 && LonFraction(180.0) == 1.0
    ensures LatFraction(lat) - LatFraction(0.0) == lat * (LatFraction(1.0) - LatFraction(0.0))
    ensures LonFraction(lon) - LonFraction(0.0) == lon * (LonFraction(1.0) - LonFraction(0.0))
  {
  }

  function Morton(lat: real, lon: real): nat {
    Interleave(Cell(LatFraction(lat)), Cell(LonFraction(lon)))
  }

  method MortonKey(lat: real, lon: real) returns (key: nat)
    ensures key == Morton(lat, lon)
  {
    var x := SpreadBits(Cell(LatFraction(lat)));
    var y := SpreadBits(Cell(LonFraction(lon)));
    key := 2 * x + y;
  }

  lemma CellMonotone(f: real, g: real)
    requires f <= g
    ensures Cell(f) <= Cell(g)
  {
    assert Clamp(f) <= Clamp(g);
    assert Clamp(f) * (MAX_Q as real) <= Clamp(g) * (MAX_Q as real);
  }

  /** Clamping and all, keys grow along both axes. */
  lemma MortonMonotone(lat: real, lon: real, lat': real, lon': real)
    requires lat <= lat' && lon <= lon'
    ensures Morton(lat, lon) <= Morton(lat', lon')
  {
    hide Cell, Interleave;
    CellMonotone(LatFraction(lat), LatFraction(lat'));
    CellMonotone(LonFraction(lon), LonFraction(lon'));
    InterleaveMonotone(Cell(LatFraction(lat)), Cell(LonFraction(lon)), Cell(LatFraction(lat')), Cell(LonFraction(lon')));
  }

  // ------------------------------------------------------------------------------------------- index

  datatype Rec = Rec(key: nat, id: nat, box: Box)

  function CentreLat(b: Box): real {
    (b.minLat + b.maxLat) / 2.0
  }

  function CentreLon(b: Box): real {
    (b.minLon + b.maxLon) / 2.0
  }

  function HalfLat(b: Box): real {
    (b.maxLat - b.minLat) * 0.5
  }

  function HalfLon(b: Box): real {
    (b.maxLon - b.minLon) * 0.5
  }

  /** The corners are half an extent away from the centre. */
  lemma HalvesExact(b: Box)
    ensures CentreLat(b) - HalfLat(b) == b.minLat && CentreLat(b) + HalfLat(b) == b.maxLat
    ensures CentreLon(b) - HalfLon(b) == b.minLon && CentreLon(b) + HalfLon(b) == b.maxLon
  {
  }

  function KeyOf(b: Box): nat {
    Morton(CentreLat(b), CentreLon(b))
  }

  predicate KeyAtMost(a: Rec, b: Rec) {
    a.key <= b.key
  }

  function Entries(recs: seq<Rec>): (es: seq<Entry>)
    ensures |es| == |recs| && forall i :: 0 <= i < |recs| ==> es[i] == Entry(recs[i].id, recs[i].box)
  {
    seq(|recs|, i requires 0 <= i < |recs| => Entry(recs[i].id, recs[i].box))
  }

  /** The largest half extents of the boxes, and zero. */
  function Extent(recs: seq<Rec>, half: Box -> real): real {
    if recs == [] then 0.0 else Max(Extent(recs[..|recs| - 1], half), half(recs[|recs| - 1].box))
  }

  lemma ExtentStep(recs: seq<Rec>, i: nat)
    requires i < |recs|
    ensures forall half :: Extent(recs[..i + 1], half) == Max(Extent(recs[..i], half), half(recs[i].box))
  {
    assert recs[..i + 1][..i] == recs[..i];
  }

  lemma {:induction false} ExtentCovers(recs: seq<Rec>, half: Box -> real, i: nat)
    requires i < |recs|
    ensures half(recs[i].box) <= Extent(recs, half)
  {
    if i < |recs| - 1 {
      ExtentCovers(recs[..|recs| - 1], half, i);
    }
  }

  /** Only the boxes matter, not their order. */
  lemma {:induction false} ExtentPermuted(a: seq<Rec>, b: seq<Rec>, half: Box -> real)
    requires multiset(a) == multiset(b)
    ensures Extent(a, half) == Extent(b, half)
  {
    ExtentAtMost(a, b, half);
    ExtentAtMost(b, a, half);
  }

  lemma {:induction false} ExtentAtMost(a: seq<Rec>, b: seq<Rec>, half: Box -> real)
    requires forall r :: r in multiset(a) ==> r in multiset(b)
    ensures Extent(a, half) <= Extent(b, half)
  {
    if a == [] {
      ExtentNatural(b, half);
    } else {
      var init, last := a[..|a| - 1], a[|a| - 1];
      assert a == init + [last];
      ExtentAtMost(init, b, half);
      assert last in multiset(a);
      var i :| 0 <= i < |b| && b[i] == last;
      ExtentCovers(b, half, i);
    }
  }

  lemma {:induction false} ExtentNatural(b: seq<Rec>, half: Box -> real)
    ensures Extent(b, half) >= 0.0
  {
    if b != [] {
      ExtentNatural(b[..|b| - 1], half);
    }
  }

  /** The extent is the largest half extent, or zero. */
  lemma {:induction false} ExtentExact(recs: seq<Rec>, half: Box -> real)
    ensures Extent(recs, half) >= 0.0 && forall i :: 0 <= i < |recs| ==> half(recs[i].box) <= Extent(recs, half)
    ensures Extent(recs, half) == 0.0 || exists i :: 0 <= i < |recs| && half(recs[i].box) == Extent(recs, half)
  {
    if recs != [] {
      var n := |recs| - 1;
      ExtentExact(recs[..n], half);
      if Extent(recs, half) != half(recs[n].box) && Extent(recs, half) != 0.0 {
        var i :| 0 <= i < n && half(recs[..n][i].box) == Extent(recs[..n], half);
        assert half(recs[i].box) == Extent(recs, half);
      }
    }
  }

  /** A box that meets the query has its centre within the query padded by the largest half extents. */
  lemma KeyBracketed(box: Box, q: Box, padLat: real, padLon: real)
    requires Intersects(box, q) && HalfLat(box) <= padLat && HalfLon(box) <= padLon
    ensures Morton(q.minLat - padLat, q.minLon - padLon) <= KeyOf(box) <= Morton(q.maxLat + padLat, q.maxLon + padLon)
  {
    hide Morton;
    assert q.minLat - padLat <= CentreLat(box) <= q.maxLat + padLat;
    assert q.minLon - padLon <= CentreLon(box) <= q.maxLon + padLon;
    MortonMonotone(q.minLat - padLat, q.minLon - padLon, CentreLat(box), CentreLon(box));
    MortonMonotone(CentreLat(box), CentreLon(box), q.maxLat + padLat, q.maxLon + padLon);
  }

  ghost predicate KeysRight(recs: seq<Rec>) {
    forall i :: 0 <= i < |recs| ==> recs[i].key == KeyOf(recs[i].box)
  }

  ghost predicate Keyed(recs: seq<Rec>) {
    KeysRight(recs) && Sorting.Sorted(recs, KeyAtMost)
  }

  class Index {
    var recs: seq<Rec>
    var maxHalfLat: real
    var maxHalfLon: real

    ghost function Items(): multiset<Entry>
      reads this
    {
      multiset(Entries(recs))
    }

    /** Sorted by key, keys right, and the padding exactly the largest half extents. */
    ghost predicate Valid()
      reads this
    {
      Keyed(recs) && maxHalfLat == Extent(recs, HalfLat) && maxHalfLon == Extent(recs, HalfLon)
    }

    constructor ()
      ensures Valid() && Items() == multiset{}
    {
      recs, maxHalfLat, maxHalfLon := [], 0.0, 0.0;
    }

    method NoteExtent(b: Box)
      modifies `maxHalfLat, `maxHalfLon
      ensures maxHalfLat == Max(old(maxHalfLat), HalfLat(b)) && maxHalfLon == Max(old(maxHalfLon), HalfLon(b))
    {
      maxHalfLat := Max(maxHalfLat, HalfLat(b));
      maxHalfLon := Max(maxHalfLon, HalfLon(b));
    }

    method RecomputeExtents()
      modifies `maxHalfLat, `maxHalfLon
      ensures maxHalfLat == Extent(recs, HalfLat) && maxHalfLon == Extent(recs, HalfLon)
      ensures forall i :: 0 <= i < |recs| ==>
                recs[i].box.maxLat - recs[i].box.minLat <= 2.0 * maxHalfLat && recs[i].box.maxLon - recs[i].box.minLon <= 2.0 * maxHalfLon
      ensures maxHalfLat == 0.0 || exists i :: 0 <= i < |recs| && recs[i].box.maxLat - recs[i].box.minLat == 2.0 * maxHalfLat
      ensures maxHalfLon == 0.0 || exists i :: 0 <= i < |recs| && recs[i].box.maxLon - recs[i].box.minLon == 2.0 * maxHalfLon
    {
      hide Extent;
      NoExtent();
      ExtentExact(recs, HalfLat);
      ExtentExact(recs, HalfLon);
      maxHalfLat, maxHalfLon := 0.0, 0.0;
      for i := 0 to |recs|
        invariant maxHalfLat == Extent(recs[..i], HalfLat) && maxHalfLon == Extent(recs[..i], HalfLon)
      {
        ExtentStep(recs, i);
        maxHalfLat := Max(maxHalfLat, HalfLat(recs[i].box));
        maxHalfLon := Max(maxHalfLon, HalfLon(recs[i].box));
      }
      assert recs[..|recs|] == recs;
    }

    method Build(items: seq<Entry>)
      requires Valid()
      modifies this
      ensures Valid() && Items() == multiset(items)
    {
      hide Extent, KeyOf, Morton;
      recs, maxHalfLat, maxHalfLon := [], 0.0, 0.0;
      NoExtent();
      for i := 0 to |items|
        invariant |recs| == i && Entries(recs) == items[..i] && KeysRight(recs)
        invariant maxHalfLat == Extent(recs, HalfLat) && maxHalfLon == Extent(recs, HalfLon)
      {
        var key := MortonKey(CentreLat(items[i].box), CentreLon(items[i].box));
        ExtentPush(recs, Rec(key, items[i].id, items[i].box));
        NoteExtent(items[i].box);
        KeyIs(items[i].box);
        recs := recs + [Rec(key, items[i].id, items[i].box)];
      }
      assert items[..|items|] == items;
      SortKeeps(recs);
      recs := Sorting.Sort(recs, KeyAtMost);
    }

    /** Inserts behind the last record whose key is not greater. */
    method Insert(id: nat, box: Box)
      requires Valid()
      modifies this
      ensures Valid() && Items() == old(Items()) + multiset{Entry(id, box)}
    {
      hide Extent, KeyOf, Morton;
      var key := MortonKey(CentreLat(box), CentreLon(box));
      KeyIs(box);
      var at := UpperBound(key);
      InsertKeeps(recs, at, Rec(key, id, box));
      recs := recs[..at] + [Rec(key, id, box)] + recs[at..];
      NoteExtent(box);
    }

    /** Removes the first record with the id; erasing keeps the order. */
    method Remove(id: nat) returns (found: bool)
      requires Valid()
      modifies this
      ensures Valid()
      ensures !found ==> recs == old(recs) && forall e :: e in Items() ==> e.id != id
      ensures found ==> exists e: Entry :: e.id == id && Items() + multiset{e} == old(Items())
    {
      hide Extent, KeyOf, Morton;
      for i := 0 to |recs|
        invariant recs == old(recs) && Valid() && forall j :: 0 <= j < i ==> recs[j].id != id
      {
        if recs[i].id == id {
          EraseKeeps(recs, i);
          ghost var e := Entry(recs[i].id, recs[i].box);
          recs := recs[..i] + recs[i + 1..];
          RecomputeExtents();
          assert e.id == id && Items() + multiset{e} == old(Items());
          return true;
        }
      }
      return false;
    }

    /** The first position with a key of at least k. */
    method LowerBound(k: nat) returns (at: nat)
      requires Keyed(recs)
      ensures at <= |recs| && (forall i :: 0 <= i < at ==> recs[i].key < k) && forall i :: at <= i < |recs| ==> recs[i].key >= k
    {
      hide KeyOf;
      var lo, hi := 0, |recs|;
      while lo < hi
        invariant 0 <= lo <= hi <= |recs|
        invariant (forall i :: 0 <= i < lo ==> recs[i].key < k) && forall i :: hi <= i < |recs| ==> recs[i].key >= k
      {
        var mid := lo + (hi - lo) / 2;
        assert forall i :: 0 <= i < mid ==> KeyAtMost(recs[i], recs[mid]);
        assert forall i :: mid < i < |recs| ==> KeyAtMost(recs[mid], recs[i]);
        if recs[mid].key < k { lo := mid + 1; } else { hi := mid; }
      }
      at := lo;
    }

    /** The first position with a key above k. */
    method UpperBound(k: nat) returns (at: nat)
      requires Keyed(recs)
      ensures at <= |recs| && (forall i :: 0 <= i < at ==> recs[i].key <= k) && forall i :: at <= i < |recs| ==> recs[i].key > k
    {
      at := LowerBound(k + 1);
    }

    /** Filters the records of a range in order. */
    method ScanRange(begin: nat, end: nat, q: Box, out: seq<nat>) returns (out': seq<nat>)
      requires begin <= end <= |recs|
      ensures out' == out + Ids(Filter(Entries(recs[begin..end]), q))
    {
      hide Ids, Filter, Intersects;
      ghost var scanned := Entries(recs[begin..end]);
      FilterNone(scanned, q, out);
      out' := out;
      for i := begin to end
        invariant out' == out + Ids(Filter(scanned[..i - begin], q))
      {
        FilterStep(scanned, i - begin, q, out);
        assert scanned[i - begin] == Entry(recs[i].id, recs[i].box);
        if Intersects(recs[i].box, q) {
          out' := out' + [recs[i].id];
        }
      }
      assert scanned[..|scanned|] == scanned;
    }

    /** Appends what a linear scan of the stored entries, in any order, would: each match as often as it is stored. */
    method Query(q: Box, out: seq<nat>) returns (out': seq<nat>)
      requires Valid() && WellFormed(q)
      ensures forall items :: multiset(items) == Items() ==>
                multiset(out') == multiset(out) + multiset(Ids(Filter(items, q)))
    {
      hide Extent, KeyOf, Morton, Ids, Filter, Keyed, Entries;
      out' := out;
      if recs == [] {
        AgreesWhenAll(recs, 0, 0, q, out);
        return;
      }
      var zLo := MortonKey(q.minLat - maxHalfLat, q.minLon - maxHalfLon);
      var zHi := MortonKey(q.maxLat + maxHalfLat, q.maxLon + maxHalfLon);
      var begin := LowerBound(zLo);
      var end := UpperBound(zHi);
      RangeInOrder(recs, q, maxHalfLat, maxHalfLon, begin, end);
      out' := ScanRange(begin, end, q, out);
      NothingOutside(recs, q, maxHalfLat, maxHalfLon, begin, end);
      AgreesWhenAll(recs, begin, end, q, out);
    }
  }

  // ------------------------------------------------------------------------------ keeping the records

  lemma NoExtent()
    ensures Extent([], HalfLat) == 0.0 && Extent([], HalfLon) == 0.0
  {
  }

  lemma KeyIs(b: Box)
    ensures KeyOf(b) == Morton(CentreLat(b), CentreLon(b))
  {
    hide Morton;
  }

  lemma ExtentPush(recs: seq<Rec>, r: Rec)
    ensures Extent(recs + [r], HalfLat) == Max(Extent(recs, HalfLat), HalfLat(r.box))
    ensures Extent(recs + [r], HalfLon) == Max(Extent(recs, HalfLon), HalfLon(r.box))
  {
    assert (recs + [r])[..|recs|] == recs;
  }

  lemma {:induction false} EntriesPermuted(a: seq<Rec>, b: seq<Rec>)
    requires multiset(a) == multiset(b)
    ensures multiset(Entries(a)) == multiset(Entries(b))
  {
    Sorting.MultisetMembers(a, b);
    if a != [] {
      var k := Sorting.MatchLast(a, b);
      EntriesPermuted(a[..|a| - 1], b[..k] + b[k + 1..]);
      EntriesSplit(a, |a| - 1);
      EntriesSplit(b, k);
      assert a[..|a| - 1] + a[|a|..] == a[..|a| - 1];
    }
  }

  lemma EntriesSplit(s: seq<Rec>, k: nat)
    requires k < |s|
    ensures multiset(Entries(s)) == multiset(Entries(s[..k] + s[k + 1..])) + multiset{Entry(s[k].id, s[k].box)}
  {
    assert Entries(s[..k] + s[k + 1..]) == Entries(s)[..k] + Entries(s)[k + 1..];
    Sorting.WithoutOne(Entries(s), k);
  }

  lemma KeysTotal()
    ensures Sorting.Preorder(KeyAtMost)
  {
  }

  lemma SortKeeps(recs: seq<Rec>)
    requires KeysRight(recs)
    ensures var sorted := Sorting.Sort(recs, KeyAtMost);
            && Keyed(sorted) && multiset(Entries(sorted)) == multiset(Entries(recs))
            && Extent(sorted, HalfLat) == Extent(recs, HalfLat) && Extent(sorted, HalfLon) == Extent(recs, HalfLon)
  {
    hide Extent, KeyOf, Sorting.Sort, Sorting.Preorder, Entries;
    var sorted := Sorting.Sort(recs, KeyAtMost);
    KeysTotal();
    Sorting.SortSorts(recs, KeyAtMost);
    Sorting.SortPermutes(recs, KeyAtMost);
    EntriesPermuted(sorted, recs);
    ExtentPermuted(sorted, recs, HalfLat);
    ExtentPermuted(sorted, recs, HalfLon);
    forall i | 0 <= i < |sorted| ensures sorted[i].key == KeyOf(sorted[i].box) {
      assert sorted[i] in recs;
    }
  }

  lemma InsertKeeps(recs: seq<Rec>, at: nat, r: Rec)
    requires Keyed(recs) && at <= |recs| && r.key == KeyOf(r.box)
    requires (forall i :: 0 <= i < at ==> recs[i].key <= r.key) && forall i :: at <= i < |recs| ==> recs[i].key > r.key
    ensures var more := recs[..at] + [r] + recs[at..];
            && Keyed(more) && multiset(Entries(more)) == multiset(Entries(recs)) + multiset{Entry(r.id, r.box)}
            && Extent(more, HalfLat) == Max(Extent(recs, HalfLat), HalfLat(r.box))
            && Extent(more, HalfLon) == Max(Extent(recs, HalfLon), HalfLon(r.box))
  {
    hide Extent, KeyOf, Entries;
    var more := recs[..at] + [r] + recs[at..];
    InsertPermutes(recs, at, r);
    EntriesSplit(more, at);
    ExtentPermuted(more, recs + [r], HalfLat);
    ExtentPermuted(more, recs + [r], HalfLon);
    ExtentPush(recs, r);
    InsertSorted(recs, at, r);
  }

  lemma InsertPermutes(recs: seq<Rec>, at: nat, r: Rec)
    requires at <= |recs|
    ensures var more := recs[..at] + [r] + recs[at..];
            more[at] == r && more[..at] + more[at + 1..] == recs && multiset(more) == multiset(recs + [r])
  {
    var more := recs[..at] + [r] + recs[at..];
    assert more[..at] + more[at + 1..] == recs;
    Sorting.WithoutOne(more, at);
    assert multiset(more) == multiset(recs) + multiset{r};
  }

  lemma InsertSorted(recs: seq<Rec>, at: nat, r: Rec)
    requires Keyed(recs) && at <= |recs| && r.key == KeyOf(r.box)
    requires (forall i :: 0 <= i < at ==> recs[i].key <= r.key) && forall i :: at <= i < |recs| ==> recs[i].key > r.key
    ensures Keyed(recs[..at] + [r] + recs[at..])
  {
    hide KeyOf;
    var more := recs[..at] + [r] + recs[at..];
    forall i, j | 0 <= i < j < |more| ensures KeyAtMost(more[i], more[j]) {
      var a, b := if i < at then i else i - 1, if j < at then j else j - 1;
      if i != at && j != at { assert KeyAtMost(recs[a], recs[b]); }
    }
  }

  lemma EraseKeeps(recs: seq<Rec>, i: nat)
    requires Keyed(recs) && i < |recs|
    ensures var fewer := recs[..i] + recs[i + 1..];
            Keyed(fewer) && multiset(Entries(fewer)) + multiset{Entry(recs[i].id, recs[i].box)} == multiset(Entries(recs))
  {
    hide KeyOf, Entries;
    EntriesSplit(recs, i);
    var fewer := recs[..i] + recs[i + 1..];
    forall a, b | 0 <= a < b < |fewer| ensures KeyAtMost(fewer[a], fewer[b]) {
      var c, d := if a < i then a else a + 1, if b < i then b else b + 1;
      assert KeyAtMost(recs[c], recs[d]);
    }
  }

  // -------------------------------------------------------------------------------- the scanned range

  lemma RangeInOrder(recs: seq<Rec>, q: Box, padLat: real, padLon: real, begin: nat, end: nat)
    requires q.minLat <= q.maxLat && q.minLon <= q.maxLon && begin <= |recs| && end <= |recs|
    requires padLat == Extent(recs, HalfLat) && padLon == Extent(recs, HalfLon)
    requires forall i :: 0 <= i < begin ==> recs[i].key < Morton(q.minLat - padLat, q.minLon - padLon)
    requires forall i :: end <= i < |recs| ==> recs[i].key > Morton(q.maxLat + padLat, q.maxLon + padLon)
    ensures begin <= end
  {
    hide Morton, Extent;
    ExtentNatural(recs, HalfLat);
    ExtentNatural(recs, HalfLon);
    assert end < |recs| ==> recs[end].key > Morton(q.maxLat + padLat, q.maxLon + padLon);
    MortonMonotone(q.minLat - padLat, q.minLon - padLon, q.maxLat + padLat, q.maxLon + padLon);
  }

  lemma FilterStep(es: seq<Entry>, k: nat, q: Box, out: seq<nat>)
    requires k < |es|
    ensures out + Ids(Filter(es[..k + 1], q)) ==
              out + Ids(Filter(es[..k], q)) + if Intersects(es[k].box, q) then [es[k].id] else []
  {
    assert es[..k + 1][..k] == es[..k];
  }

  lemma FilterNone(es: seq<Entry>, q: Box, out: seq<nat>)
    ensures out + Ids(Filter(es[..0], q)) == out
  {
  }

  /** Records outside the range do not meet the query. */
  lemma NothingOutside(recs: seq<Rec>, q: Box, padLat: real, padLon: real, begin: nat, end: nat)
    requires Keyed(recs) && padLat == Extent(recs, HalfLat) && padLon == Extent(recs, HalfLon)
    requires begin <= |recs| && end <= |recs|
    requires forall i :: 0 <= i < begin ==> recs[i].key < Morton(q.minLat - padLat, q.minLon - padLon)
    requires forall i :: end <= i < |recs| ==> recs[i].key > Morton(q.maxLat + padLat, q.maxLon + padLon)
    ensures forall i :: 0 <= i < |recs| && (i < begin || end <= i) ==> !Intersects(recs[i].box, q)
  {
    hide Morton, Extent, KeyOf, Intersects;
    forall i | 0 <= i < |recs| && (i < begin || end <= i) ensures !Intersects(recs[i].box, q) {
      ExtentCovers(recs, HalfLat, i);
      ExtentCovers(recs, HalfLon, i);
      if Intersects(recs[i].box, q) {
        KeyBracketed(recs[i].box, q, padLat, padLon);
      }
    }
  }

  lemma AgreesWhenAll(recs: seq<Rec>, begin: nat, end: nat, q: Box, out: seq<nat>)
    requires begin <= end <= |recs|
    requires forall i :: 0 <= i < |recs| && (i < begin || end <= i) ==> !Intersects(recs[i].box, q)
    ensures var hits := Filter(Entries(recs[begin..end]), q);
            forall items :: multiset(items) == multiset(Entries(recs)) ==>
              multiset(out + Ids(hits)) == multiset(out) + multiset(Ids(Filter(items, q)))
    ensures recs == [] ==> out + Ids(Filter(Entries(recs[begin..end]), q)) == out
  {
    hide Filter, Ids, Intersects, Entries;
    var scanned := Entries(recs[begin..end]);
    var hits := Filter(scanned, q);
    forall x: Entry
      ensures multiset(hits)[x] == if Intersects(x.box, q) then multiset(Entries(recs))[x] else 0
    {
      FilterExact(scanned, q, x);
      if Intersects(x.box, q) { OnlyInside(recs, begin, end, q, x); }
    }
    forall items | multiset(items) == multiset(Entries(recs))
      ensures multiset(out + Ids(hits)) == multiset(out) + multiset(Ids(Filter(items, q)))
    {
      AgreesWithScan(hits, items, q);
    }
    if recs == [] { NoHits(q, out); }
  }

  lemma NoHits(q: Box, out: seq<nat>)
    ensures out + Ids(Filter(Entries([]), q)) == out
  {
  }

  lemma OnlyInside(recs: seq<Rec>, begin: nat, end: nat, q: Box, x: Entry)
    requires begin <= end <= |recs| && Intersects(x.box, q)
    requires forall i :: 0 <= i < |recs| && (i < begin || end <= i) ==> !Intersects(recs[i].box, q)
    ensures multiset(Entries(recs[begin..end]))[x] == multiset(Entries(recs))[x]
  {
    hide Intersects;
    var es := Entries(recs);
    assert es == es[..begin] + es[begin..end] + es[end..] && Entries(recs[begin..end]) == es[begin..end];
    assert x !in es[..begin] && x !in es[end..];
  }
}
