/** The linear scan every index is measured against, and facts about lists of entries. */
module LinearScan {
  import opened Geometry
  import Sorting

  /** The linear filter: the reference every index is measured against. */
  function Filter(items: seq<Entry>, q: Box): seq<Entry> {
    if items == [] then []
    else
      var rest := Filter(items[..|items| - 1], q);
      if Intersects(items[|items| - 1].box, q) then rest + [items[|items| - 1]] else rest
  }

  lemma {:induction false} FilterExact(items: seq<Entry>, q: Box, x: Entry)
    ensures multiset(Filter(items, q))[x] == if Intersects(x.box, q) then multiset(items)[x] else 0
  {
    if items != [] {
      var n := |items| - 1;
      FilterExact(items[..n], q, x);
      assert items == items[..n] + [items[n]];
    }
  }

  /** A scan reports exactly the zones that share a point with the query. */
  lemma {:induction false} FilterHolds(items: seq<Entry>, q: Box)
    ensures WellFormed(q) && (forall e :: e in items ==> WellFormed(e.box)) ==>
              forall e :: e in Filter(items, q) <==> e in items && SharePoint(e.box, q)
  {
    hide Intersects, SharePoint, WellFormed;
    if items != [] {
      var n := |items| - 1;
      FilterHolds(items[..n], q);
      assert items == items[..n] + [items[n]];
      if WellFormed(q) && WellFormed(items[n].box) {
        IntersectsExactly(items[n].box, q);
      }
    }
  }

  function Ids(es: seq<Entry>): (ids: seq<nat>)
    ensures |ids| == |es| && forall i :: 0 <= i < |es| ==> ids[i] == es[i].id
  {
    seq(|es|, i requires 0 <= i < |es| => es[i].id)
  }

  lemma IdsAppend(a: seq<Entry>, b: seq<Entry>)
    ensures Ids(a + b) == Ids(a) + Ids(b)
  {
  }

  lemma NoIds()
    ensures Ids([]) == []
  {
  }

  method PushMatches(items: seq<Entry>, q: Box, out: seq<nat>) returns (out': seq<nat>)
    ensures out' == out + Ids(Filter(items, q))
    ensures WellFormed(q) && (forall e :: e in items ==> WellFormed(e.box)) ==>
              forall e :: e in Filter(items, q) <==> e in items && SharePoint(e.box, q)
  {
    FilterHolds(items, q);
    out' := out;
    for i := 0 to |items|
      invariant out' == out + Ids(Filter(items[..i], q))
    {
      assert items[..i + 1][..i] == items[..i];
      if Intersects(items[i].box, q) {
        out' := out' + [items[i].id];
      }
    }
    assert items[..|items|] == items;
  }

  lemma IdsMember(es: seq<Entry>, id: nat)
    ensures id in Ids(es) <==> exists e :: e in es && e.id == id
  {
    if id in Ids(es) {
      var i :| 0 <= i < |es| && Ids(es)[i] == id;
      assert es[i] in es;
    }
    if e :| e in es && e.id == id {
      var i :| 0 <= i < |es| && es[i] == e;
      assert Ids(es)[i] == id;
    }
  }

  lemma TwiceCounted(es: seq<Entry>, i: nat, j: nat)
    requires i < j < |es| && es[i] == es[j]
    ensures multiset(es)[es[i]] >= 2
  {
    assert es == es[..j] + es[j..];
    assert es[i] in es[..j] && es[j] in es[j..];
  }

  /** No two entries share an id. */
  ghost predicate UniqueIds(c: multiset<Entry>) {
    && (forall x, y :: x in c && y in c && x.id == y.id ==> x == y)
    && (forall x :: x in c ==> c[x] == 1)
  }

  lemma FewerStayUnique(a: multiset<Entry>, b: multiset<Entry>)
    requires a <= b && UniqueIds(b)
    ensures UniqueIds(a)
  {
    forall x | x in a ensures x in b && a[x] == 1 {
      assert a[x] <= b[x];
    }
  }

  /** The position of the first entry with the id, or the number of entries. */
  function Find(items: seq<Entry>, id: nat, i: nat): (k: nat)
    requires i <= |items|
    ensures i <= k <= |items| && (k < |items| ==> items[k].id == id)
    ensures forall j :: i <= j < k ==> items[j].id != id
    decreases |items| - i
  {
    if i == |items| || items[i].id == id then i else Find(items, id, i + 1)
  }

  lemma {:induction false} SameIds(a: seq<Entry>, b: seq<Entry>)
    requires multiset(a) == multiset(b)
    ensures multiset(Ids(a)) == multiset(Ids(b))
  {
    if a == [] {
      assert multiset(b) == multiset{} && b == [];
    } else {
      var k := Sorting.MatchLast(a, b);
      SameIds(a[..|a| - 1], b[..k] + b[k + 1..]);
      IdsSplit(a, |a| - 1);
      IdsSplit(b, k);
      assert a[..|a| - 1] + a[|a|..] == a[..|a| - 1];
    }
  }

  lemma IdsSplit(s: seq<Entry>, k: nat)
    requires k < |s|
    ensures multiset(Ids(s)) == multiset(Ids(s[..k] + s[k + 1..])) + multiset{s[k].id}
  {
    assert Ids(s[..k] + s[k + 1..]) == Ids(s)[..k] + Ids(s)[k + 1..];
    Sorting.WithoutOne(Ids(s), k);
  }

  /** A query that reports every stored match as often as it is stored agrees with the scan of any listing. */
  ghost predicate Matches(hits: seq<Entry>, stored: multiset<Entry>, q: Box) {
    forall x: Entry :: multiset(hits)[x] == if Intersects(x.box, q) then stored[x] else 0
  }

  lemma AgreesWithScan(hits: seq<Entry>, items: seq<Entry>, q: Box)
    requires Matches(hits, multiset(items), q)
    ensures multiset(Ids(hits)) == multiset(Ids(Filter(items, q)))
  {
    hide Ids, Filter;
    forall x: Entry ensures multiset(hits)[x] == multiset(Filter(items, q))[x] {
      FilterExact(items, q, x);
    }
    SameIds(hits, Filter(items, q));
  }
}
