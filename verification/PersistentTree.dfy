/** The immutable quadtree behind the versioned index: path copying, guided removal, pruned queries. */
module PersistentTree {
  import opened Geometry
  import opened LinearScan
  import opened QuadNodes
  import Sorting
  import opened Wrappers

  const CAPACITY: nat := 8
  const MAX_DEPTH: nat := 14

  /** Values never change, so versions share whatever was not copied. */
  type Tree = Node<nat>

  // ------------------------------------------------------------------------------------------ split

  /** The entries that go to child k, in order; k == 4 are those that stay. */
  function Share(items: seq<Entry>, kids: seq<Tree>, k: nat): seq<Entry> {
    if items == [] then []
    else
      var rest := Share(items[..|items| - 1], kids, k);
      if Choose(kids, items[|items| - 1].box, 0) == k then rest + [items[|items| - 1]] else rest
  }

  function EmptyKids(region: Box, depth: nat): (kids: seq<Tree>)
    ensures |kids| == 4
  {
    [Node(Quadrant(region, 0), depth + 1, [], []), Node(Quadrant(region, 1), depth + 1, [], []),
     Node(Quadrant(region, 2), depth + 1, [], []), Node(Quadrant(region, 3), depth + 1, [], [])]
  }

  /** An overfull leaf pushes every entry that fits a quadrant into the first one it fits. */
  function Split(region: Box, depth: nat, items: seq<Entry>): Tree {
    var e := EmptyKids(region, depth);
    Node(region, depth, Share(items, e, 4),
         [e[0].(items := Share(items, e, 0)), e[1].(items := Share(items, e, 1)),
          e[2].(items := Share(items, e, 2)), e[3].(items := Share(items, e, 3))])
  }

  /** The redistribution loop. */
  method SplitLeaf(region: Box, depth: nat, items: seq<Entry>) returns (n: Tree)
    ensures n == Split(region, depth, items)
  {
    var e := EmptyKids(region, depth);
    var k0: seq<Entry>, k1: seq<Entry>, k2: seq<Entry>, k3: seq<Entry>, stay: seq<Entry> := [], [], [], [], [];
    for j := 0 to |items|
      invariant k0 == Share(items[..j], e, 0) && k1 == Share(items[..j], e, 1)
      invariant k2 == Share(items[..j], e, 2) && k3 == Share(items[..j], e, 3)
      invariant stay == Share(items[..j], e, 4)
    {
      assert items[..j + 1][..j] == items[..j];
      var i := Choose(e, items[j].box, 0);
      match i {
        case 0 => k0 := k0 + [items[j]];
        case 1 => k1 := k1 + [items[j]];
        case 2 => k2 := k2 + [items[j]];
        case 3 => k3 := k3 + [items[j]];
        case _ => stay := stay + [items[j]];
      }
    }
    assert items[..|items|] == items;
    n := Node(region, depth, stay, [e[0].(items := k0), e[1].(items := k1), e[2].(items := k2), e[3].(items := k3)]);
  }

  lemma {:induction false} ShareExact(items: seq<Entry>, kids: seq<Tree>, k: nat, x: Entry)
    ensures multiset(Share(items, kids, k))[x] == if Choose(kids, x.box, 0) == k then multiset(items)[x] else 0
  {
    if items != [] {
      var n := |items| - 1;
      ShareExact(items[..n], kids, k, x);
      assert items == items[..n] + [items[n]];
    }
  }

  /** A split keeps every entry, and puts it where its box says. */
  lemma SplitContents(region: Box, depth: nat, items: seq<Entry>)
    requires forall e :: e in items ==> FullyContains(region, e.box)
    ensures Contents(Split(region, depth, items)) == multiset(items) && Guided(Split(region, depth, items))
  {
    var n := Split(region, depth, items);
    forall x: Entry
      ensures Contents(n)[x] == multiset(items)[x]
    {
      SplitShares(region, depth, items, x);
    }
    SplitGuided(region, depth, items);
  }

  lemma SplitShares(region: Box, depth: nat, items: seq<Entry>, x: Entry)
    ensures Contents(Split(region, depth, items))[x] == multiset(items)[x]
  {
    hide Quadrant, Share;
    var e := EmptyKids(region, depth);
    ShareExact(items, e, 0, x);
    ShareExact(items, e, 1, x);
    ShareExact(items, e, 2, x);
    ShareExact(items, e, 3, x);
    ShareExact(items, e, 4, x);
  }

  lemma SplitGuided(region: Box, depth: nat, items: seq<Entry>)
    requires forall e :: e in items ==> FullyContains(region, e.box)
    requires Contents(Split(region, depth, items)) == multiset(items)
    ensures Guided(Split(region, depth, items))
  {
    hide Quadrant, Contents, Share, Choose, Split;
    SplitShape(region, depth, items);
    var n := Split(region, depth, items);
    forall i, x | 0 <= i < 4 && x in Contents(n.kids[i]) ensures Choose(n.kids, x.box, 0) == i {
      SplitChoice(region, depth, items, i, x);
    }
    forall i | 0 <= i < 4 ensures Guided(n.kids[i]) {
      SplitKidGuided(region, depth, items, i);
    }
  }

  lemma SplitShape(region: Box, depth: nat, items: seq<Entry>)
    ensures var n := Split(region, depth, items); n.region == region && |n.kids| == 4
  {
  }

  lemma SplitChoice(region: Box, depth: nat, items: seq<Entry>, i: nat, x: Entry)
    requires i < 4 && x in Contents(Split(region, depth, items).kids[i])
    ensures Choose(Split(region, depth, items).kids, x.box, 0) == i
  {
    hide Quadrant;
    var e := EmptyKids(region, depth);
    ShareExact(items, e, i, x);
    SameChoice(Split(region, depth, items).kids, e, x.box, 0);
  }

  lemma SplitKidGuided(region: Box, depth: nat, items: seq<Entry>, i: nat)
    requires i < 4
    ensures Guided(Split(region, depth, items).kids[i])
  {
    hide Quadrant;
    var e, k := EmptyKids(region, depth), Split(region, depth, items).kids[i];
    forall x | x in Contents(k) ensures FullyContains(k.region, x.box) {
      ShareExact(items, e, i, x);
      ChosenContains(e, x.box, 0);
    }
  }

  // ----------------------------------------------------------------------------------------- insert

  /** Path copying: new nodes along the path the box selects, everything else shared. Only the root may widen. */
  function Insert(n: Tree, e: Entry, atRoot: bool): Tree
    requires Guided(n)
    decreases n
  {
    var region := if atRoot && !FullyContains(n.region, e.box) then Expand(n.region, e.box) else n.region;
    if !n.Leaf() then
      var i := Choose(n.kids, e.box, 0);
      if i < 4 then Node(region, n.depth, n.items, n.kids[i := Insert(n.kids[i], e, false)])
      else Node(region, n.depth, n.items + [e], n.kids)
    else
      var items := n.items + [e];
      if |items| > CAPACITY && n.depth < MAX_DEPTH then Split(region, n.depth, items)
      else Node(region, n.depth, items, [])
  }

  method InsertCopy(n: Tree, e: Entry, atRoot: bool) returns (copy: Tree)
    requires Guided(n)
    ensures copy == Insert(n, e, atRoot)
    decreases n
  {
    var region := n.region;
    if atRoot && !FullyContains(region, e.box) { region := Expand(region, e.box); }
    if !n.Leaf() {
      for i := 0 to 4
        invariant Choose(n.kids, e.box, 0) == Choose(n.kids, e.box, i)
      {
        if FullyContains(n.kids[i].region, e.box) {
          var kid := InsertCopy(n.kids[i], e, false);
          return Node(region, n.depth, n.items, n.kids[i := kid]);
        }
      }
      return Node(region, n.depth, n.items + [e], n.kids);
    }
    if |n.items + [e]| > CAPACITY && n.depth < MAX_DEPTH {
      copy := SplitLeaf(region, n.depth, n.items + [e]);
    } else {
      copy := Node(region, n.depth, n.items + [e], []);
    }
  }

  /** Inserting adds exactly the entry and keeps the tree guided. */
  lemma {:induction false} InsertKeeps(n: Tree, e: Entry, atRoot: bool)
    requires Guided(n) && (atRoot || FullyContains(n.region, e.box))
    ensures Contents(Insert(n, e, atRoot)) == Contents(n) + multiset{e}
    ensures Guided(Insert(n, e, atRoot)) && (!atRoot ==> Insert(n, e, atRoot).region == n.region)
    decreases n
  {
    hide Contents, Choose, FullyContains, Expand, Split;
    var region := if atRoot && !FullyContains(n.region, e.box) then Expand(n.region, e.box) else n.region;
    WidenContains(n.region, e.box);
    forall x | x in Contents(n) || x == e ensures FullyContains(region, x.box) {
      if x in Contents(n) { WidenKeeps(n.region, e.box, x.box); }
    }
    if !n.Leaf() {
      var i := Choose(n.kids, e.box, 0);
      if i < 4 {
        ChosenContains(n.kids, e.box, 0);
        InsertKeeps(n.kids[i], e, false);
        InsertBelow(n, region, e, i, Insert(n.kids[i], e, false));
      } else {
        InsertHere(n, region, e);
      }
    } else {
      LeafContents(n.region, n.depth, n.items);
      LeafContents(region, n.depth, n.items + [e]);
      if |n.items + [e]| > CAPACITY && n.depth < MAX_DEPTH {
        SplitContents(region, n.depth, n.items + [e]);
        SplitShape(region, n.depth, n.items + [e]);
      }
    }
  }

  /** Depths count from the parent, and a leaf above the maximum depth holds at most the capacity and its depth. */
  ghost predicate Bounded(n: Tree) {
    && (n.kids == [] && n.depth < MAX_DEPTH ==> |n.items| <= CAPACITY + n.depth)
    && forall i :: 0 <= i < |n.kids| ==> n.kids[i].depth == n.depth + 1 && Bounded(n.kids[i])
  }

  /** Leaves split when they must: one split may leave a child one above its parent's bound, and no more. */
  lemma {:induction false} InsertBounded(n: Tree, e: Entry, atRoot: bool)
    requires Guided(n) && Bounded(n)
    ensures Bounded(Insert(n, e, atRoot)) && Insert(n, e, atRoot).depth == n.depth
    decreases n
  {
    hide Contents, Choose, FullyContains, Expand, Split, Guided;
    GuidedKids(n);
    var region := if atRoot && !FullyContains(n.region, e.box) then Expand(n.region, e.box) else n.region;
    if !n.Leaf() {
      var i := Choose(n.kids, e.box, 0);
      if i < 4 {
        InsertBounded(n.kids[i], e, false);
      }
    } else if |n.items + [e]| > CAPACITY && n.depth < MAX_DEPTH {
      SplitBounded(region, n.depth, n.items + [e]);
    }
  }

  lemma GuidedKids(n: Tree)
    requires Guided(n)
    ensures |n.kids| == 0 || |n.kids| == 4
    ensures forall i :: 0 <= i < |n.kids| ==> Guided(n.kids[i])
  {
    hide Contents, Choose, FullyContains;
  }

  lemma {:induction false} ShareShorter(items: seq<Entry>, kids: seq<Tree>, k: nat)
    ensures |Share(items, kids, k)| <= |items|
  {
    if items != [] {
      ShareShorter(items[..|items| - 1], kids, k);
    }
  }

  lemma SplitBounded(region: Box, depth: nat, items: seq<Entry>)
    requires |items| <= CAPACITY + depth + 1
    ensures Bounded(Split(region, depth, items)) && Split(region, depth, items).depth == depth
  {
    hide Quadrant, Share;
    var e := EmptyKids(region, depth);
    ShareShorter(items, e, 0);
    ShareShorter(items, e, 1);
    ShareShorter(items, e, 2);
    ShareShorter(items, e, 3);
  }

  /** Structural sharing: below a divided node, an insertion replaces at most the child it goes into. */
  lemma InsertShares(n: Tree, e: Entry, atRoot: bool)
    requires Guided(n) && n.kids != []
    ensures var m := Insert(n, e, atRoot);
            && |n.kids| == |m.kids| == 4 && Choose(n.kids, e.box, 0) <= 4
            && forall i :: 0 <= i < 4 && i != Choose(n.kids, e.box, 0) ==> m.kids[i] == n.kids[i]
  {
    hide Contents, FullyContains, Expand, Split, Guided;
    GuidedKids(n);
  }

  lemma WidenContains(region: Box, box: Box)
    ensures FullyContains(Expand(region, box), box)
  {
  }

  lemma WidenKeeps(region: Box, box: Box, x: Box)
    requires FullyContains(region, x)
    ensures FullyContains(Expand(region, box), x)
  {
  }

  lemma InsertHere(n: Tree, region: Box, e: Entry)
    requires Guided(n) && |n.kids| == 4
    requires forall x :: x in Contents(n) || x == e ==> FullyContains(region, x.box)
    ensures var m := Node(region, n.depth, n.items + [e], n.kids); Contents(m) == Contents(n) + multiset{e} && Guided(m)
  {
    var m := Node(region, n.depth, n.items + [e], n.kids);
    assert Contents(m) == Contents(n) + multiset{e};
  }

  lemma InsertBelow(n: Tree, region: Box, e: Entry, i: nat, k: Tree)
    requires Guided(n) && |n.kids| == 4 && i < 4 && Choose(n.kids, e.box, 0) == i
    requires Guided(k) && k.region == n.kids[i].region && Contents(k) == Contents(n.kids[i]) + multiset{e}
    requires forall x :: x in Contents(n) || x == e ==> FullyContains(region, x.box)
    ensures var m := Node(region, n.depth, n.items, n.kids[i := k]); Contents(m) == Contents(n) + multiset{e} && Guided(m)
  {
    hide Contents, Choose, FullyContains;
    var m := Node(region, n.depth, n.items, n.kids[i := k]);
    KidReplaced(n, region, i, k);
    Cancel(Contents(m), Contents(n), Contents(n.kids[i]), multiset{e});
    KidsStayGuided(n, m, i);
  }

  // ----------------------------------------------------------------------------------------- remove

  /** Guided removal: copies the one path on which the box can be. */
  function Remove(n: Tree, id: nat, box: Box): Option<Tree>
    requires Guided(n)
    decreases n
  {
    var k := Find(n.items, id, 0);
    if k < |n.items| then Some(Node(n.region, n.depth, n.items[..k] + n.items[k + 1..], n.kids))
    else if n.Leaf() then None
    else
      var i := Choose(n.kids, box, 0);
      if i == 4 then None
      else
        match Remove(n.kids[i], id, box)
        case None => None
        case Some(nk) => Some(Node(n.region, n.depth, n.items, n.kids[i := nk]))
  }

  method RemoveCopy(n: Tree, id: nat, box: Box) returns (r: Option<Tree>)
    requires Guided(n)
    ensures r == Remove(n, id, box)
    decreases n
  {
    hide Guided, FullyContains, Find, Choose;
    for i := 0 to |n.items|
      invariant Find(n.items, id, 0) == Find(n.items, id, i)
    {
      FindStep(n.items, id, i);
      if n.items[i].id == id {
        return Some(Node(n.region, n.depth, n.items[..i] + n.items[i + 1..], n.kids));
      }
    }
    FindStep(n.items, id, |n.items|);
    if n.Leaf() { return None; }
    FourGuided(n);
    for i := 0 to 4
      invariant Choose(n.kids, box, 0) == Choose(n.kids, box, i)
    {
      ChooseStep(n.kids, box, i);
      if FullyContains(n.kids[i].region, box) {
        var nk := RemoveCopy(n.kids[i], id, box);
        if nk.None? { return None; }
        return Some(Node(n.region, n.depth, n.items, n.kids[i := nk.value]));
      }
    }
    ChooseStep(n.kids, box, 4);
    return None;
  }

  lemma FindStep(items: seq<Entry>, id: nat, i: nat)
    requires i <= |items|
    ensures Find(items, id, i) == if i == |items| || items[i].id == id then i else Find(items, id, i + 1)
  {
  }

  lemma FourGuided(n: Tree)
    requires Guided(n) && n.kids != []
    ensures |n.kids| == 4 && forall i :: 0 <= i < 4 ==> Guided(n.kids[i])
  {
    hide Contents, Choose, FullyContains;
  }

  /** Guided removal always finds a stored zone, however the tree was split and widened since, and removes it alone. */
  lemma {:induction false} RemoveFinds(n: Tree, e: Entry)
    requires Guided(n) && UniqueIds(Contents(n)) && e in Contents(n)
    ensures Remove(n, e.id, e.box).Some?
    ensures var m := Remove(n, e.id, e.box).value;
            Guided(m) && m.region == n.region && Contents(m) + multiset{e} == Contents(n)
    decreases n
  {
    hide Contents, Choose, FullyContains, Guided, UniqueIds, Find;
    var k := Find(n.items, e.id, 0);
    if k < |n.items| {
      SameIdSameEntry(n, n.items[k], e);
      RemoveHere(n, k);
    } else {
      InSelectedKid(n, e);
      var i := Choose(n.kids, e.box, 0);
      KidWithin(n, i);
      FewerStayUnique(Contents(n.kids[i]), Contents(n));
      RemoveFinds(n.kids[i], e);
      RemoveBelow(n, e, i, Remove(n.kids[i], e.id, e.box).value);
    }
  }

  lemma SameIdSameEntry(n: Tree, x: Entry, e: Entry)
    requires UniqueIds(Contents(n)) && x in n.items && e in Contents(n) && x.id == e.id
    ensures x == e
  {
    ItemsWithin(n);
    assert x in multiset(n.items);
  }

  lemma InSelectedKid(n: Tree, e: Entry)
    requires Guided(n) && e in Contents(n) && Find(n.items, e.id, 0) == |n.items|
    ensures |n.kids| == 4 && Choose(n.kids, e.box, 0) < 4
    ensures var kid := n.kids[Choose(n.kids, e.box, 0)]; e in Contents(kid) && Guided(kid)
  {
    SomewhereBelow(n, e);
  }

  lemma RemoveHere(n: Tree, k: nat)
    requires Guided(n) && k < |n.items|
    ensures var m := Node(n.region, n.depth, n.items[..k] + n.items[k + 1..], n.kids);
            Guided(m) && Contents(m) + multiset{n.items[k]} == Contents(n)
  {
    Sorting.WithoutOne(n.items, k);
    var m := Node(n.region, n.depth, n.items[..k] + n.items[k + 1..], n.kids);
    assert Contents(m) + multiset{n.items[k]} == Contents(n);
  }

  lemma RemoveBelow(n: Tree, e: Entry, i: nat, k: Tree)
    requires Guided(n) && |n.kids| == 4 && i < 4 && Choose(n.kids, e.box, 0) == i
    requires Guided(k) && k.region == n.kids[i].region && Contents(k) + multiset{e} == Contents(n.kids[i])
    ensures var m := Node(n.region, n.depth, n.items, n.kids[i := k]); Contents(m) + multiset{e} == Contents(n) && Guided(m)
  {
    hide Contents, Choose, FullyContains;
    var m := Node(n.region, n.depth, n.items, n.kids[i := k]);
    KidReplaced(n, n.region, i, k);
    Cancel(Contents(n), Contents(m), Contents(k), multiset{e});
    KidsStayGuided(n, m, i);
  }
}
