/**
 Quadtree nodes: four children or none, every entry below the region of all nodes above it, in the child its box
 selects. The depth is whatever a tree records on its nodes: a number in the versioned index, nothing in the plain
 quadtree.
 */
module QuadNodes {
  import opened Geometry
  import opened LinearScan

  datatype Node<D> = Node(region: Box, depth: D, items: seq<Entry>, kids: seq<Node<D>>) {
    predicate Leaf() {
      kids == []
    }
  }

  /** The first child whose region fully contains the box, or the number of children. */
  function Choose<D>(kids: seq<Node<D>>, box: Box, i: nat): (k: nat)
    requires i <= |kids|
    ensures i <= k <= |kids|
    decreases |kids| - i
  {
    if i == |kids| || FullyContains(kids[i].region, box) then i else Choose(kids, box, i + 1)
  }

  /** All entries of a subtree. */
  ghost function Contents<D>(n: Node<D>): multiset<Entry> {
    multiset(n.items) +
    if |n.kids| == 4 then Contents(n.kids[0]) + Contents(n.kids[1]) + Contents(n.kids[2]) + Contents(n.kids[3])
    else multiset{}
  }

  /** Entries lie inside the region of every node above them: what pruning by region relies on. */
  ghost predicate Inside<D>(n: Node<D>) {
    && (|n.kids| == 0 || |n.kids| == 4)
    && (forall e :: e in Contents(n) ==> FullyContains(n.region, e.box))
    && (forall i :: 0 <= i < |n.kids| ==> Inside(n.kids[i]))
  }

  /** Entries lie inside the region of every node above them, and each sits in the child its box selects. */
  ghost predicate Guided<D>(n: Node<D>) {
    && (|n.kids| == 0 || |n.kids| == 4)
    && (forall e :: e in Contents(n) ==> FullyContains(n.region, e.box))
    && (forall i, e :: 0 <= i < |n.kids| && e in Contents(n.kids[i]) ==> Choose(n.kids, e.box, 0) == i)
    && (forall i :: 0 <= i < |n.kids| ==> Guided(n.kids[i]))
  }

  lemma {:induction false} GuidedInside<D>(n: Node<D>)
    requires Guided(n)
    ensures Inside(n)
  {
    forall i | 0 <= i < |n.kids| ensures Inside(n.kids[i]) {
      GuidedInside(n.kids[i]);
    }
  }

  lemma KidWithin<D>(n: Node<D>, i: nat)
    requires i < |n.kids| == 4
    ensures Contents(n.kids[i]) <= Contents(n)
  {
  }

  /** An entry of the subtree is stored here or in some child. */
  lemma SomewhereBelow<D>(n: Node<D>, e: Entry)
    requires e in Contents(n)
    ensures e in n.items || (|n.kids| == 4 && exists i :: 0 <= i < 4 && e in Contents(n.kids[i]))
  {
  }

  /** Replacing one child changes the contents by what that child gained and lost. */
  lemma ReplaceKid<D>(n: Node<D>, i: nat, k: Node<D>)
    requires i < |n.kids| == 4
    ensures Contents(n.(kids := n.kids[i := k])) + Contents(n.kids[i]) == Contents(n) + Contents(k)
  {
    var m := n.(kids := n.kids[i := k]);
    assert m.kids[i] == k && forall j :: 0 <= j < 4 && j != i ==> m.kids[j] == n.kids[j];
  }

  /** The choice only looks at the regions of the children. */
  lemma {:induction false} SameChoice<D>(a: seq<Node<D>>, b: seq<Node<D>>, box: Box, i: nat)
    requires |a| == |b| && i <= |a| && forall j :: 0 <= j < |a| ==> a[j].region == b[j].region
    ensures Choose(a, box, i) == Choose(b, box, i)
    decreases |a| - i
  {
    if i < |a| {
      SameChoice(a, b, box, i + 1);
    }
  }

  lemma {:induction false} ChosenContains<D>(kids: seq<Node<D>>, box: Box, i: nat)
    requires i <= |kids| && Choose(kids, box, i) < |kids|
    ensures FullyContains(kids[Choose(kids, box, i)].region, box)
    decreases |kids| - i
  {
    if !FullyContains(kids[i].region, box) {
      ChosenContains(kids, box, i + 1);
    }
  }

  lemma ChooseStep<D>(kids: seq<Node<D>>, box: Box, i: nat)
    requires i <= |kids|
    ensures Choose(kids, box, i) ==
              if i == |kids| || FullyContains(kids[i].region, box) then i else Choose(kids, box, i + 1)
  {
    hide FullyContains;
  }

  lemma LeafContents<D>(region: Box, depth: D, items: seq<Entry>)
    ensures Contents(Node(region, depth, items, [])) == multiset(items)
  {
  }

  lemma Cancel(a: multiset<Entry>, b: multiset<Entry>, common: multiset<Entry>, extra: multiset<Entry>)
    requires a + common == b + (common + extra)
    ensures a == b + extra
  {
    forall x: Entry ensures a[x] == (b + extra)[x] {
      assert (a + common)[x] == (b + (common + extra))[x];
    }
  }

  lemma KidReplaced<D>(n: Node<D>, region: Box, i: nat, k: Node<D>)
    requires i < |n.kids| == 4
    ensures Contents(Node(region, n.depth, n.items, n.kids[i := k])) + Contents(n.kids[i]) == Contents(n) + Contents(k)
  {
    ReplaceKid(n, i, k);
  }

  lemma KidsStayGuided<D>(n: Node<D>, m: Node<D>, i: nat)
    requires Guided(n) && |n.kids| == |m.kids| == 4 && i < 4 && Guided(m.kids[i])
    requires m.kids == n.kids[i := m.kids[i]] && m.kids[i].region == n.kids[i].region
    requires forall x :: x in Contents(m.kids[i]) ==> Choose(n.kids, x.box, 0) == i
    ensures forall j, x :: 0 <= j < 4 && x in Contents(m.kids[j]) ==> Choose(m.kids, x.box, 0) == j
    ensures forall j :: 0 <= j < 4 ==> Guided(m.kids[j])
  {
    hide Contents, Choose, FullyContains;
    forall j, x | 0 <= j < 4 && x in Contents(m.kids[j]) ensures Choose(m.kids, x.box, 0) == j {
      SameChoice(m.kids, n.kids, x.box, 0);
      assert j != i ==> m.kids[j] == n.kids[j];
    }
  }

  lemma ItemsWithin<D>(n: Node<D>)
    ensures multiset(n.items) <= Contents(n)
    ensures forall j :: 0 <= j < |n.items| ==> n.items[j] in multiset(n.items)
  {
  }

  // ------------------------------------------------------------------------------------------ query

  /** The entries a pruned query reports, in the order of the traversal. */
  function Query<D>(n: Node<D>, q: Box): seq<Entry>
    decreases n
  {
    if !Intersects(n.region, q) then []
    else
      Filter(n.items, q) +
      if |n.kids| == 4 then Query(n.kids[0], q) + Query(n.kids[1], q) + Query(n.kids[2], q) + Query(n.kids[3], q)
      else []
  }

  method QueryNode<D>(n: Node<D>, q: Box, out: seq<nat>) returns (out': seq<nat>)
    requires Inside(n)
    ensures out' == out + Ids(Query(n, q))
    decreases n
  {
    hide Inside, Ids, Filter;
    out' := out;
    if !Intersects(n.region, q) {
      IdsAppend([], []);
      NoIds();
      return;
    }
    out' := PushMatches(n.items, q, out');
    if !n.Leaf() {
      FourInside(n);
      ghost var f, a, b, c, d := Filter(n.items, q), Query(n.kids[0], q), Query(n.kids[1], q), Query(n.kids[2], q), Query(n.kids[3], q);
      out' := QueryNode(n.kids[0], q, out');
      out' := QueryNode(n.kids[1], q, out');
      out' := QueryNode(n.kids[2], q, out');
      out' := QueryNode(n.kids[3], q, out');
      FiveParts(out, f, a, b, c, d);
    } else {
      assert Query(n, q) == Filter(n.items, q) + [] == Filter(n.items, q);
    }
  }

  lemma FourInside<D>(n: Node<D>)
    requires Inside(n) && !n.Leaf()
    ensures |n.kids| == 4 && forall i :: 0 <= i < 4 ==> Inside(n.kids[i])
  {
  }

  lemma FiveParts(out: seq<nat>, f: seq<Entry>, a: seq<Entry>, b: seq<Entry>, c: seq<Entry>, d: seq<Entry>)
    ensures out + Ids(f) + Ids(a) + Ids(b) + Ids(c) + Ids(d) == out + Ids(f + (a + b + c + d))
  {
    hide Ids;
    IdsAppend(f, a + b + c + d);
    IdsAppend(a + b + c, d);
    IdsAppend(a + b, c);
    IdsAppend(a, b);
  }

  /** A pruned query reports exactly what a linear scan over all entries would, as often. */
  lemma {:induction false} QueryExact<D>(n: Node<D>, q: Box, x: Entry)
    requires Inside(n)
    ensures multiset(Query(n, q))[x] == if Intersects(x.box, q) then Contents(n)[x] else 0
    decreases n
  {
    if !Intersects(n.region, q) {
      if Intersects(x.box, q) && x in Contents(n) {
        PruningIsSound(n.region, x.box, q);
      }
    } else {
      FilterExact(n.items, q, x);
      if !n.Leaf() {
        QueryExact(n.kids[0], q, x);
        QueryExact(n.kids[1], q, x);
        QueryExact(n.kids[2], q, x);
        QueryExact(n.kids[3], q, x);
      }
    }
  }

  /** The ids reported by a query over entries with distinct ids: each match once. */
  lemma QueryIds<D>(n: Node<D>, q: Box)
    requires Inside(n) && UniqueIds(Contents(n))
    ensures forall id :: id in Ids(Query(n, q)) <==> exists e :: e in Contents(n) && e.id == id && Intersects(e.box, q)
    ensures forall i, j :: 0 <= i < j < |Ids(Query(n, q))| ==> Ids(Query(n, q))[i] != Ids(Query(n, q))[j]
  {
    hide Query, Contents, Inside, Intersects;
    var es := Query(n, q);
    forall e: Entry ensures e in es <==> e in Contents(n) && Intersects(e.box, q) {
      QueryExact(n, q, e);
      assert e in es <==> e in multiset(es);
    }
    forall id ensures id in Ids(es) <==> exists e :: e in es && e.id == id {
      IdsMember(es, id);
    }
    forall i, j | 0 <= i < j < |es| ensures es[i].id != es[j].id {
      QueryExact(n, q, es[i]);
      if es[i] == es[j] {
        TwiceCounted(es, i, j);
      }
      assert es[i] in es && es[j] in es;
    }
  }
}
