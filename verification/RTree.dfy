/** The R-tree: bulk loading, insertion, removal with re-insertion of orphans, and its agreement with the linear scan. */
module RTree {
  import opened Envelopes
  import opened Geometry
  import opened LinearScan
  import opened NodeSplit
  import opened RTreeNodes
  import Sorting
  import opened StrPacking
  import opened Wrappers

  const NO_ID: nat := 0xffff_ffff

  /** Ties between equal centres are broken by the id. */
  predicate KeyAtMost(a: real, idA: nat, b: real, idB: nat) {
    a < b || (a == b && idA <= idB)
  }

  function CentreLon(e: Envelope): real {
    if e.Empty? then 0.0 else (e.box.minLon + e.box.maxLon) / 2.0
  }

  function CentreLat(e: Envelope): real {
    if e.Empty? then 0.0 else (e.box.minLat + e.box.maxLat) / 2.0
  }

  predicate EntryByLon(a: Entry, b: Entry) {
    KeyAtMost(CentreLon(Env(a.box)), a.id, CentreLon(Env(b.box)), b.id)
  }

  predicate EntryByLat(a: Entry, b: Entry) {
    KeyAtMost(CentreLat(Env(a.box)), a.id, CentreLat(Env(b.box)), b.id)
  }

  /** A node is identified by the least id below it. */
  function LeastId(es: seq<Entry>): nat {
    if es == [] then NO_ID
    else
      var best, id := LeastId(es[..|es| - 1]), es[|es| - 1].id;
      if id < best then id else best
  }

  predicate NodeByLon(a: Node, b: Node) {
    KeyAtMost(CentreLon(a.box), LeastId(Flatten(a)), CentreLon(b.box), LeastId(Flatten(b)))
  }

  predicate NodeByLat(a: Node, b: Node) {
    KeyAtMost(CentreLat(a.box), LeastId(Flatten(a)), CentreLat(b.box), LeastId(Flatten(b)))
  }

  /** Centres decide, in longitude or in latitude, and the ids settle ties. */
  lemma EntryOrders(a: Entry, b: Entry)
    ensures a.box.minLon + a.box.maxLon < b.box.minLon + b.box.maxLon ==> EntryByLon(a, b) && !EntryByLon(b, a)
    ensures a.box.minLat + a.box.maxLat < b.box.minLat + b.box.maxLat ==> EntryByLat(a, b) && !EntryByLat(b, a)
    ensures a.box == b.box && a.id < b.id ==> EntryByLon(a, b) && !EntryByLon(b, a) && EntryByLat(a, b) && !EntryByLat(b, a)
  {
  }

  lemma EntryPreorders()
    ensures Sorting.Preorder(EntryByLon) && Sorting.Preorder(EntryByLat)
  {
  }

  /** The least id of a list, or the greatest there is. */
  lemma {:induction false} LeastIdExact(es: seq<Entry>)
    ensures LeastId(es) <= NO_ID && forall i :: 0 <= i < |es| ==> LeastId(es) <= es[i].id
    ensures LeastId(es) == NO_ID || exists i :: 0 <= i < |es| && es[i].id == LeastId(es)
  {
    if es != [] {
      var n := |es| - 1;
      LeastIdExact(es[..n]);
      if LeastId(es) != es[n].id && LeastId(es) != NO_ID {
        var i :| 0 <= i < n && es[..n][i].id == LeastId(es[..n]);
        assert es[i].id == LeastId(es);
      }
    }
  }

  lemma NodeOrders(a: Node, b: Node)
    requires a.box.Env? && b.box.Env?
    ensures var x, y := a.box.box, b.box.box;
            && (x.minLon + x.maxLon < y.minLon + y.maxLon ==> NodeByLon(a, b) && !NodeByLon(b, a))
            && (x.minLat + x.maxLat < y.minLat + y.maxLat ==> NodeByLat(a, b) && !NodeByLat(b, a))
            && (x == y && LeastId(Flatten(a)) < LeastId(Flatten(b)) ==> NodeByLon(a, b) && !NodeByLon(b, a))
  {
  }

  lemma NodePreorders()
    ensures Sorting.Preorder(NodeByLon) && Sorting.Preorder(NodeByLat)
  {
    hide LeastId, Flatten;
  }

  /** The nodes of every level above are tiled the same way. */
  lemma NodesInTileOrder(level: seq<Node>, max: nat)
    requires level != [] && max > 0
    ensures InTileOrder(Concat(Partition(level, max, NodeByLon, NodeByLat)), PerSlice(|level|, max), NodeByLon, NodeByLat)
  {
    hide Sorting.Preorder, NodeByLon, NodeByLat, Partition, PerSlice;
    NodePreorders();
    PartitionInOrder(level, max, NodeByLon, NodeByLat);
  }

  /** The leaves of a packed tree, read in order: slices from west to east, each from south to north. */
  lemma LeavesInTileOrder(items: seq<Entry>, max: nat)
    requires items != [] && max > 0
    ensures InTileOrder(Concat(Partition(items, max, EntryByLon, EntryByLat)), PerSlice(|items|, max), EntryByLon, EntryByLat)
  {
    hide Sorting.Preorder, EntryByLon, EntryByLat, Partition, PerSlice;
    EntryPreorders();
    PartitionInOrder(items, max, EntryByLon, EntryByLat);
  }

  // ------------------------------------------------------------------------------------ bulk loading

  function LeavesOf(groups: seq<seq<Entry>>): seq<Node> {
    seq(|groups|, i requires 0 <= i < |groups| => RefitLeaf(groups[i]))
  }

  function ParentsOf(groups: seq<seq<Node>>): seq<Node> {
    seq(|groups|, i requires 0 <= i < |groups| => RefitInner(groups[i]))
  }

  /** The node that packing level over level ends in. */
  function Top(level: seq<Node>, max: nat): Node
    requires level != [] && max >= 4
    decreases |level|
  {
    if |level| == 1 then level[0]
    else
      PartitionTiles(level, max, NodeByLon, NodeByLat);
      Top(ParentsOf(Partition(level, max, NodeByLon, NodeByLat)), max)
  }

  function PackedTree(items: seq<Entry>, max: nat): Node
    requires items != [] && max >= 4
  {
    PartitionTiles(items, max, EntryByLon, EntryByLat);
    Top(LeavesOf(Partition(items, max, EntryByLon, EntryByLat)), max)
  }

  /** The leaves over the groups. */
  lemma LeavesOver(groups: seq<seq<Entry>>, leaves: seq<Node>, max: nat)
    requires Tiles(groups, max) && |leaves| == |groups|
    requires forall i :: 0 <= i < |leaves| ==> leaves[i] == RefitLeaf(groups[i])
    ensures Level(leaves, 0, max) && All(leaves) == multiset(Concat(groups))
  {
    hide HullOf;
    AllLeaves(groups, leaves);
  }

  lemma {:induction false} AllLeaves(groups: seq<seq<Entry>>, leaves: seq<Node>)
    requires |leaves| == |groups| && forall i :: 0 <= i < |leaves| ==> leaves[i] == RefitLeaf(groups[i])
    ensures All(leaves) == multiset(Concat(groups))
  {
    hide HullOf, Contents, All;
    if groups == [] {
      assert leaves == [] && All([]) == multiset{} by { NoNodes(); }
    } else {
      AllLeaves(groups[1..], leaves[1..]);
      assert leaves == [leaves[0]] + leaves[1..];
      AllConcat([leaves[0]], leaves[1..]);
      AllOne(leaves[0]);
      OneLeaf(groups[0]);
    }
  }

  lemma NoNodes()
    ensures All([]) == multiset{}
  {
  }

  lemma OneLeaf(g: seq<Entry>)
    ensures Contents(RefitLeaf(g)) == multiset(g)
  {
    hide HullOf;
  }

  /** The next level over groups of nodes. */
  lemma ParentsOver(groups: seq<seq<Node>>, level: seq<Node>, parents: seq<Node>, h: nat, max: nat)
    requires Tiles(groups, max) && multiset(Concat(groups)) == multiset(level) && Level(level, h, max)
    requires |parents| == |groups| && forall i :: 0 <= i < |parents| ==> parents[i] == RefitInner(groups[i])
    ensures Level(parents, h + 1, max) && All(parents) == All(level)
  {
    hide HullOf, Contents, All, Shape;
    AllParents(groups, parents);
    AllPermuted(Concat(groups), level);
    Sorting.MultisetMembers(Concat(groups), level);
    forall i | 0 <= i < |parents| ensures Shape(parents[i], h + 1, max) && parents[i].Fill() >= 1 {
      GroupMembers(groups, i);
      LevelOf(groups[i], level, h, max, 0);
      RefitShape(groups[i], h + 1, max, 0);
    }
  }

  lemma {:induction false} AllParents(groups: seq<seq<Node>>, parents: seq<Node>)
    requires |parents| == |groups| && forall i :: 0 <= i < |parents| ==> parents[i] == RefitInner(groups[i])
    ensures All(parents) == All(Concat(groups))
  {
    hide HullOf, Contents, All;
    if groups == [] {
      assert parents == [];
    } else {
      AllParents(groups[1..], parents[1..]);
      assert parents == [parents[0]] + parents[1..];
      AllConcat([parents[0]], parents[1..]);
      AllOne(parents[0]);
      OneParent(groups[0]);
      AllConcat(groups[0], Concat(groups[1..]));
    }
  }

  lemma OneParent(g: seq<Node>)
    ensures Contents(RefitInner(g)) == All(g)
  {
    hide HullOf, All;
  }

  lemma {:induction false} GroupMembers<T>(groups: seq<seq<T>>, i: nat)
    requires i < |groups|
    ensures forall x :: x in groups[i] ==> x in Concat(groups)
  {
    if i > 0 {
      GroupMembers(groups[1..], i - 1);
    }
  }

  lemma OneGroup<T>(groups: seq<seq<T>>, items: seq<T>)
    requires |groups| == 1 && multiset(Concat(groups)) == multiset(items)
    ensures |groups[0]| == |items|
  {
    assert Concat(groups) == groups[0] + Concat(groups[1..]) && groups[1..] == [];
    Sorting.MultisetMembers(Concat(groups), items);
  }

  /** Packs entries into leaves, then levels over levels until one node remains. Every pass makes fewer nodes. */
  method Pack(items: seq<Entry>, max: nat) returns (root: Node, ghost h: nat)
    requires items != [] && max >= 4
    ensures root == PackedTree(items, max)
    ensures Shape(root, h, max) && Contents(root) == multiset(items)
    ensures root.Fill() >= 1 && (root.Inner? ==> |root.kids| >= 2)
  {
    hide HullOf, Contents, All, Shape, Level, Partition, Concat, Tiles, Top;
    var groups := StrPartition(items, max, EntryByLon, EntryByLat);
    PartitionTiles(items, max, EntryByLon, EntryByLat);
    var level: seq<Node> := [];
    for i := 0 to |groups|
      invariant |level| == i && forall j :: 0 <= j < i ==> level[j] == RefitLeaf(groups[j])
    {
      level := level + [RefitLeaf(groups[i])];
    }
    LeavesOver(groups, level, max);
    assert level == LeavesOf(groups);
    h := 0;
    while |level| > 1
      invariant level != [] && Level(level, h, max) && All(level) == multiset(items)
      invariant Top(level, max) == PackedTree(items, max)
      invariant |level| == 1 && level[0].Inner? ==> |level[0].kids| >= 2
      decreases |level|
    {
      var parents := StrPartition(level, max, NodeByLon, NodeByLat);
      PartitionTiles(level, max, NodeByLon, NodeByLat);
      var next: seq<Node> := [];
      for i := 0 to |parents|
        invariant |next| == i && forall j :: 0 <= j < i ==> next[j] == RefitInner(parents[j])
      {
        next := next + [RefitInner(parents[i])];
      }
      ParentsOver(parents, level, next, h, max);
      assert next == ParentsOf(parents);
      TopStep(level, max);
      if |parents| == 1 {
        OneGroup(parents, level);
      }
      level, h := next, h + 1;
    }
    root := level[0];
    TopStep(level, max);
    AllOne(root);
    assert level == [root];
    KidShape(level, h, max, 0);
  }

  lemma TopStep(level: seq<Node>, max: nat)
    requires level != [] && max >= 4
    ensures |level| == 1 ==> Top(level, max) == level[0]
    ensures var groups := Partition(level, max, NodeByLon, NodeByLat);
            groups != [] && (|level| > 1 ==> Top(level, max) == Top(ParentsOf(groups), max))
  {
    hide Partition;
    PartitionTiles(level, max, NodeByLon, NodeByLat);
  }

  // ------------------------------------------------------------------------------------------- tree

  class Index {
    var root: Node
    var count: nat
    const maxEntries: nat
    const minEntries: nat

    /** The depth of the leaves, and whether the tree was bulk loaded. */
    ghost var depth: nat
    ghost var packed: bool

    /** Everything stored. */
    ghost function Items(): multiset<Entry>
      reads this
    {
      Contents(root)
    }

    /**
     All leaves at one depth, boxes exact, no node overfull or empty below the root, an inner root with two children
     or more; and, unless bulk loaded, every node below the root filled to the minimum.
     */
    ghost predicate Sound()
      reads this
    {
      && Limits(maxEntries, minEntries) && Shape(root, depth, maxEntries) && (root.Inner? ==> |root.kids| >= 2)
      && (!packed ==> Filled(root, minEntries))
    }

    ghost predicate Valid()
      reads this
    {
      Sound() && count == |Items()|
    }

    constructor (max: nat)
      ensures Valid() && Items() == multiset{} && !packed
      ensures maxEntries == if max < 4 then 4 else max
    {
      maxEntries := if max < 4 then 4 else max;
      minEntries := (if max < 4 then 4 else max) / 2;
      root, count := Leaf(Empty, []), 0;
      depth, packed := 0, false;
    }

    /** Bulk loading replaces whatever was stored. */
    method Build(items: seq<Entry>)
      requires Valid()
      modifies this
      ensures Valid() && Items() == multiset(items)
      ensures root == if items == [] then Leaf(Empty, []) else PackedTree(items, maxEntries)
    {
      hide HullOf, Shape, Filled, PackedTree;
      if items == [] {
        EmptyLeaf(maxEntries, minEntries);
        root, count := Leaf(Empty, []), 0;
        depth, packed := 0, false;
        return;
      }
      root, depth := Pack(items, maxEntries);
      count, packed := |items|, true;
    }

    /** One insertion per item, into an empty tree. */
    method BuildIncremental(items: seq<Entry>)
      requires Valid()
      modifies this
      ensures Valid() && Items() == multiset(items) && !packed
    {
      hide HullOf, Shape, Filled, Contents;
      EmptyLeaf(maxEntries, minEntries);
      root, count := Leaf(Empty, []), 0;
      depth, packed := 0, false;
      for i := 0 to |items|
        invariant Valid() && Items() == multiset(items[..i]) && !packed
      {
        assert items[..i + 1] == items[..i] + [items[i]];
        Insert(items[i].id, items[i].box);
      }
      assert items[..|items|] == items;
    }

    method Insert(id: nat, box: Box)
      requires Sound()
      modifies this
      ensures Sound() && Items() == old(Items()) + multiset{Entry(id, box)} && packed == old(packed)
      ensures count == old(count) + 1 && Inserted(old(root), Entry(id, box), maxEntries, minEntries, root)
    {
      hide Grows, Contents, Shape, Filled, HullOf, SplitOk, BothFilled, SiblingContents;
      var n, sib := DoInsert(root, Entry(id, box), maxEntries, minEntries, depth);
      RootAfter(root, n, sib, depth, maxEntries, minEntries);
      if sib.Some? {
        root := RefitInner([n, sib.value]);
        depth := depth + 1;
      } else {
        root := n;
      }
      count := count + 1;
    }

    /** Removes one entry with the id; the entries of nodes that became too empty go back in from the top. */
    method Remove(id: nat) returns (found: bool)
      requires Valid()
      modifies this
      ensures Valid() && packed == old(packed)
      ensures !found ==> root == old(root) && Lacks(Items(), id)
      ensures found ==> exists e: Entry :: e.id == id && Items() + multiset{e} == old(Items())
    {
      hide Contents, Shape, Filled, HullOf, Removed, Lacks;
      var hit, n, orphans, e := RemoveNode(root, id, minEntries, [], depth, maxEntries);
      if !hit { return false; }
      RemovedMeans(root, n, orphans, e);
      SameKind(root, n, depth, maxEntries);
      root := n;
      count := count - 1;
      CollapseRoot();
      Reinsert(orphans);
      assert e.id == id && Items() + multiset{e} == old(Items());
      found := true;
    }

    /** Puts orphans back; they are still counted. */
    method Reinsert(orphans: seq<Entry>)
      requires Sound()
      modifies this
      ensures Sound() && packed == old(packed) && count == old(count)
      ensures Items() == old(Items()) + multiset(orphans)
    {
      hide Contents, Shape, Filled, HullOf;
      for i := 0 to |orphans|
        invariant Sound() && packed == old(packed) && Items() == old(Items()) + multiset(orphans[..i])
        invariant count == old(count)
      {
        assert orphans[..i + 1] == orphans[..i] + [orphans[i]];
        Insert(orphans[i].id, orphans[i].box);
        count := count - 1;
      }
      assert orphans[..|orphans|] == orphans;
    }

    /** An inner root with a single child gives way to it. */
    method CollapseRoot()
      requires Limits(maxEntries, minEntries) && Shape(root, depth, maxEntries) && (root.Inner? ==> root.kids != [])
      requires !packed ==> Filled(root, minEntries)
      modifies `root, `depth
      ensures Sound() && Items() == old(Items())
    {
      hide Contents, Shape, Filled, HullOf;
      var n := root;
      ghost var h := depth;
      while n.Inner? && |n.kids| == 1
        invariant Shape(n, h, maxEntries) && (n.Inner? ==> n.kids != []) && Contents(n) == old(Items())
        invariant !packed ==> Filled(n, minEntries)
        decreases n
      {
        Collapses(n, h, maxEntries, minEntries);
        n, h := n.kids[0], h - 1;
      }
      if n.Inner? && n.kids == [] {
        n := RefitLeaf([]);
      }
      root, depth := n, h;
    }

    /** Appends what a linear scan of the stored entries, in any order, would: each match as often as it is stored. */
    method Query(q: Box, out: seq<nat>) returns (out': seq<nat>)
      requires Valid()
      ensures forall items :: multiset(items) == Items() ==>
                multiset(out') == multiset(out) + multiset(Ids(Filter(items, q)))
    {
      hide Shape, Ids, Contents, RTreeNodes.Query, Filter;
      out' := QueryNode(root, q, out);
      forall x: Entry
        ensures multiset(RTreeNodes.Query(root, q))[x] == if Intersects(x.box, q) then Items()[x] else 0
      {
        QueryExact(root, depth, maxEntries, q, x);
      }
      forall items | multiset(items) == Items()
        ensures multiset(out') == multiset(out) + multiset(Ids(Filter(items, q)))
      {
        AgreesWithScan(RTreeNodes.Query(root, q), items, q);
      }
    }

    /** A tree built by insertions holds at least 2 * min^depth entries; any tree, at most max^(depth + 1). */
    lemma DepthBound()
      requires Valid()
      ensures !packed && depth >= 1 ==> count >= 2 * Power(minEntries, depth)
      ensures count <= Power(maxEntries, depth + 1)
    {
      hide HullOf, Power;
      FillBounds(root, depth, maxEntries, minEntries);
      if root.Inner? {
        LevelBounds(root.kids, depth - 1, maxEntries, minEntries);
        Times(2, |root.kids|, Power(minEntries, depth));
      }
    }
  }

  lemma EmptyLeaf(max: nat, min: nat)
    ensures Shape(Leaf(Empty, []), 0, max) && Filled(Leaf(Empty, []), min) && Contents(Leaf(Empty, [])) == multiset{}
  {
  }

  lemma SameKind(n: Node, m: Node, h: nat, max: nat)
    requires Shape(n, h, max) && Shape(m, h, max)
    ensures n.Inner? <==> m.Inner?
  {
    hide HullOf;
  }

  /** The root after an insertion: the grown root, or a new root over its two halves. */
  ghost predicate Inserted(root: Node, e: Entry, max: nat, min: nat, root': Node) {
    exists n: Node, sib: Option<Node> :: Grows(root, e, max, min, n, sib)
      && root' == if sib.Some? then RefitInner([n, sib.value]) else n
  }

  /** A tree has one successor: every choice and every split is settled by its tie rule. */
  lemma InsertionDetermined(root: Node, e: Entry, max: nat, min: nat, a: Node, b: Node)
    requires Inserted(root, e, max, min, a) && Inserted(root, e, max, min, b)
    ensures a == b
  {
    hide Grows, HullOf;
    var n: Node, s: Option<Node> :| Grows(root, e, max, min, n, s) && a == if s.Some? then RefitInner([n, s.value]) else n;
    var m: Node, t: Option<Node> :| Grows(root, e, max, min, m, t) && b == if t.Some? then RefitInner([m, t.value]) else m;
    GrowthDetermined(root, e, max, min, n, s, m, t);
  }

  /** What becomes the root after an insertion: the old root's replacement, or a new root over two halves. */
  lemma RootAfter(root: Node, n: Node, sib: Option<Node>, h: nat, max: nat, min: nat)
    requires Limits(max, min) && Shape(root, h, max) && SplitOk(n, sib, h, max, min)
    ensures sib.None? ==> Shape(n, h, max) && SiblingContents(sib) == multiset{} && (n.Inner? <==> root.Inner?)
    ensures sib.None? && BothFilled(n, sib, min) ==> Filled(n, min)
    ensures sib.Some? ==>
              var r := RefitInner([n, sib.value]);
              && Shape(r, h + 1, max) && Contents(r) == Contents(n) + SiblingContents(sib)
              && (BothFilled(n, sib, min) ==> Filled(r, min))
  {
    hide Shape, Contents, Filled, HullOf, All, Level, FilledLevel;
    SplitOkMeans(n, sib, h, max, min);
    SameKind(root, n, h, max);
    if sib.Some? {
      var kids := [n, sib.value];
      PairLevel(n, sib.value, h, max, min);
      RefitShape(kids, h + 1, max, min);
      assert kids == [n] + [sib.value];
      AllConcat([n], [sib.value]);
      AllOne(n);
      AllOne(sib.value);
    }
  }

  lemma PairLevel(a: Node, b: Node, h: nat, max: nat, min: nat)
    requires Shape(a, h, max) && Shape(b, h, max) && a.Fill() >= 1 && b.Fill() >= 1
    ensures Level([a, b], h, max)
    ensures a.Fill() >= min && b.Fill() >= min && Filled(a, min) && Filled(b, min) ==> FilledLevel([a, b], min)
  {
    hide Shape, Filled;
  }

  lemma RemovedMeans(root: Node, n: Node, orphans: seq<Entry>, e: Entry)
    requires Removed(root, n, [], orphans, e)
    ensures Contents(n) + multiset(orphans) + multiset{e} == Contents(root)
  {
    hide Contents;
  }

  lemma Collapses(n: Node, h: nat, max: nat, min: nat)
    requires Shape(n, h, max) && n.Inner? && |n.kids| == 1
    ensures h > 0 && Shape(n.kids[0], h - 1, max) && Contents(n.kids[0]) == Contents(n)
    ensures (n.kids[0].Inner? ==> n.kids[0].kids != []) && (Filled(n, min) ==> Filled(n.kids[0], min))
  {
    hide HullOf, All, Contents, Shape;
    InnerShape(n, h, max, min);
    KidShape(n.kids, h - 1, max, 0);
    assert n.kids == [n.kids[0]];
    AllOne(n.kids[0]);
  }

  /** Bulk loading builds the same tree in whatever order distinct zones are listed. */
  lemma PackingForgetsOrder(a: seq<Entry>, b: seq<Entry>, max: nat)
    requires a != [] && max >= 4 && multiset(a) == multiset(b) && UniqueIds(multiset(a))
    ensures b != [] && PackedTree(a, max) == PackedTree(b, max)
  {
    hide Partition, Top;
    forall x, y | x in a && y in a && EntryByLon(x, y) && EntryByLon(y, x) ensures x == y {
      assert x in multiset(a) && y in multiset(a);
    }
    PartitionForgetsOrder(a, b, max, EntryByLon, EntryByLat);
  }
}
