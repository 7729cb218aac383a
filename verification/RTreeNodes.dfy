/** R-tree nodes: insertion with splits, removal with condensing, and pruned queries. */
module RTreeNodes {
  import opened Envelopes
  import opened Geometry
  import opened LinearScan
  import opened NodeSplit
  import Sorting
  import opened Wrappers

  datatype Node = Leaf(box: Envelope, entries: seq<Entry>) | Inner(box: Envelope, kids: seq<Node>) {
    function Fill(): nat {
      if Leaf? then |entries| else |kids|
    }
  }

  function EntryBox(e: Entry): Envelope {
    Env(e.box)
  }

  function KidBox(n: Node): Envelope {
    n.box
  }

  function RefitLeaf(entries: seq<Entry>): Node {
    Leaf(HullOf(entries, EntryBox), entries)
  }

  function RefitInner(kids: seq<Node>): Node {
    Inner(HullOf(kids, KidBox), kids)
  }

  ghost function Contents(n: Node): multiset<Entry> {
    match n
    case Leaf(_, es) => multiset(es)
    case Inner(_, kids) => All(kids)
  }

  ghost function All(kids: seq<Node>): multiset<Entry> {
    if kids == [] then multiset{} else All(kids[..|kids| - 1]) + Contents(kids[|kids| - 1])
  }

  /** All leaves h levels down, boxes exact, nodes below non-empty, and no node over the maximum. */
  ghost predicate Shape(n: Node, h: nat, max: nat) {
    && n.Fill() <= max
    && match n
       case Leaf(box, es) => h == 0 && box == HullOf(es, EntryBox)
       case Inner(box, kids) => h > 0 && box == HullOf(kids, KidBox) && Level(kids, h - 1, max)
  }

  ghost predicate Level(kids: seq<Node>, h: nat, max: nat) {
    forall i :: 0 <= i < |kids| ==> Shape(kids[i], h, max) && kids[i].Fill() >= 1
  }

  /** Every node below this one holds at least the minimum. */
  ghost predicate Filled(n: Node, min: nat) {
    n.Inner? ==> FilledLevel(n.kids, min)
  }

  ghost predicate FilledLevel(kids: seq<Node>, min: nat) {
    forall i :: 0 <= i < |kids| ==> kids[i].Fill() >= min && Filled(kids[i], min)
  }

  // ---------------------------------------------------------------------------------- lists of nodes

  lemma AllPush(s: seq<Node>, k: Node)
    ensures All(s + [k]) == All(s) + Contents(k) && All([]) == multiset{}
  {
    hide Contents;
    assert (s + [k])[..|s|] == s;
  }

  lemma {:induction false} AllConcat(a: seq<Node>, b: seq<Node>)
    ensures All(a + b) == All(a) + All(b)
  {
    hide All, Contents;
    if b == [] {
      assert a + b == a;
      AllPush([], RefitLeaf([]));
    } else {
      var init, k := b[..|b| - 1], b[|b| - 1];
      AllConcat(a, init);
      AllPush(a + init, k);
      AllPush(init, k);
      assert b == init + [k] && a + b == (a + init) + [k];
    }
  }

  lemma AllOne(k: Node)
    ensures All([k]) == Contents(k)
  {
    hide Contents;
    assert [k][..0] == [];
    assert All([]) == multiset{};
  }

  lemma AllAt(kids: seq<Node>, i: nat)
    requires i < |kids|
    ensures All(kids) == All(kids[..i]) + Contents(kids[i]) + All(kids[i + 1..])
  {
    hide Contents, All;
    assert kids == kids[..i] + ([kids[i]] + kids[i + 1..]);
    AllConcat(kids[..i], [kids[i]] + kids[i + 1..]);
    AllConcat([kids[i]], kids[i + 1..]);
    AllOne(kids[i]);
  }

  lemma AllWithout(kids: seq<Node>, i: nat)
    requires i < |kids|
    ensures All(kids) == All(kids[..i] + kids[i + 1..]) + Contents(kids[i])
  {
    hide Contents, All;
    AllAt(kids, i);
    AllConcat(kids[..i], kids[i + 1..]);
  }

  lemma AllReplaced(kids: seq<Node>, i: nat, k: Node)
    requires i < |kids|
    ensures All(kids[i := k]) + Contents(kids[i]) == All(kids) + Contents(k)
  {
    hide Contents, All;
    var m := kids[i := k];
    AllAt(kids, i);
    AllAt(m, i);
    assert m[..i] == kids[..i] && m[i + 1..] == kids[i + 1..];
  }

  /** Only the multiset of nodes matters. */
  lemma {:induction false} AllPermuted(a: seq<Node>, b: seq<Node>)
    requires multiset(a) == multiset(b)
    ensures All(a) == All(b)
  {
    hide Contents;
    Sorting.MultisetMembers(a, b);
    if a != [] {
      var k := Sorting.MatchLast(a, b);
      AllPermuted(a[..|a| - 1], b[..k] + b[k + 1..]);
      AllWithout(b, k);
    }
  }

  lemma AllDivided(a: seq<Node>, b: seq<Node>, whole: seq<Node>)
    requires multiset(a) + multiset(b) == multiset(whole)
    ensures All(a) + All(b) == All(whole)
    ensures forall k :: k in a || k in b ==> k in whole
  {
    hide Contents, All;
    AllConcat(a, b);
    AllPermuted(a + b, whole);
    Sorting.MultisetMembers(a + b, whole);
    assert forall k :: k in a || k in b ==> k in a + b;
  }

  lemma LevelOf(part: seq<Node>, whole: seq<Node>, h: nat, max: nat, min: nat)
    requires forall k :: k in part ==> k in whole
    ensures Level(whole, h, max) ==> Level(part, h, max)
    ensures FilledLevel(whole, min) ==> FilledLevel(part, min)
  {
    hide Shape, Filled;
    forall i | 0 <= i < |part| ensures part[i] in whole {
    }
  }

  // ----------------------------------------------------------------------------------------- insert

  /** The child enlarged least, then the smallest, then the first. */
  method ChooseSubtree(kids: seq<Node>, box: Envelope) returns (best: nat)
    requires kids != []
    ensures Chosen(kids, box, best)
  {
    hide Area, Enlargement;
    best := 0;
    var bestE, bestA := Enlargement(kids[0].box, box), Area(kids[0].box);
    for i := 1 to |kids|
      invariant best < i && bestE == Enlargement(kids[best].box, box) && bestA == Area(kids[best].box)
      invariant forall j :: 0 <= j < i ==> NoBetter(kids[best].box, kids[j].box, box, best <= j)
    {
      var e, a := Enlargement(kids[i].box, box), Area(kids[i].box);
      if e < bestE || (e == bestE && a < bestA) {
        best, bestE, bestA := i, e, a;
      }
    }
  }

  /** The chosen child is enlarged less than the other, or as much but is smaller, or ties and comes first. */
  predicate NoBetter(chosen: Envelope, other: Envelope, box: Envelope, first: bool) {
    var e, f := Enlargement(chosen, box), Enlargement(other, box);
    e < f || (e == f && (Area(chosen) < Area(other) || (Area(chosen) == Area(other) && first)))
  }

  ghost predicate Chosen(kids: seq<Node>, box: Envelope, best: nat) {
    best < |kids| && forall i :: 0 <= i < |kids| ==> NoBetter(kids[best].box, kids[i].box, box, best <= i)
  }

  /** What becomes of an inner node once its child has grown, and split if it did. */
  ghost predicate Adopts(kids: seq<Node>, max: nat, min: nat, n': Node, sib: Option<Node>) {
    if |kids| <= max then n' == RefitInner(kids) && sib == None
    else sib.Some? && n'.Inner? && sib.value.Inner? && SplitInto(kids, KidBox, min, n'.kids, sib.value.kids)
         && n' == RefitInner(n'.kids) && sib.value == RefitInner(sib.value.kids)
  }

  /** The result of an insertion, step by step: into the chosen child, splitting what overflows. */
  ghost predicate Grows(n: Node, e: Entry, max: nat, min: nat, n': Node, sib: Option<Node>)
    decreases n
  {
    match n
    case Leaf(box, es) =>
      if |es + [e]| <= max then n' == Leaf(Grow(box, Env(e.box)), es + [e]) && sib == None
      else sib.Some? && n'.Leaf? && sib.value.Leaf?
           && SplitInto(es + [e], EntryBox, min, n'.entries, sib.value.entries)
           && n' == RefitLeaf(n'.entries) && sib.value == RefitLeaf(sib.value.entries)
    case Inner(_, kids) =>
      exists best: nat, kid: Node, kidSib: Option<Node> :: Chosen(kids, Env(e.box), best) && Grows(kids[best], e, max, min, kid, kidSib)
        && Adopts(kids[best := kid] + (if kidSib.Some? then [kidSib.value] else []), max, min, n', sib)
  }

  ghost function SiblingContents(sib: Option<Node>): multiset<Entry> {
    if sib.Some? then Contents(sib.value) else multiset{}
  }

  /** What a split leaves behind: two nodes of the same height, both filled to the minimum. */
  ghost predicate SplitOk(n: Node, sib: Option<Node>, h: nat, max: nat, min: nat) {
    && Shape(n, h, max) && n.Fill() >= 1
    && (sib.Some? ==> Shape(sib.value, h, max) && n.Fill() >= min && sib.value.Fill() >= min && sib.value.Fill() >= 1)
  }

  ghost predicate BothFilled(n: Node, sib: Option<Node>, min: nat) {
    Filled(n, min) && (sib.Some? ==> Filled(sib.value, min))
  }

  ghost predicate Limits(max: nat, min: nat) {
    max >= 4 && min == max / 2
  }

  /** Inserts below n; a full node splits and returns its new sibling. */
  method DoInsert(n: Node, e: Entry, max: nat, min: nat, ghost h: nat) returns (n': Node, sib: Option<Node>)
    requires Limits(max, min) && Shape(n, h, max) && (n.Inner? ==> n.kids != [])
    ensures Contents(n') + SiblingContents(sib) == Contents(n) + multiset{e}
    ensures SplitOk(n', sib, h, max, min) && (sib.None? ==> n'.Fill() >= n.Fill())
    ensures Filled(n, min) ==> BothFilled(n', sib, min)
    ensures Grows(n, e, max, min, n', sib)
    decreases n
  {
    hide Shape, Contents, All, Filled, Level, FilledLevel, HullOf, SplitOk, BothFilled, SiblingContents, SplitInto, Chosen, Adopts;
    if n.Leaf? {
      var entries := n.entries + [e];
      LeafShape(n, h, max);
      if |entries| <= max {
        HullPush(n.entries, e, EntryBox);
        GrownLeaf(n, e, max, min);
        return Leaf(Grow(n.box, Env(e.box)), entries), None;
      }
      var g1, g2 := QuadraticSplit(entries, EntryBox, min);
      SplitLeaf(n, e, g1, g2, max, min);
      return RefitLeaf(g1), Some(RefitLeaf(g2));
    }
    InnerShape(n, h, max, min);
    var best := ChooseSubtree(n.kids, Env(e.box));
    ChosenInRange(n.kids, Env(e.box), best);
    KidShape(n.kids, h - 1, max, best);
    var kid, kidSib := DoInsert(n.kids[best], e, max, min, h - 1);
    SplitOkMeans(kid, kidSib, h - 1, max, min);
    var kids := n.kids[best := kid];
    LevelReplaced(n.kids, h - 1, max, min, best, kid, kidSib);
    ContentsReplaced(n, best, kid, kidSib, e);
    assert kids + [] == kids;
    if kidSib.Some? {
      kids := kids + [kidSib.value];
      if |kids| > max {
        var g1, g2 := QuadraticSplit(kids, KidBox, min);
        SplitInner(kids, g1, g2, h, max, min);
        GrowsBelow(n, e, max, min, best, kid, kidSib, RefitInner(g1), Some(RefitInner(g2)));
        return RefitInner(g1), Some(RefitInner(g2));
      }
    }
    RefitShape(kids, h, max, min);
    n', sib := RefitInner(kids), None;
    GrowsBelow(n, e, max, min, best, kid, kidSib, n', sib);
  }

  lemma ChosenInRange(kids: seq<Node>, box: Envelope, best: nat)
    requires Chosen(kids, box, best)
    ensures best < |kids|
  {
  }

  lemma GrowsBelow(n: Node, e: Entry, max: nat, min: nat, best: nat, kid: Node, kidSib: Option<Node>, n': Node, sib: Option<Node>)
    requires n.Inner? && Chosen(n.kids, Env(e.box), best) && best < |n.kids|
    requires Grows(n.kids[best], e, max, min, kid, kidSib)
    requires var kids := n.kids[best := kid] + if kidSib.Some? then [kidSib.value] else [];
             if |kids| <= max then n' == RefitInner(kids) && sib == None
             else exists g1, g2 :: SplitInto(kids, KidBox, min, g1, g2) && n' == RefitInner(g1) && sib == Some(RefitInner(g2))
    ensures Grows(n, e, max, min, n', sib)
  {
    hide Chosen, SplitInto, HullOf;
    assert Adopts(n.kids[best := kid] + (if kidSib.Some? then [kidSib.value] else []), max, min, n', sib);
  }

  /** The tree after an insertion is determined by the tree before it. */
  lemma {:induction false} GrowthDetermined(n: Node, e: Entry, max: nat, min: nat, a: Node, s: Option<Node>, b: Node, t: Option<Node>)
    requires Grows(n, e, max, min, a, s) && Grows(n, e, max, min, b, t)
    ensures a == b && s == t
    decreases n
  {
    hide SplitInto, HullOf, NoBetter;
    match n
    case Leaf(_, es) =>
      if |es + [e]| > max {
        SplitDetermined(es + [e], EntryBox, min, a.entries, s.value.entries, b.entries, t.value.entries);
      }
    case Inner(_, kids) =>
      var i: nat, k: Node, ks: Option<Node> :| Chosen(kids, Env(e.box), i) && Grows(kids[i], e, max, min, k, ks)
        && Adopts(kids[i := k] + (if ks.Some? then [ks.value] else []), max, min, a, s);
      var j: nat, l: Node, ls: Option<Node> :| Chosen(kids, Env(e.box), j) && Grows(kids[j], e, max, min, l, ls)
        && Adopts(kids[j := l] + (if ls.Some? then [ls.value] else []), max, min, b, t);
      OneChoice(kids, Env(e.box), i, j);
      GrowthDetermined(kids[i], e, max, min, k, ks, l, ls);
      var after := kids[i := k] + if ks.Some? then [ks.value] else [];
      if |after| > max {
        SplitDetermined(after, KidBox, min, a.kids, s.value.kids, b.kids, t.value.kids);
      }
  }

  lemma OneChoice(kids: seq<Node>, box: Envelope, i: nat, j: nat)
    requires Chosen(kids, box, i) && Chosen(kids, box, j)
    ensures i == j
  {
    hide Enlargement, Area;
    assert NoBetter(kids[i].box, kids[j].box, box, i <= j);
    assert NoBetter(kids[j].box, kids[i].box, box, j <= i);
  }

  lemma LeafShape(n: Node, h: nat, max: nat)
    requires n.Leaf? && Shape(n, h, max)
    ensures h == 0 && |n.entries| <= max && n.box == HullOf(n.entries, EntryBox)
  {
  }

  lemma GrownLeaf(n: Node, e: Entry, max: nat, min: nat)
    requires n.Leaf? && |n.entries| < max && n.box == HullOf(n.entries, EntryBox)
    requires HullOf(n.entries + [e], EntryBox) == Grow(n.box, EntryBox(e))
    ensures var m := Leaf(Grow(n.box, Env(e.box)), n.entries + [e]);
            && Contents(m) + SiblingContents(None) == Contents(n) + multiset{e}
            && SplitOk(m, None, 0, max, min) && BothFilled(m, None, min) && m.Fill() >= n.Fill()
  {
    hide HullOf;
  }

  lemma SplitLeaf(n: Node, e: Entry, g1: seq<Entry>, g2: seq<Entry>, max: nat, min: nat)
    requires Limits(max, min) && n.Leaf? && |n.entries| <= max < |n.entries + [e]|
    requires multiset(g1) + multiset(g2) == multiset(n.entries + [e])
    requires min <= |g1| && min <= |g2| && |g1| + |g2| == |n.entries + [e]|
    ensures var a, b := RefitLeaf(g1), Some(RefitLeaf(g2));
            && Contents(a) + SiblingContents(b) == Contents(n) + multiset{e}
            && SplitOk(a, b, 0, max, min) && BothFilled(a, b, min)
  {
    hide HullOf;
  }

  lemma InnerShape(n: Node, h: nat, max: nat, min: nat)
    requires n.Inner? && Shape(n, h, max)
    ensures h > 0 && |n.kids| <= max && Level(n.kids, h - 1, max) && n.Fill() == |n.kids|
    ensures n.box == HullOf(n.kids, KidBox)
    ensures Contents(n) == All(n.kids) && (Filled(n, min) <==> FilledLevel(n.kids, min))
  {
    hide HullOf, Level, FilledLevel;
  }

  lemma KidShape(kids: seq<Node>, h: nat, max: nat, i: nat)
    requires Level(kids, h, max) && i < |kids|
    ensures Shape(kids[i], h, max) && kids[i].Fill() >= 1
    ensures kids[i].Inner? ==> kids[i].kids != []
  {
    hide HullOf;
  }

  lemma SplitOkMeans(n: Node, sib: Option<Node>, h: nat, max: nat, min: nat)
    requires SplitOk(n, sib, h, max, min)
    ensures Shape(n, h, max) && n.Fill() >= 1 && (sib.Some? ==> Shape(sib.value, h, max) && sib.value.Fill() >= 1)
    ensures sib.Some? ==> n.Fill() >= min && sib.value.Fill() >= min
  {
  }

  /** The children after a recursive insertion: same height, still filled. */
  lemma LevelReplaced(kids: seq<Node>, h: nat, max: nat, min: nat, i: nat, k: Node, sib: Option<Node>)
    requires Level(kids, h, max) && i < |kids| && Shape(k, h, max) && k.Fill() >= 1
    requires sib.Some? ==> Shape(sib.value, h, max) && sib.value.Fill() >= 1 && k.Fill() >= min && sib.value.Fill() >= min
    requires sib.None? ==> k.Fill() >= kids[i].Fill()
    requires Filled(kids[i], min) ==> BothFilled(k, sib, min)
    ensures var after := kids[i := k] + if sib.Some? then [sib.value] else [];
            Level(after, h, max) && (FilledLevel(kids, min) ==> FilledLevel(after, min))
  {
    hide Shape, Filled;
  }

  lemma ContentsReplaced(n: Node, i: nat, k: Node, sib: Option<Node>, e: Entry)
    requires n.Inner? && i < |n.kids| && Contents(k) + SiblingContents(sib) == Contents(n.kids[i]) + multiset{e}
    ensures All(n.kids[i := k] + if sib.Some? then [sib.value] else []) == Contents(n) + multiset{e}
  {
    hide All;
    AllReplaced(n.kids, i, k);
    assert Contents(n) == All(n.kids);
    Balance(All(n.kids[i := k]), Contents(n.kids[i]), All(n.kids), Contents(k), SiblingContents(sib), multiset{e});
    if sib.Some? {
      AllConcat(n.kids[i := k], [sib.value]);
      AllOne(sib.value);
    } else {
      assert n.kids[i := k] + [] == n.kids[i := k];
    }
  }

  lemma Balance(now: multiset<Entry>, was: multiset<Entry>, before: multiset<Entry>, k: multiset<Entry>, s: multiset<Entry>,
                e: multiset<Entry>)
    requires now + was == before + k && k + s == was + e
    ensures now + s == before + e
  {
    forall x: Entry ensures (now + s)[x] == (before + e)[x] {
      assert (now + was)[x] == (before + k)[x] && (k + s)[x] == (was + e)[x];
    }
  }

  lemma SplitInner(kids: seq<Node>, g1: seq<Node>, g2: seq<Node>, h: nat, max: nat, min: nat)
    requires Limits(max, min) && h > 0 && Level(kids, h - 1, max) && |kids| == max + 1
    requires multiset(g1) + multiset(g2) == multiset(kids) && min <= |g1| && min <= |g2| && |g1| + |g2| == |kids|
    ensures var a, b := RefitInner(g1), Some(RefitInner(g2));
            && Contents(a) + SiblingContents(b) == All(kids) && SplitOk(a, b, h, max, min)
            && (FilledLevel(kids, min) ==> BothFilled(a, b, min))
  {
    hide HullOf, All, Level, FilledLevel;
    AllDivided(g1, g2, kids);
    LevelOf(g1, kids, h - 1, max, min);
    LevelOf(g2, kids, h - 1, max, min);
  }

  lemma RefitShape(kids: seq<Node>, h: nat, max: nat, min: nat)
    requires h > 0 && Level(kids, h - 1, max) && |kids| <= max
    ensures var n := RefitInner(kids);
            && Shape(n, h, max) && Contents(n) == All(kids) && SiblingContents(None) == multiset{}
            && (kids != [] ==> SplitOk(n, None, h, max, min)) && n.Fill() == |kids|
            && (Filled(n, min) <==> FilledLevel(kids, min)) && (FilledLevel(kids, min) ==> BothFilled(n, None, min))
  {
    hide HullOf, All, Level, FilledLevel;
  }

  // ----------------------------------------------------------------------------------------- remove

  function Flatten(n: Node): seq<Entry> {
    match n
    case Leaf(_, es) => es
    case Inner(_, kids) => FlattenAll(kids)
  }

  function FlattenAll(kids: seq<Node>): seq<Entry> {
    if kids == [] then [] else FlattenAll(kids[..|kids| - 1]) + Flatten(kids[|kids| - 1])
  }

  lemma {:induction false} FlattenExact(n: Node)
    ensures multiset(Flatten(n)) == Contents(n)
  {
    if n.Inner? {
      FlattenAllExact(n.kids);
    }
  }

  lemma {:induction false} FlattenAllExact(kids: seq<Node>)
    ensures multiset(FlattenAll(kids)) == All(kids)
  {
    if kids != [] {
      FlattenAllExact(kids[..|kids| - 1]);
      FlattenExact(kids[|kids| - 1]);
    }
  }

  /** Gathers every entry of a subtree. */
  method Collect(n: Node, out: seq<Entry>) returns (out': seq<Entry>)
    ensures out' == out + Flatten(n)
    decreases n
  {
    if n.Leaf? { return out + n.entries; }
    out' := out;
    for i := 0 to |n.kids|
      invariant out' == out + FlattenAll(n.kids[..i])
    {
      assert n.kids[..i + 1][..i] == n.kids[..i];
      out' := Collect(n.kids[i], out');
    }
    assert n.kids[..|n.kids|] == n.kids;
  }

  ghost predicate Lacks(stored: multiset<Entry>, id: nat) {
    forall x :: x in stored ==> x.id != id
  }

  /** The entry left the tree; whatever else left it is among the orphans. */
  ghost predicate Removed(n: Node, n': Node, orphans: seq<Entry>, orphans': seq<Entry>, e: Entry) {
    Contents(n') + multiset(orphans') + multiset{e} == Contents(n) + multiset(orphans)
  }

  /**
   Removes one entry with the id. A child that falls below the minimum is dropped and its entries become orphans, to
   be inserted again from the top.
   */
  method RemoveNode(n: Node, id: nat, min: nat, orphans: seq<Entry>, ghost h: nat, ghost max: nat)
    returns (found: bool, n': Node, orphans': seq<Entry>, ghost e: Entry)
    requires Shape(n, h, max) && min >= 1
    ensures !found ==> n' == n && orphans' == orphans && Lacks(Contents(n), id)
    ensures found ==> e.id == id && Removed(n, n', orphans, orphans', e)
    ensures found ==> Shape(n', h, max) && n'.Fill() <= n.Fill() <= n'.Fill() + 1 && (Filled(n, min) ==> Filled(n', min))
    decreases n
  {
    hide Shape, Contents, All, Filled, Level, FilledLevel, HullOf, Removed, Lacks;
    found, n', orphans', e := false, n, orphans, Entry(id, Box(0.0, 0.0, 0.0, 0.0));
    if n.Leaf? {
      for i := 0 to |n.entries|
        invariant forall j :: 0 <= j < i ==> n.entries[j].id != id
      {
        if n.entries[i].id == id {
          LeafEntryGone(n, i, orphans, h, max, min);
          return true, RefitLeaf(n.entries[..i] + n.entries[i + 1..]), orphans, n.entries[i];
        }
      }
      LeafLacks(n, id);
      return;
    }
    InnerShape(n, h, max, min);
    NoneLacks(n.kids, id);
    for i := 0 to |n.kids|
      invariant Lacks(All(n.kids[..i]), id)
    {
      KidShape(n.kids, h - 1, max, i);
      var hit, kid, rest, gone := RemoveNode(n.kids[i], id, min, orphans, h - 1, max);
      if !hit {
        OneMoreLacks(n.kids, i, id);
        continue;
      }
      if kid.Fill() < min {
        ghost var before := rest;
        rest := Collect(kid, rest);
        KidDropped(n, i, kid, orphans, before, gone, h, max, min);
        return true, RefitInner(n.kids[..i] + n.kids[i + 1..]), rest, gone;
      }
      KidKept(n, i, kid, orphans, rest, gone, h, max, min);
      return true, RefitInner(n.kids[i := kid]), rest, gone;
    }
    assert n.kids[..|n.kids|] == n.kids;
  }

  lemma LeafLacks(n: Node, id: nat)
    requires n.Leaf? && forall j :: 0 <= j < |n.entries| ==> n.entries[j].id != id
    ensures Lacks(Contents(n), id)
  {
  }

  lemma NoneLacks(kids: seq<Node>, id: nat)
    ensures Lacks(All(kids[..0]), id)
  {
  }

  lemma OneMoreLacks(kids: seq<Node>, i: nat, id: nat)
    requires i < |kids| && Lacks(All(kids[..i]), id) && Lacks(Contents(kids[i]), id)
    ensures Lacks(All(kids[..i + 1]), id)
  {
    hide Contents;
    assert kids[..i + 1][..i] == kids[..i];
  }

  lemma LeafEntryGone(n: Node, i: nat, orphans: seq<Entry>, h: nat, max: nat, min: nat)
    requires n.Leaf? && i < |n.entries| && Shape(n, h, max)
    ensures var n' := RefitLeaf(n.entries[..i] + n.entries[i + 1..]);
            && Removed(n, n', orphans, orphans, n.entries[i]) && Shape(n', h, max) && n'.Fill() + 1 == n.Fill()
            && Filled(n', min)
  {
    hide HullOf;
    Sorting.WithoutOne(n.entries, i);
  }

  lemma KidDropped(n: Node, i: nat, kid: Node, orphans: seq<Entry>, rest: seq<Entry>, e: Entry, h: nat, max: nat, min: nat)
    requires n.Inner? && Shape(n, h, max) && i < |n.kids| && Removed(n.kids[i], kid, orphans, rest, e)
    ensures var n' := RefitInner(n.kids[..i] + n.kids[i + 1..]);
            && Removed(n, n', orphans, rest + Flatten(kid), e) && Shape(n', h, max) && n'.Fill() + 1 == n.Fill()
            && (Filled(n, min) ==> Filled(n', min))
  {
    hide Shape, Contents, All, Filled, Level, FilledLevel, HullOf, Flatten;
    InnerShape(n, h, max, min);
    var kids := n.kids[..i] + n.kids[i + 1..];
    LevelOf(kids, n.kids, h - 1, max, min);
    RefitShape(kids, h, max, min);
    AllWithout(n.kids, i);
    FlattenExact(kid);
    assert multiset(rest + Flatten(kid)) == multiset(rest) + Contents(kid);
    calc {
      All(kids) + multiset(rest + Flatten(kid)) + multiset{e};
      All(kids) + (Contents(kid) + multiset(rest) + multiset{e});
      All(kids) + (Contents(n.kids[i]) + multiset(orphans));
      All(n.kids) + multiset(orphans);
    }
  }

  lemma KidKept(n: Node, i: nat, kid: Node, orphans: seq<Entry>, rest: seq<Entry>, e: Entry, h: nat, max: nat, min: nat)
    requires n.Inner? && Shape(n, h, max) && i < |n.kids| && Removed(n.kids[i], kid, orphans, rest, e)
    requires h > 0 && Shape(kid, h - 1, max) && kid.Fill() >= min >= 1 && (Filled(n.kids[i], min) ==> Filled(kid, min))
    ensures var n' := RefitInner(n.kids[i := kid]);
            && Removed(n, n', orphans, rest, e) && Shape(n', h, max) && n'.Fill() == n.Fill()
            && (Filled(n, min) ==> Filled(n', min))
  {
    hide Shape, Contents, All, Filled, HullOf;
    InnerShape(n, h, max, min);
    var kids := n.kids[i := kid];
    assert Level(kids, h - 1, max) && (FilledLevel(n.kids, min) ==> FilledLevel(kids, min));
    RefitShape(kids, h, max, min);
    AllReplaced(n.kids, i, kid);
    forall x: Entry
      ensures (All(kids) + multiset(rest) + multiset{e})[x] == (All(n.kids) + multiset(orphans))[x]
    {
      assert (All(kids) + Contents(n.kids[i]))[x] == (All(n.kids) + Contents(kid))[x];
      assert (Contents(kid) + multiset(rest) + multiset{e})[x] == (Contents(n.kids[i]) + multiset(orphans))[x];
    }
  }

  // ------------------------------------------------------------------------------------------ query

  /** The entries a pruned query reports. */
  function Query(n: Node, q: Box): seq<Entry> {
    if !Meets(n.box, q) then []
    else
      match n
      case Leaf(_, es) => Filter(es, q)
      case Inner(_, kids) => QueryAll(kids, q)
  }

  function QueryAll(kids: seq<Node>, q: Box): seq<Entry> {
    if kids == [] then [] else QueryAll(kids[..|kids| - 1], q) + Query(kids[|kids| - 1], q)
  }

  method QueryNode(n: Node, q: Box, out: seq<nat>) returns (out': seq<nat>)
    ensures out' == out + Ids(Query(n, q))
    decreases n
  {
    hide Ids, Meets;
    NoIds();
    if !Meets(n.box, q) { return out; }
    if n.Leaf? {
      out' := PushMatches(n.entries, q, out);
      return;
    }
    out' := out;
    for i := 0 to |n.kids|
      invariant out' == out + Ids(QueryAll(n.kids[..i], q))
    {
      assert n.kids[..i + 1][..i] == n.kids[..i];
      out' := QueryNode(n.kids[i], q, out');
      IdsAppend(QueryAll(n.kids[..i], q), Query(n.kids[i], q));
    }
    assert n.kids[..|n.kids|] == n.kids;
  }

  /** A node's box covers everything below it. */
  lemma {:induction false} BoxCovers(n: Node, h: nat, max: nat, x: Entry)
    requires Shape(n, h, max) && x in Contents(n)
    ensures Covers(n.box, Env(x.box))
    decreases n
  {
    if n.Leaf? {
      var i :| 0 <= i < |n.entries| && n.entries[i] == x;
      HullCovers(Boxes(n.entries, EntryBox), i);
    } else {
      var i := SomeKid(n.kids, x);
      BoxCovers(n.kids[i], h - 1, max, x);
      HullCovers(Boxes(n.kids, KidBox), i);
    }
  }

  lemma {:induction false} SomeKid(kids: seq<Node>, x: Entry) returns (i: nat)
    requires x in All(kids)
    ensures i < |kids| && x in Contents(kids[i])
    decreases |kids|
  {
    hide Contents;
    var last := |kids| - 1;
    if x in Contents(kids[last]) {
      i := last;
    } else {
      i := SomeKid(kids[..last], x);
    }
  }

  /** A pruned query reports exactly the stored entries that meet the box, as often as they are stored. */
  lemma {:induction false} QueryExact(n: Node, h: nat, max: nat, q: Box, x: Entry)
    requires Shape(n, h, max)
    ensures multiset(Query(n, q))[x] == if Intersects(x.box, q) then Contents(n)[x] else 0
    decreases n, 1
  {
    hide Shape, Level, HullOf, Intersects;
    if Intersects(x.box, q) && x in Contents(n) {
      BoxCovers(n, h, max, x);
      MissesAll(n.box, Env(x.box), q);
    }
    if Meets(n.box, q) {
      if n.Leaf? {
        FilterExact(n.entries, q, x);
      } else {
        InnerShape(n, h, max, 0);
        QueryAllExact(n.kids, h - 1, max, q, x);
      }
    }
  }

  lemma {:induction false} QueryAllExact(kids: seq<Node>, h: nat, max: nat, q: Box, x: Entry)
    requires Level(kids, h, max)
    ensures multiset(QueryAll(kids, q))[x] == if Intersects(x.box, q) then All(kids)[x] else 0
    decreases kids, 0
  {
    hide Shape, Intersects, Contents, Query;
    if kids != [] {
      QueryAllExact(kids[..|kids| - 1], h, max, q, x);
      QueryExact(kids[|kids| - 1], h, max, q, x);
    }
  }

  // ----------------------------------------------------------------------------------------- height

  function Power(b: nat, e: nat): (p: nat)
    ensures b >= 1 ==> p >= 1
  {
    if e == 0 then 1 else b * Power(b, e - 1)
  }

  /** A node of height h that is filled holds at least min^(h + 1) entries, and never more than max^(h + 1). */
  lemma {:induction false} FillBounds(n: Node, h: nat, max: nat, min: nat)
    requires Shape(n, h, max)
    ensures Filled(n, min) && n.Fill() >= min ==> |Contents(n)| >= Power(min, h + 1)
    ensures |Contents(n)| <= Power(max, h + 1)
    decreases n, 1
  {
    hide HullOf, Level, FilledLevel;
    if n.Inner? {
      LevelBounds(n.kids, h - 1, max, min);
      if Filled(n, min) && n.Fill() >= min {
        Times(min, |n.kids|, Power(min, h));
      }
      Times(|n.kids|, max, Power(max, h));
    }
  }

  lemma {:induction false} LevelBounds(kids: seq<Node>, h: nat, max: nat, min: nat)
    requires Level(kids, h, max)
    ensures FilledLevel(kids, min) ==> |All(kids)| >= |kids| * Power(min, h + 1)
    ensures |All(kids)| <= |kids| * Power(max, h + 1)
    decreases kids, 0
  {
    hide Shape, Contents, Filled, Power;
    if kids != [] {
      LevelBounds(kids[..|kids| - 1], h, max, min);
      FillBounds(kids[|kids| - 1], h, max, min);
      Distribute(|kids|, Power(min, h + 1));
      Distribute(|kids|, Power(max, h + 1));
    }
  }

  lemma Distribute(n: nat, p: nat)
    requires n > 0
    ensures n * p == (n - 1) * p + p
  {
  }

  lemma Times(a: nat, b: nat, p: nat)
    requires a <= b
    ensures a * p <= b * p
  {
  }
}
