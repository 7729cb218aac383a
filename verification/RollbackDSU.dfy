/** Union-find with rollback: union by rank, no path compression, and an undo stack. */
module RollbackDSU {
  import opened Connectivity
  import opened Counting
  import opened PowersOfTwo

  /** One union: the root that lost, its old parent, the root that won, and the winner's old rank. */
  datatype Undo = Undo(child: nat, oldParent: nat, parentOf: nat, oldRank: nat)

  datatype Forest = Forest(parent: seq<nat>, rank: seq<nat>, size: seq<int>, count: int)

  function Singletons(n: nat): Forest {
    Forest(seq(n, i requires 0 <= i < n => i), seq(n, _ => 0), seq(n, _ => 1), n)
  }

  ghost predicate SameLength(f: Forest, n: nat) {
    |f.parent| == |f.rank| == |f.size| == n
  }

  /** Parents are nodes, and rank rises along them. */
  ghost predicate Ranked(f: Forest, n: nat) {
    && SameLength(f, n)
    && forall i :: 0 <= i < n ==> f.parent[i] < n && f.rank[i] <= n && (f.parent[i] != i ==> f.rank[i] < f.rank[f.parent[i]])
  }

  /** The root above x. */
  ghost function Root(f: Forest, n: nat, x: nat): (r: nat)
    requires Ranked(f, n) && x < n
    ensures r < n && f.parent[r] == r && f.rank[x] <= f.rank[r]
    decreases n - f.rank[x]
  {
    if f.parent[x] == x then x else Root(f, n, f.parent[x])
  }

  /** The number of parent steps from x to its root. */
  ghost function Steps(f: Forest, n: nat, x: nat): (k: nat)
    requires Ranked(f, n) && x < n
    ensures k <= f.rank[Root(f, n, x)] - f.rank[x]
    decreases n - f.rank[x]
  {
    if f.parent[x] == x then 0 else 1 + Steps(f, n, f.parent[x])
  }

  ghost function Members(f: Forest, n: nat, r: nat): set<nat>
    requires Ranked(f, n)
  {
    set x: nat | x < n && Root(f, n, x) == r
  }

  ghost function Roots(f: Forest, n: nat): set<nat>
    requires SameLength(f, n)
  {
    set x: nat | x < n && f.parent[x] == x
  }

  /** At a root, the size is the number of nodes below it, and 2^rank is at most that. */
  ghost predicate Sized(f: Forest, n: nat)
    requires Ranked(f, n)
  {
    forall r :: 0 <= r < n && f.parent[r] == r ==> f.size[r] == |Members(f, n, r)| && Pow2(f.rank[r]) <= f.size[r]
  }

  /** Two nodes have the same root exactly when the edges connect them. */
  ghost predicate Reflects(f: Forest, n: nat, edges: seq<Edge>)
    requires Ranked(f, n)
  {
    && (forall e :: e in edges ==> e.0 < n && e.1 < n && Root(f, n, e.0) == Root(f, n, e.1))
    && forall x :: 0 <= x < n ==> Connected(edges, x, Root(f, n, x))
  }

  ghost predicate Sound(f: Forest, n: nat, edges: seq<Edge>) {
    Ranked(f, n) && Sized(f, n) && f.count == |Roots(f, n)| && Reflects(f, n, edges)
  }

  // ------------------------------------------------------------------------------------ link and unlink

  /** The undo record fits the forest: two roots, the child's rank not above the winner's. */
  ghost predicate Joins(f: Forest, n: nat, u: Undo) {
    && SameLength(f, n) && u.child < n && u.parentOf < n && u.child != u.parentOf
    && f.parent[u.child] == u.child == u.oldParent && f.parent[u.parentOf] == u.parentOf
    && f.rank[u.child] <= f.rank[u.parentOf] == u.oldRank
  }

  function Link(f: Forest, u: Undo): Forest
    requires u.child < |f.parent| == |f.rank| == |f.size| && u.parentOf < |f.parent|
  {
    Forest(f.parent[u.child := u.parentOf],
           if f.rank[u.parentOf] == f.rank[u.child] then f.rank[u.parentOf := f.rank[u.parentOf] + 1] else f.rank,
           f.size[u.parentOf := f.size[u.parentOf] + f.size[u.child]], f.count - 1)
  }

  function Unlink(f: Forest, u: Undo): Forest
    requires u.child < |f.parent| == |f.rank| == |f.size| && u.parentOf < |f.parent|
  {
    Forest(f.parent[u.child := u.oldParent], f.rank[u.parentOf := u.oldRank],
           f.size[u.parentOf := f.size[u.parentOf] - f.size[u.child]], f.count + 1)
  }

  /** Which root goes under which: the lower rank under the higher, y's under x's when they tie. */
  ghost function UnionOf(f: Forest, n: nat, x: nat, y: nat): Undo
    requires Ranked(f, n) && x < n && y < n
  {
    var rx, ry := Root(f, n, x), Root(f, n, y);
    var (child, into) := if f.rank[rx] < f.rank[ry] then (rx, ry) else (ry, rx);
    Undo(child, f.parent[child], into, f.rank[into])
  }

  lemma UnlinkUndoes(f: Forest, n: nat, u: Undo)
    requires Joins(f, n, u)
    ensures Unlink(Link(f, u), u) == f
  {
  }

  /** The forest the undo stack records, union by union. */
  ghost predicate LogOk(n: nat, log: seq<Undo>)
    decreases |log|, 0
  {
    log == [] || (LogOk(n, log[..|log| - 1]) && Joins(Built(n, log[..|log| - 1]), n, log[|log| - 1]))
  }

  ghost function Built(n: nat, log: seq<Undo>): (f: Forest)
    requires LogOk(n, log)
    ensures SameLength(f, n)
    decreases |log|, 1
  {
    if log == [] then Singletons(n) else Link(Built(n, log[..|log| - 1]), log[|log| - 1])
  }

  // ---------------------------------------------------------------------------- what a link preserves

  lemma RootStep(f: Forest, n: nat, x: nat)
    requires Ranked(f, n) && x < n
    ensures Root(f, n, x) == if f.parent[x] == x then x else Root(f, n, f.parent[x])
  {
  }

  lemma MembersBounded(f: Forest, n: nat, r: nat)
    requires Ranked(f, n)
    ensures |Members(f, n, r)| <= n
  {
    hide Root;
    SubsetSize(Members(f, n, r), Below(n));
  }

  lemma {:induction false} BelowPow2(k: nat)
    ensures k < Pow2(k)
  {
    if k > 0 {
      BelowPow2(k - 1);
    }
  }

  /** Two classes are disjoint, so together no more than n nodes. */
  lemma TwoClasses(f: Forest, n: nat, a: nat, b: nat)
    requires Ranked(f, n) && a != b
    ensures |Members(f, n, a)| + |Members(f, n, b)| <= n
    ensures |Members(f, n, a) + Members(f, n, b)| == |Members(f, n, a)| + |Members(f, n, b)|
  {
    hide Root;
    var p, q := Members(f, n, a), Members(f, n, b);
    assert p * q == {};
    SubsetSize(p + q, Below(n));
  }

  /** Between equal ranks there is room for one more. */
  lemma RankFits(f: Forest, n: nat, u: Undo)
    requires Ranked(f, n) && Sized(f, n) && Joins(f, n, u) && f.rank[u.parentOf] == f.rank[u.child]
    ensures f.rank[u.parentOf] < n
  {
    hide Root, Members;
    TwoClasses(f, n, u.child, u.parentOf);
    assert Pow2(f.rank[u.child] + 1) == Pow2(f.rank[u.child]) + Pow2(f.rank[u.parentOf]);
    BelowPow2(f.rank[u.child] + 1);
  }

  lemma LinkRanked(f: Forest, n: nat, u: Undo)
    requires Ranked(f, n) && Sized(f, n) && Joins(f, n, u)
    ensures Ranked(Link(f, u), n)
  {
    hide Root, Members, Sized;
    if f.rank[u.parentOf] == f.rank[u.child] {
      RankFits(f, n, u);
    }
  }

  /** The nodes of the losing root move to the winner; all others stay. */
  lemma {:induction false} LinkRoot(f: Forest, n: nat, u: Undo, x: nat)
    requires Ranked(f, n) && Joins(f, n, u) && Ranked(Link(f, u), n) && x < n
    ensures Root(Link(f, u), n, x) == if Root(f, n, x) == u.child then u.parentOf else Root(f, n, x)
    decreases n - f.rank[x]
  {
    var g := Link(f, u);
    RootStep(f, n, x);
    RootStep(g, n, x);
    if f.parent[x] != x {
      LinkRoot(f, n, u, f.parent[x]);
    } else if x == u.child {
      RootStep(g, n, u.parentOf);
    }
  }

  lemma LinkMembers(f: Forest, n: nat, u: Undo, r: nat)
    requires Ranked(f, n) && Joins(f, n, u) && Ranked(Link(f, u), n)
    ensures Members(Link(f, u), n, r) ==
              if r == u.parentOf then Members(f, n, u.parentOf) + Members(f, n, u.child)
              else if r == u.child then {} else Members(f, n, r)
  {
    hide Root, Link;
    forall x: nat | x < n
      ensures Root(Link(f, u), n, x) == if Root(f, n, x) == u.child then u.parentOf else Root(f, n, x)
    {
      LinkRoot(f, n, u, x);
    }
  }

  lemma LinkSized(f: Forest, n: nat, u: Undo)
    requires Ranked(f, n) && Sized(f, n) && Joins(f, n, u) && Ranked(Link(f, u), n)
    ensures Sized(Link(f, u), n)
  {
    hide Root, Members;
    var g, c, p := Link(f, u), u.child, u.parentOf;
    TwoClasses(f, n, p, c);
    assert Pow2(f.rank[c] + 1) == 2 * Pow2(f.rank[c]);
    forall r | 0 <= r < n && g.parent[r] == r
      ensures g.size[r] == |Members(g, n, r)| && Pow2(g.rank[r]) <= g.size[r]
    {
      LinkMembers(f, n, u, r);
    }
  }

  lemma LinkRoots(f: Forest, n: nat, u: Undo)
    requires Joins(f, n, u)
    ensures |Roots(Link(f, u), n)| == |Roots(f, n)| - 1
  {
    assert Roots(Link(f, u), n) == Roots(f, n) - {u.child};
  }

  lemma LinkReflects(f: Forest, n: nat, u: Undo, edges: seq<Edge>, x: nat, y: nat)
    requires Ranked(f, n) && Joins(f, n, u) && Ranked(Link(f, u), n) && Reflects(f, n, edges) && x < n && y < n
    requires {Root(f, n, x), Root(f, n, y)} == {u.child, u.parentOf}
    ensures Reflects(Link(f, u), n, edges + [(x, y)])
  {
    hide Root, Connected, Link;
    var g, more := Link(f, u), edges + [(x, y)];
    forall e | e in more ensures e.0 < n && e.1 < n && Root(g, n, e.0) == Root(g, n, e.1) {
      LinkRoot(f, n, u, e.0);
      LinkRoot(f, n, u, e.1);
    }
    JoinedEnds(f, n, u, edges, x, y);
    forall z | 0 <= z < n ensures Connected(more, z, Root(g, n, z)) {
      LinkRoot(f, n, u, z);
      ConnectedMore(edges, (x, y), z, Root(f, n, z));
      if Root(f, n, z) == u.child {
        ConnectedThrough(more, z, u.child, u.parentOf);
      }
    }
  }

  /** The new edge connects the two roots it joins. */
  lemma JoinedEnds(f: Forest, n: nat, u: Undo, edges: seq<Edge>, x: nat, y: nat)
    requires Ranked(f, n) && Reflects(f, n, edges) && x < n && y < n
    requires {Root(f, n, x), Root(f, n, y)} == {u.child, u.parentOf}
    ensures Connected(edges + [(x, y)], u.child, u.parentOf)
  {
    hide Root, Connected;
    var more := edges + [(x, y)];
    var rx, ry := Root(f, n, x), Root(f, n, y);
    assert rx in {u.child, u.parentOf} && ry in {u.child, u.parentOf} && u.child in {rx, ry} && u.parentOf in {rx, ry};
    assert (x, y) in more;
    ConnectedEdge(more, x, y);
    ConnectedMore(edges, (x, y), x, rx);
    ConnectedMore(edges, (x, y), y, ry);
    ConnectedBack(more, x, rx);
    ConnectedThrough(more, rx, x, y);
    ConnectedThrough(more, rx, y, ry);
    ConnectedBack(more, rx, ry);
    ConnectedSelf(more, rx);
  }

  lemma LinkSound(f: Forest, n: nat, u: Undo, edges: seq<Edge>, x: nat, y: nat)
    requires Sound(f, n, edges) && Joins(f, n, u) && x < n && y < n
    requires {Root(f, n, x), Root(f, n, y)} == {u.child, u.parentOf}
    ensures Sound(Link(f, u), n, edges + [(x, y)])
  {
    hide Root, Members, Connected, Reflects, Sized, Roots;
    LinkRanked(f, n, u);
    LinkSized(f, n, u);
    LinkRoots(f, n, u);
    LinkReflects(f, n, u, edges, x, y);
  }

  lemma SingletonRoot(n: nat, x: nat)
    requires x < n
    ensures Ranked(Singletons(n), n) && Root(Singletons(n), n, x) == x
  {
  }

  lemma SingletonMembers(n: nat, x: nat)
    requires x < n && Ranked(Singletons(n), n)
    ensures Members(Singletons(n), n, x) == {x}
  {
    hide Root, Singletons;
    forall y: nat | y < n ensures Root(Singletons(n), n, y) == y {
      SingletonRoot(n, y);
    }
  }

  lemma SingletonsSound(n: nat)
    ensures Sound(Singletons(n), n, [])
  {
    hide Connected, Root, Members;
    var f := Singletons(n);
    assert Ranked(f, n);
    forall r | 0 <= r < n ensures f.size[r] == |Members(f, n, r)| && Pow2(f.rank[r]) <= f.size[r] {
      SingletonMembers(n, r);
    }
    assert Roots(f, n) == Below(n);
    forall x | 0 <= x < n ensures Connected([], x, Root(f, n, x)) {
      SingletonRoot(n, x);
      ConnectedSelf([], x);
    }
  }

  /** Same root, same component: both ways. */
  lemma RootsDecide(f: Forest, n: nat, edges: seq<Edge>, x: nat, y: nat)
    requires Ranked(f, n) && Reflects(f, n, edges) && x < n && y < n
    ensures Root(f, n, x) == Root(f, n, y) <==> Connected(edges, x, y)
  {
    hide Root, Connected;
    var r, s := Root(f, n, x), Root(f, n, y);
    assert Connected(edges, x, r) && Connected(edges, y, s);
    ConnectedBack(edges, y, s);
    if r == s {
      ConnectedThrough(edges, x, r, y);
    }
    if Connected(edges, x, y) {
      MarkAgrees(edges, (z: nat) => if z < n then Root(f, n, z) else 0, x, y);
    }
  }

  // ---------------------------------------------------------------------------------------- structure

  class Sets {
    var parent: seq<nat>
    var rank: seq<nat>
    var size: seq<int>
    var undo: seq<Undo>
    var components: int

    const n: nat

    /** The edges of the unions that the undo stack holds, one for each. */
    ghost var edges: seq<Edge>

    function View(): Forest
      reads this
    {
      Forest(parent, rank, size, components)
    }

    /** The forest is the one the undo stack records, and it reflects exactly the surviving edges. */
    ghost predicate Valid()
      reads this
    {
      History(n, undo, edges) && LogOk(n, undo) && View() == Built(n, undo)
    }

    constructor (n: nat)
      ensures Valid() && this.n == n && undo == [] && edges == []
    {
      hide Sound, History;
      this.n := n;
      parent, rank, size := Singletons(n).parent, Singletons(n).rank, Singletons(n).size;
      components, undo, edges := n, [], [];
      new;
      HistoryStarts(n);
    }

    lemma Now()
      requires Valid()
      ensures Sound(View(), n, edges)
    {
      HistoryNow(n, undo, edges);
    }

    /** The root above x, in at most log2(n) steps. */
    method Find(x: nat) returns (r: nat)
      requires Valid() && x < n
      ensures Ranked(View(), n) && r == Root(View(), n, x) && Pow2(Steps(View(), n, x)) <= n
    {
      hide Sized, Reflects, Built, LogOk, History;
      Now();
      r := x;
      ghost var k := 0;
      while parent[r] != r
        invariant r < n && Root(View(), n, r) == Root(View(), n, x) && k + Steps(View(), n, r) == Steps(View(), n, x)
        decreases n - rank[r]
      {
        r, k := parent[r], k + 1;
      }
      StepsBound(View(), n, x);
    }

    /** Joins the two classes; does nothing when they are one already. */
    method Unite(x: nat, y: nat) returns (joined: bool)
      requires Valid() && x < n && y < n
      modifies this
      ensures Valid() && joined == !Connected(old(edges), x, y)
      ensures old(Ranked(View(), n))
      ensures joined ==> undo == old(undo) + [old(UnionOf(View(), n, x, y))] && edges == old(edges) + [(x, y)]
      ensures !joined ==> View() == old(View()) && undo == old(undo) && edges == old(edges)
      ensures joined == (old(Root(View(), n, x)) != old(Root(View(), n, y)))
    {
      hide Sound, Built, LogOk, Root, Connected, Reflects, Sized, History, Ranked, Joins, Link;
      Now();
      SoundRanked(View(), n, edges);
      RootsDecide(View(), n, edges, x, y);
      var rx := Find(x);
      var ry := Find(y);
      if rx == ry { return false; }
      RootIsRoot(View(), n, x);
      RootIsRoot(View(), n, y);
      if rank[rx] < rank[ry] { rx, ry := ry, rx; }
      var u := Undo(ry, parent[ry], rx, rank[rx]);
      assert u == UnionOf(View(), n, x, y);
      RootsJoin(View(), n, u);
      LinkSound(View(), n, u, edges, x, y);
      HistoryGrows(n, undo, edges, u, (x, y));
      Attach(u);
      edges := edges + [(x, y)];
      joined := true;
    }

    /** Pushes the undo record and writes the union. */
    method Attach(u: Undo)
      requires SameLength(View(), n) && u.child < n && u.parentOf < n
      modifies `undo, `parent, `rank, `size, `components
      ensures undo == old(undo) + [u] && View() == Link(old(View()), u)
    {
      undo := undo + [u];
      parent := parent[u.child := u.parentOf];
      size := size[u.parentOf := size[u.parentOf] + size[u.child]];
      if rank[u.parentOf] == rank[u.child] { rank := rank[u.parentOf := rank[u.parentOf] + 1]; }
      components := components - 1;
    }

    function Snapshot(): nat
      reads this
    {
      |undo|
    }

    /** Undoes every union since the mark: parents, ranks, sizes and the count are exactly what they were then. */
    method RollbackTo(mark: nat)
      requires Valid()
      modifies this
      ensures Valid() && |old(edges)| == |old(undo)|
      ensures mark >= |old(undo)| ==> View() == old(View()) && undo == old(undo) && edges == old(edges)
      ensures mark <= |old(undo)| ==> undo == old(undo)[..mark] && edges == old(edges)[..mark]
    {
      hide Sound, Built, LogOk, History, Joins, Link;
      HistoryNow(n, undo, edges);
      while |undo| > mark
        invariant Valid() && |undo| <= |old(undo)| && |undo| >= (if mark < |old(undo)| then mark else |old(undo)|)
        invariant undo == old(undo)[..|undo|] && |edges| == |undo| && edges == old(edges)[..|undo|]
        invariant |undo| == |old(undo)| ==> View() == old(View())
        decreases |undo|
      {
        var u := undo[|undo| - 1];
        HistoryShrinks(n, undo, edges);
        undo := undo[..|undo| - 1];
        size := size[u.parentOf := size[u.parentOf] - size[u.child]];
        parent := parent[u.child := u.oldParent];
        rank := rank[u.parentOf := u.oldRank];
        components := components + 1;
        edges := edges[..|undo|];
      }
    }

    /** How many nodes are connected to x. */
    method ComponentSize(x: nat) returns (k: int)
      requires Valid() && x < n
      ensures k == |set y: nat | y < n && Connected(edges, x, y)|
    {
      hide Built, LogOk, Connected, Reflects, Root, History;
      Now();
      var r := Find(x);
      k := size[r];
      RootIsRoot(View(), n, x);
      forall y: nat | y < n ensures y in Members(View(), n, r) <==> Connected(edges, x, y) {
        RootsDecide(View(), n, edges, x, y);
      }
      assert Members(View(), n, r) == set y: nat | y < n && Connected(edges, x, y);
    }

    /** Every component as a list of its members: the partition by the surviving edges. */
    method Components() returns (out: seq<seq<nat>>)
      requires Valid()
      ensures Partitions(out, n, edges)
    {
      hide Sound, Built, LogOk, Root, Connected, Reflects, Sized, History, Ranked, Partitions, Grouping;
      Now();
      SoundRanked(View(), n, edges);
      ghost var roots := RootList(View(), n);
      out := [];
      var slot: seq<int> := seq(n, _ => -1);
      GroupingStarts(slot, roots, n);
      for i := 0 to n
        invariant Grouping(out, slot, roots, n, i)
      {
        var r := Find(i);
        SlotRange(out, slot, roots, n, i, r);
        GroupingGrows(out, slot, roots, n, i);
        ghost var was, first := out, slot[r] == -1;
        if slot[r] == -1 {
          slot := slot[r := |out|];
          out := out + [[]];
          assert out[|was|] + [i] == [i];
        }
        out := out[slot[r] := out[slot[r]] + [i]];
        assert first ==> out == was + [[i]];
      }
      GroupingDone(out, slot, roots, n);
      forall x: nat, y: nat | x < n && y < n ensures roots[x] == roots[y] <==> Connected(edges, x, y) {
        RootsDecide(View(), n, edges, x, y);
      }
      ByRoots(out, roots, n, edges);
    }
  }

  ghost function RootList(f: Forest, n: nat): (roots: seq<nat>)
    requires Ranked(f, n)
    ensures |roots| == n && forall x: nat :: x < n ==> roots[x] == Root(f, n, x) && roots[x] < n
  {
    seq(n, x requires 0 <= x < n => Root(f, n, x))
  }

  /** The roots and their slots: each in use for one root only. */
  ghost predicate SlotsOk(slot: seq<int>, roots: seq<nat>, n: nat, used: nat) {
    && |slot| == |roots| == n && (forall x :: 0 <= x < n ==> roots[x] < n) && (forall r :: 0 <= r < n ==> -1 <= slot[r] < used)
    && forall r, q :: 0 <= r < n && 0 <= q < n && slot[r] == slot[q] >= 0 ==> r == q
  }

  /** The first i nodes, each in the group of its root and in no other. */
  ghost predicate MembersOk(out: seq<seq<nat>>, slot: seq<int>, roots: seq<nat>, n: nat, i: nat)
    requires SlotsOk(slot, roots, n, |out|) && i <= n
  {
    && (forall g, k :: 0 <= g < |out| && 0 <= k < |out[g]| ==> out[g][k] < i && slot[roots[out[g][k]]] == g)
    && forall x :: 0 <= x < i ==> slot[roots[x]] >= 0 && x in out[slot[roots[x]]]
  }

  ghost predicate LeadersOk(out: seq<seq<nat>>) {
    && (forall g :: 0 <= g < |out| ==> out[g] != [] && Rising(out[g]))
    && forall g, h :: 0 <= g < h < |out| ==> out[g] != [] && out[h] != [] && out[g][0] < out[h][0]
  }

  /** The groups of the first i nodes by root; slots say which group a root has. */
  ghost predicate Grouping(out: seq<seq<nat>>, slot: seq<int>, roots: seq<nat>, n: nat, i: nat) {
    i <= n && SlotsOk(slot, roots, n, |out|) && MembersOk(out, slot, roots, n, i) && LeadersOk(out)
  }

  ghost predicate Rising(s: seq<nat>) {
    forall j, k :: 0 <= j < k < |s| ==> s[j] < s[k]
  }

  lemma GroupingStarts(slot: seq<int>, roots: seq<nat>, n: nat)
    requires |slot| == |roots| == n && forall x :: 0 <= x < n ==> slot[x] == -1 && roots[x] < n
    ensures Grouping([], slot, roots, n, 0)
  {
  }

  lemma SlotRange(out: seq<seq<nat>>, slot: seq<int>, roots: seq<nat>, n: nat, i: nat, r: nat)
    requires Grouping(out, slot, roots, n, i) && r < n
    ensures |slot| == n && -1 <= slot[r] < |out|
  {
  }

  /** One more node joins the group of its root, which it may start. */
  lemma GroupingGrows(out: seq<seq<nat>>, slot: seq<int>, roots: seq<nat>, n: nat, i: nat)
    requires Grouping(out, slot, roots, n, i) && i < n && |slot| == |roots| == n
    ensures roots[i] < n
    ensures slot[roots[i]] == -1 ==> Grouping(out + [[i]], slot[roots[i] := |out|], roots, n, i + 1)
    ensures slot[roots[i]] >= 0 && slot[roots[i]] < |out| ==>
              Grouping(out[slot[roots[i]] := out[slot[roots[i]]] + [i]], slot, roots, n, i + 1)
  {
    if slot[roots[i]] == -1 {
      GroupingNew(out, slot, roots, n, i);
    } else {
      GroupingSame(out, slot, roots, n, i);
    }
  }

  lemma GroupingNew(out: seq<seq<nat>>, slot: seq<int>, roots: seq<nat>, n: nat, i: nat)
    requires Grouping(out, slot, roots, n, i) && i < n && roots[i] < n && slot[roots[i]] == -1
    ensures Grouping(out + [[i]], slot[roots[i] := |out|], roots, n, i + 1)
  {
    hide MembersOk, LeadersOk, SlotsOk;
    MembersNew(out, slot, roots, n, i);
    LeadersNew(out, slot, roots, n, i);
  }

  lemma MembersNew(out: seq<seq<nat>>, slot: seq<int>, roots: seq<nat>, n: nat, i: nat)
    requires SlotsOk(slot, roots, n, |out|) && i < n && MembersOk(out, slot, roots, n, i) && slot[roots[i]] == -1
    ensures SlotsOk(slot[roots[i] := |out|], roots, n, |out| + 1)
    ensures MembersOk(out + [[i]], slot[roots[i] := |out|], roots, n, i + 1)
  {
    var out', slot' := out + [[i]], slot[roots[i] := |out|];
    assert out'[|out|] == [i];
    assert forall g :: 0 <= g < |out| ==> out'[g] == out[g];
    forall x | 0 <= x < i ensures roots[x] != roots[i] {
      assert slot[roots[x]] >= 0;
    }
  }

  lemma LeadersNew(out: seq<seq<nat>>, slot: seq<int>, roots: seq<nat>, n: nat, i: nat)
    requires SlotsOk(slot, roots, n, |out|) && i < n && MembersOk(out, slot, roots, n, i) && LeadersOk(out)
    ensures LeadersOk(out + [[i]])
  {
    forall g | 0 <= g < |out| ensures out[g] != [] && out[g][0] < i {
    }
  }

  lemma GroupingSame(out: seq<seq<nat>>, slot: seq<int>, roots: seq<nat>, n: nat, i: nat)
    requires Grouping(out, slot, roots, n, i) && i < n && roots[i] < n && slot[roots[i]] >= 0
    ensures Grouping(out[slot[roots[i]] := out[slot[roots[i]]] + [i]], slot, roots, n, i + 1)
  {
    var g: nat := slot[roots[i]];
    assert out[g] != [];
    JoinMembers(out, slot, roots, n, i, g);
    JoinLeaders(out, i, g);
  }

  lemma JoinMembers(out: seq<seq<nat>>, slot: seq<int>, roots: seq<nat>, n: nat, i: nat, g: nat)
    requires i < n && SlotsOk(slot, roots, n, |out|) && MembersOk(out, slot, roots, n, i) && g < |out| && slot[roots[i]] == g
    ensures MembersOk(out[g := out[g] + [i]], slot, roots, n, i + 1)
    ensures forall k :: 0 <= k < |out[g]| ==> out[g][k] < i
  {
    var out' := out[g := out[g] + [i]];
    forall x | 0 <= x < i + 1 ensures slot[roots[x]] >= 0 && x in out'[slot[roots[x]]] {
      if x == i {
        assert out'[g][|out[g]|] == i;
      } else {
        assert x in out[slot[roots[x]]];
      }
    }
  }

  lemma JoinLeaders(out: seq<seq<nat>>, i: nat, g: nat)
    requires LeadersOk(out) && g < |out| && forall k :: 0 <= k < |out[g]| ==> out[g][k] < i
    ensures LeadersOk(out[g := out[g] + [i]])
  {
  }

  /** Grouped by root: together exactly when the roots agree. */
  ghost predicate RootGroups(out: seq<seq<nat>>, roots: seq<nat>, n: nat) {
    && |roots| == n && Listed(out, n) && (forall x :: 0 <= x < n ==> InSome(out, x))
    && forall g, h, x, y :: 0 <= g < |out| && 0 <= h < |out| && x in out[g] && y in out[h] ==>
         x < n && y < n && (roots[x] == roots[y] <==> g == h)
  }

  lemma GroupingDone(out: seq<seq<nat>>, slot: seq<int>, roots: seq<nat>, n: nat)
    requires Grouping(out, slot, roots, n, n)
    ensures RootGroups(out, roots, n)
  {
    forall g, x | 0 <= g < |out| && x in out[g] ensures x < n && out[g][0] <= x && slot[roots[x]] == g {
      var k :| 0 <= k < |out[g]| && out[g][k] == x;
    }
    forall x | 0 <= x < n ensures InSome(out, x) {
      assert x in out[slot[roots[x]]];
    }
  }

  lemma ByRoots(out: seq<seq<nat>>, roots: seq<nat>, n: nat, edges: seq<Edge>)
    requires RootGroups(out, roots, n)
    requires forall x: nat, y: nat :: x < n && y < n ==> (roots[x] == roots[y] <==> Connected(edges, x, y))
    ensures Partitions(out, n, edges)
  {
    hide Connected;
  }

  /** The structure and the flood-fill oracle give the same components in the same order. */
  lemma AgreesWithOracle(mine: seq<seq<nat>>, oracle: seq<seq<nat>>, n: nat, edges: seq<Edge>)
    requires Partitions(mine, n, edges) && Partitions(oracle, n, edges)
    ensures |mine| == |oracle| && forall g, x :: 0 <= g < |mine| ==> (x in mine[g] <==> x in oracle[g])
  {
    SamePartition(mine, oracle, n, edges);
  }

  lemma SoundRanked(f: Forest, n: nat, edges: seq<Edge>)
    requires Sound(f, n, edges)
    ensures Ranked(f, n) && Reflects(f, n, edges) && SameLength(f, n)
  {
  }

  lemma RootsJoin(f: Forest, n: nat, u: Undo)
    requires SameLength(f, n) && u.child < n && u.parentOf < n && u.child != u.parentOf
    requires f.parent[u.child] == u.child == u.oldParent && f.parent[u.parentOf] == u.parentOf
    requires f.rank[u.child] <= f.rank[u.parentOf] == u.oldRank
    ensures Joins(f, n, u)
  {
  }

  lemma RootIsRoot(f: Forest, n: nat, x: nat)
    requires Ranked(f, n) && x < n
    ensures Root(f, n, x) < n && f.parent[Root(f, n, x)] == Root(f, n, x)
  {
  }

  lemma StepsBound(f: Forest, n: nat, x: nat)
    requires Ranked(f, n) && Sized(f, n) && x < n
    ensures Pow2(Steps(f, n, x)) <= n
  {
    hide Root, Members;
    var r := Root(f, n, x);
    RootIsRoot(f, n, x);
    MembersBounded(f, n, r);
    Pow2Monotone(Steps(f, n, x), f.rank[r]);
  }

  /** Every prefix of the undo stack records a sound forest for the same prefix of the edges. */
  ghost predicate History(n: nat, log: seq<Undo>, edges: seq<Edge>) {
    |log| == |edges| && forall k :: 0 <= k <= |log| ==> LogOk(n, log[..k]) && Sound(Built(n, log[..k]), n, edges[..k])
  }

  lemma HistoryStarts(n: nat)
    ensures History(n, [], []) && Built(n, []) == Singletons(n)
  {
    SingletonsSound(n);
    assert forall log: seq<Undo> :: log == [] ==> log[..0] == [];
  }

  lemma HistoryNow(n: nat, log: seq<Undo>, edges: seq<Edge>)
    requires History(n, log, edges)
    ensures LogOk(n, log) && Sound(Built(n, log), n, edges) && |log| == |edges|
  {
    hide Sound, Built, LogOk;
    assert log[..|log|] == log && edges[..|log|] == edges;
  }

  lemma HistoryGrows(n: nat, log: seq<Undo>, edges: seq<Edge>, u: Undo, e: Edge)
    requires History(n, log, edges) && LogOk(n, log) && Joins(Built(n, log), n, u)
    requires Sound(Link(Built(n, log), u), n, edges + [e])
    ensures History(n, log + [u], edges + [e]) && LogOk(n, log + [u]) && Built(n, log + [u]) == Link(Built(n, log), u)
  {
    hide Sound;
    assert (log + [u])[..|log|] == log;
    PrefixesGrow(n, log, edges, u, e);
  }

  lemma PrefixesGrow(n: nat, log: seq<Undo>, edges: seq<Edge>, u: Undo, e: Edge)
    requires History(n, log, edges) && LogOk(n, log + [u]) && Sound(Built(n, log + [u]), n, edges + [e])
    ensures History(n, log + [u], edges + [e])
  {
    hide Sound, Built, LogOk;
    forall k | 0 <= k <= |log| + 1
      ensures LogOk(n, (log + [u])[..k]) && Sound(Built(n, (log + [u])[..k]), n, (edges + [e])[..k])
    {
      if k <= |log| {
        assert (log + [u])[..k] == log[..k] && (edges + [e])[..k] == edges[..k];
      } else {
        assert (log + [u])[..k] == log + [u] && (edges + [e])[..k] == edges + [e];
      }
    }
  }

  lemma HistoryShrinks(n: nat, log: seq<Undo>, edges: seq<Edge>)
    requires History(n, log, edges) && LogOk(n, log) && log != []
    ensures var init := log[..|log| - 1];
            var u := log[|log| - 1];
            && LogOk(n, init) && History(n, init, edges[..|log| - 1])
            && u.child < n && u.parentOf < n && Unlink(Built(n, log), u) == Built(n, init)
  {
    hide Sound;
    var init := log[..|log| - 1];
    UnlinkUndoes(Built(n, init), n, log[|log| - 1]);
    forall k | 0 <= k <= |init| ensures init[..k] == log[..k] && edges[..|log| - 1][..k] == edges[..k] {
    }
  }
}
