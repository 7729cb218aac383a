/** Single-source shortest paths with lazy deletion and a deterministic parent rule. */
module Dijkstra {
  import opened RoadGraph
  import opened LabelSearch

  /** The source's result object; the source node may be invalid. */
  datatype ShortestPaths = ShortestPaths(source: int, dist: seq<real>, parent: seq<int>, nodesExpanded: nat)

  /** d is the length of a shortest walk to v, or UNREACHABLE when every walk to v is at least that long. */
  ghost predicate IsDistance(g: Graph, source: nat, v: nat, d: real) {
    && d <= UNREACHABLE
    && (forall w: Walk :: IsWalk(g, source, w) && End(g, source, w) == v ==> d <= Weight(g, w))
    && (d < UNREACHABLE ==> exists w: Walk :: IsWalk(g, source, w) && End(g, source, w) == v && Weight(g, w) == d)
  }

  /** Every reached node but the source hangs from a predecessor that accounts exactly for its distance, and no
      predecessor that does so over an edge of positive weight has a lower number. */
  ghost predicate LowestTightParents(g: Graph, source: nat, dist: seq<real>, parent: seq<int>)
    requires WellFormed(g) && |dist| == |parent| == |g|
  {
    && (forall v :: 0 <= v < |g| && v != source && dist[v] < UNREACHABLE ==>
          0 <= parent[v] < |g| && exists i :: 0 <= i < |g[parent[v]]| && TightEdge(g, dist, parent[v], i, v))
    && (forall u, i :: 0 <= u < |g| && 0 <= i < |g[u]| && g[u][i].weight > 0.0
            && TightEdge(g, dist, u, i, g[u][i].to)
          ==> parent[g[u][i].to] <= u)
  }

  ghost predicate TightEdge(g: Graph, dist: seq<real>, u: nat, i: nat, v: nat)
    requires |dist| == |g| && u < |g| && i < |g[u]|
  {
    g[u][i].to == v < |g| && dist[v] < UNREACHABLE && dist[u] + g[u][i].weight == dist[v]
  }

  ghost predicate Flat(h: seq<real>) {
    forall v :: 0 <= v < |h| ==> h[v] == 0.0
  }

  /** Expanded nodes come before everything still queued. */
  ghost predicate Ordered(l: Labels, f: Frontier, done: set<nat>) {
    forall s, x :: s in done && x in f && s < |l.dist| ==> l.dist[s] <= x.cost
  }

  /** Parents of reached nodes are expanded, and no expanded node with a tight edge is lower than the parent. */
  ghost predicate Treed(l: Labels, done: set<nat>)
    requires l.Sized()
  {
    && (forall v :: 0 <= v < |l.g| && v != l.source && l.Reached(v) ==> l.parent[v] in done)
    && (forall u :: u in done && u < |l.g| ==> NoLowerThanParent(l, u, |l.g[u]|))
  }

  lemma FlatIsAdmissible(g: Graph, h: seq<real>, target: nat)
    requires WellFormed(g) && |h| == |g| && Flat(h)
    ensures Admissible(g, h, target, 0.0)
  {
    forall v: nat, w: Walk | v < |g| && IsWalk(g, v, w) && End(g, v, w) == target
      ensures h[v] <= Weight(g, w) + Allowance(0.0, |w|)
    {
      WalkStaysInside(g, v, w);
    }
  }

  /** Expanding a nearest node lowers no expanded label, so nothing is ever reopened. */
  lemma NothingReopened(l0: Labels, h: seq<real>, f0: Frontier, done0: set<nat>, cur: Item, l: Labels, f: Frontier,
                        done: set<nat>, clock: nat)
    requires l0.Ok() && Queued(l0, h, f0, done0) && AllRelaxed(l0, done0) && Flat(h) && Treed(l0, done0)
    requires Ordered(l0, f0, done0) && cur in f0 && (forall y :: y in f0 ==> !Before(y, cur))
    requires cur == Fresh(l0, h, cur.node) && cur.node < |l0.g|
    requires Expanding(l0, h, f0 - multiset{cur}, done0, l, f, done, clock, cur.node, |l0.g[cur.node]|)
    ensures done == done0 + {cur.node} && Ordered(l, f, done) && Treed(l, done)
  {
    hide Labels.Ok, AllRelaxed, NoLowerThanParent, Relaxed, Shorter, Treed, ExpandedBy, UNREACHABLE;
    OkSized(l0);
    OkSized(l);
    DoneStays(l0, h, f0, done0, cur, l, done);
    OrderStays(l0, h, f0, done0, cur, l, f);
    TreeGrows(l0, l, done0, cur.node);
  }

  lemma DoneStays(l0: Labels, h: seq<real>, f0: Frontier, done0: set<nat>, cur: Item, l: Labels, done: set<nat>)
    requires Queued(l0, h, f0, done0) && Ordered(l0, f0, done0) && cur in f0 && cur == Fresh(l0, h, cur.node)
    requires ExpandedBy(l0, l, cur.node)
    requires forall v :: v in done <==> v in done0 + {cur.node} && v < |l.g| && l.dist[v] == l0.dist[v]
    ensures done == done0 + {cur.node}
    ensures forall v :: v in done ==> v < |l.g| && l.dist[v] == l0.dist[v] && l.dist[v] <= cur.cost
  {
    forall v | v in done0 + {cur.node} ensures v < |l.g| && l.dist[v] == l0.dist[v] && l.dist[v] <= cur.cost {
      assert v in done0 ==> l0.dist[v] <= cur.cost;
    }
  }

  lemma OrderStays(l0: Labels, h: seq<real>, f0: Frontier, done0: set<nat>, cur: Item, l: Labels, f: Frontier)
    requires Queued(l0, h, f0, done0) && Flat(h) && cur in f0 && (forall y :: y in f0 ==> !Before(y, cur))
    requires l.Sized() && l.g == l0.g && cur == Fresh(l0, h, cur.node) && l.dist[cur.node] == l0.dist[cur.node]
    requires forall x :: x in f ==> x in f0 - multiset{cur} || l.dist[cur.node] <= x.cost
    requires forall v :: v in done0 + {cur.node} ==> v < |l.g| && l.dist[v] <= cur.cost
    ensures Ordered(l, f, done0 + {cur.node})
  {
    forall x | x in f ensures cur.cost <= x.cost {
      if x in f0 - multiset{cur} {
        assert x in f0 && !Before(x, cur) && x.key == x.cost && cur.key == cur.cost;
      }
    }
  }

  lemma TreeGrows(l0: Labels, l: Labels, done0: set<nat>, u: nat)
    requires l0.Sized() && l.Sized() && ExpandedBy(l0, l, u) && Treed(l0, done0) && AllRelaxed(l0, done0)
    requires NoLowerThanParent(l, u, |l.g[u]|) && forall v :: v in done0 + {u} ==> v < |l.g| && l.dist[v] == l0.dist[v]
    ensures Treed(l, done0 + {u})
  {
    forall v | 0 <= v < |l.g| && v != l.source && l.Reached(v) ensures l.parent[v] in done0 + {u} {
      assert l.dist[v] == l0.dist[v] ==> l0.Reached(v);
    }
    forall s, i | s in done0 && 0 <= i < |l.g[s]| && TightSlot(l, s, i) ensures l.parent[l.g[s][i].to] <= s {
      assert Relaxed(l0, s, |l.g[s]|);
      assert l.dist[l.g[s][i].to] == l0.dist[l.g[s][i].to];
      assert TightSlot(l0, s, i) && NoLowerThanParent(l0, s, |l.g[s]|);
    }
  }

  // --------------------------------------------------------------------------------------- the results

  lemma LabelHasWalk(l: Labels, v: nat)
    requires l.Ok() && v < |l.g|
    ensures l.dist[v] <= UNREACHABLE
    ensures l.Reached(v) ==> exists w: Walk :: IsWalk(l.g, l.source, w) && End(l.g, l.source, w) == v && Weight(l.g, w) == l.dist[v]
  {
    if l.Reached(v) {
      assert l.WalkOk(v);
    }
  }

  /** With an empty queue every label is a distance and every reached node was expanded. */
  lemma Finished(l: Labels, h: seq<real>, done: set<nat>, v: nat)
    requires l.Ok() && Queued(l, h, multiset{}, done) && AllRelaxed(l, done) && v < |l.g|
    ensures IsDistance(l.g, l.source, v, l.dist[v])
    ensures v in done <==> l.Reached(v)
  {
    hide UNREACHABLE;
    LabelHasWalk(l, v);
    AllExpanded(l, h, done);
    forall w: Walk | IsWalk(l.g, l.source, w) && End(l.g, l.source, w) == v ensures l.dist[v] <= Weight(l.g, w) {
      LabelsAreDistances(l, done, w);
    }
  }

  lemma AllExpanded(l: Labels, h: seq<real>, done: set<nat>)
    requires l.Sized() && Queued(l, h, multiset{}, done)
    ensures forall v :: v in done <==> 0 <= v < |l.g| && l.Reached(v)
  {
    forall v | 0 <= v < |l.g| && l.Reached(v) ensures v in done {
      assert multiset{}[Fresh(l, h, v)] == 0;
    }
  }

  /** During the run the labels of expanded nodes are already distances. */
  lemma SettledIsFinal(l: Labels, h: seq<real>, f: Frontier, done: set<nat>, v: nat)
    requires l.Ok() && Queued(l, h, f, done) && AllRelaxed(l, done) && Ordered(l, f, done) && Flat(h) && v in done
    ensures v < |l.g| && IsDistance(l.g, l.source, v, l.dist[v])
  {
    hide UNREACHABLE;
    LabelHasWalk(l, v);
    FlatIsAdmissible(l.g, h, v);
    forall w: Walk | IsWalk(l.g, l.source, w) && End(l.g, l.source, w) == v ensures l.dist[v] <= Weight(l.g, w) {
      if Weight(l.g, w) < UNREACHABLE {
        assert forall x :: x in f ==> l.dist[v] <= x.cost == x.key;
        FollowWalk(l, h, f, done, v, 0.0, w, |w|, l.dist[v]);
        assert w[..|w|] == w;
      }
    }
  }

  /** The popped target's label is its distance. */
  lemma TargetIsFinal(l: Labels, h: seq<real>, f: Frontier, done: set<nat>, cur: Item)
    requires l.Ok() && Queued(l, h, f, done) && AllRelaxed(l, done) && Flat(h) && cur in f
    requires cur.cost <= l.dist[cur.node] && forall y :: y in f ==> !Before(y, cur)
    ensures IsDistance(l.g, l.source, cur.node, l.dist[cur.node])
  {
    hide UNREACHABLE;
    LabelHasWalk(l, cur.node);
    FlatIsAdmissible(l.g, h, cur.node);
    forall w: Walk | IsWalk(l.g, l.source, w) && End(l.g, l.source, w) == cur.node
      ensures l.dist[cur.node] <= Weight(l.g, w)
    {
      PoppedTarget(l, h, f, done, cur, 0.0, w);
    }
  }

  lemma TreeIsLowest(l: Labels, done: set<nat>)
    requires l.Ok() && AllRelaxed(l, done) && Treed(l, done)
    requires forall v :: v in done <==> 0 <= v < |l.g| && l.Reached(v)
    ensures LowestTightParents(l.g, l.source, l.dist, l.parent)
  {
    forall v | 0 <= v < |l.g| && v != l.source && l.Reached(v)
      ensures 0 <= l.parent[v] < |l.g| && exists i :: 0 <= i < |l.g[l.parent[v]]| && TightEdge(l.g, l.dist, l.parent[v], i, v)
    {
      assert l.ParentOk(v);
      var p := l.parent[v];
      var i :| 0 <= i < |l.g[p]| && l.g[p][i].to == v && l.dist[p] + l.g[p][i].weight <= l.dist[v];
      assert Relaxed(l, p, |l.g[p]|);
      assert TightEdge(l.g, l.dist, p, i, v);
    }
    forall u, i | 0 <= u < |l.g| && 0 <= i < |l.g[u]| && l.g[u][i].weight > 0.0
                  && TightEdge(l.g, l.dist, u, i, l.g[u][i].to)
      ensures l.parent[l.g[u][i].to] <= u
    {
      assert l.Reached(u) && NoLowerThanParent(l, u, |l.g[u]|) && TightSlot(l, u, i);
    }
  }

  /** The invariant of the main loop. */
  ghost predicate Progress(l: Labels, h: seq<real>, f: Frontier, done: set<nat>, clock: nat, expanded: nat) {
    Searching(l, h, f, done, clock) && Flat(h) && Ordered(l, f, done) && Treed(l, done) && expanded == |done|
  }

  lemma ProgressStart(g: Graph, source: nat, h: seq<real>)
    requires WellFormed(g) && source < |g| == |h| && Flat(h)
    ensures Progress(StartLabels(g, source), h, multiset{Item(0.0, 0.0, source)}, {}, 1, 0)
  {
    StartSearch(g, source, h);
  }

  lemma ProgressStale(l: Labels, h: seq<real>, f: Frontier, done: set<nat>, clock: nat, expanded: nat, cur: Item)
    requires Progress(l, h, f, done, clock, expanded) && cur in f && l.dist[cur.node] < cur.cost
    ensures Progress(l, h, f - multiset{cur}, done, clock, expanded)
  {
    PopStale(l, h, f, done, cur);
    assert forall x :: x in f - multiset{cur} ==> x in f;
  }

  lemma ProgressExpand(l0: Labels, h: seq<real>, f0: Frontier, done0: set<nat>, clock0: nat, expanded: nat, cur: Item,
                       l: Labels, f: Frontier, done: set<nat>, clock: nat)
    requires Progress(l0, h, f0, done0, clock0, expanded) && cur in f0 && (forall y :: y in f0 ==> !Before(y, cur))
    requires cur.cost <= l0.dist[cur.node]
    requires Expanding(l0, h, f0 - multiset{cur}, done0, l, f, done, clock, cur.node, |l0.g[cur.node]|)
    ensures l.Sized() && Progress(l, h, f, done, clock, expanded + 1)
  {
    hide Labels.Ok, Queued, StampsBelow, Before, RoadGraph.WellFormed, AllRelaxed, Ordered, Treed, NoLowerThanParent, Shorter, Flat, ExpandedBy, UNREACHABLE;
    OkSized(l0);
    OkSized(l);
    PopFresh(l0, h, f0, done0, cur);
    NothingReopened(l0, h, f0, done0, cur, l, f, done, clock);
    ExpandedIsRelaxed(l, done, cur.node);
  }

  lemma ExpandedIsRelaxed(l: Labels, done: set<nat>, u: nat)
    requires l.Sized() && AllRelaxed(l, done - {u}) && u < |l.g| && Relaxed(l, u, |l.g[u]|)
    ensures AllRelaxed(l, done)
  {
  }

  /** What a popped entry that is not stale offers the relaxation loop. */
  lemma ProgressPop(l: Labels, h: seq<real>, f: Frontier, done: set<nat>, clock: nat, expanded: nat, cur: Item)
    requires Progress(l, h, f, done, clock, expanded) && cur in f
    ensures l.Ok() && l.Sized() && StampsBelow(l, clock) && cur.node < |l.g|
    ensures cur.cost <= l.dist[cur.node] ==>
              && cur.cost == l.dist[cur.node] && l.Reached(cur.node)
              && Queued(l, h, f - multiset{cur}, done + {cur.node}) && AllRelaxed(l, done - {cur.node})
  {
    hide Labels.Ok, AllRelaxed, Ordered, Treed, Flat, UNREACHABLE;
    OkSized(l);
    if cur.cost <= l.dist[cur.node] {
      PopFresh(l, h, f, done, cur);
    }
  }

  lemma ProgressTarget(l: Labels, h: seq<real>, f: Frontier, done: set<nat>, clock: nat, expanded: nat, cur: Item)
    requires Progress(l, h, f, done, clock, expanded) && cur in f && (forall y :: y in f ==> !Before(y, cur))
    requires cur.node < |l.dist| && cur.cost <= l.dist[cur.node]
    ensures l.Ok() && IsDistance(l.g, l.source, cur.node, l.dist[cur.node])
    ensures forall v :: v in done ==> v < |l.g| && IsDistance(l.g, l.source, v, l.dist[v])
  {
    hide Labels.Ok, AllRelaxed, Ordered, Treed, Flat, UNREACHABLE, IsDistance;
    AllSettledFinal(l, h, f, done, clock, expanded);
    TargetIsFinal(l, h, f, done, cur);
  }

  lemma AllSettledFinal(l: Labels, h: seq<real>, f: Frontier, done: set<nat>, clock: nat, expanded: nat)
    requires Progress(l, h, f, done, clock, expanded)
    ensures forall v :: v in done ==> v < |l.g| && IsDistance(l.g, l.source, v, l.dist[v])
  {
    forall v | v in done ensures v < |l.g| && IsDistance(l.g, l.source, v, l.dist[v]) {
      SettledIsFinal(l, h, f, done, v);
    }
  }

  lemma AllFinal(l: Labels, h: seq<real>, done: set<nat>, clock: nat, expanded: nat)
    requires Progress(l, h, multiset{}, done, clock, expanded)
    ensures forall v :: 0 <= v < |l.g| ==> IsDistance(l.g, l.source, v, l.dist[v])
    ensures forall v :: v in done <==> 0 <= v < |l.g| && l.Reached(v)
    ensures LowestTightParents(l.g, l.source, l.dist, l.parent) && l.Ok() && expanded == |done|
  {
    AllExpanded(l, h, done);
    TreeIsLowest(l, done);
    forall v | 0 <= v < |l.g| ensures IsDistance(l.g, l.source, v, l.dist[v]) {
      Finished(l, h, done, v);
    }
  }

  ghost predicate Matches(sp: ShortestPaths, g: Graph, source: nat, l: Labels) {
    l.Ok() && l.g == g && l.source == source == sp.source && l.dist == sp.dist && l.parent == sp.parent
  }

  /**
   The search. It settles each node at most once; without an early exit it settles exactly the reached nodes, all
   distances are exact and the tree is determined by the lowest-predecessor rule. With a valid target it stops once
   the target settles, whose distance is then exact. Weights may be zero, and nodes may be unreachable.
   */
  method Run(g: Graph, source: int, target: int) returns (sp: ShortestPaths, ghost l: Labels, ghost done: set<nat>)
    requires WellFormed(g)
    ensures |sp.dist| == |sp.parent| == |g| && sp.source == source
    ensures !(0 <= source < |g|) ==> sp == ShortestPaths(source, seq(|g|, _ => UNREACHABLE), seq(|g|, _ => NO_NODE), 0)
    ensures 0 <= source < |g| ==> Matches(sp, g, source, l)
    ensures 0 <= source < |g| ==> forall v :: v in done ==> v < |g| && IsDistance(g, source, v, sp.dist[v])
    ensures 0 <= source < |g| && 0 <= target < |g| ==> IsDistance(g, source, target, sp.dist[target])
    ensures 0 <= source < |g| && !(0 <= target < |g|) ==>
              && (forall v :: 0 <= v < |g| ==> IsDistance(g, source, v, sp.dist[v]))
              && (forall v :: v in done <==> 0 <= v < |g| && sp.dist[v] < UNREACHABLE) && sp.nodesExpanded == |done|
              && LowestTightParents(g, source, sp.dist, sp.parent)
  {
    hide Labels.Ok, Queued, AllRelaxed, Flat, IsDistance, LowestTightParents, UNREACHABLE, StampsBelow,
      Progress, NoLowerThanParent, ExpandedBy, Relaxed, Shorter;
    var dist, parent := seq(|g|, _ => UNREACHABLE), seq(|g|, _ => NO_NODE);
    var expanded := 0;
    done := {};
    if !(0 <= source < |g|) {
      l := Labels(g, 0, dist, parent, [], []);
      return ShortestPaths(source, dist, parent, expanded), l, done;
    }
    var h := seq(|g|, _ => 0.0);
    AllZero(|g|);
    dist := dist[source := 0.0];
    var f := multiset{Item(0.0, 0.0, source)};
    l := StartLabels(g, source);
    ghost var clock := 1;
    ProgressStart(g, source, h);
    while f != multiset{}
      invariant l.Sized() && l.g == g && l.source == source && l.dist == dist && l.parent == parent && |h| == |g|
      invariant Progress(l, h, f, done, clock, expanded)
      decreases Shorter(l), |f|
    {
      ghost var l0, f0, done0, clock0 := l, f, done, clock;
      var cur;
      cur, f := Pop(f);
      ProgressPop(l, h, f0, done, clock, expanded, cur);
      if cur.cost > dist[cur.node] {
        ProgressStale(l, h, f0, done, clock, expanded, cur);
        continue;
      }
      if cur.node == target {
        ProgressTarget(l, h, f0, done, clock, expanded, cur);
        return ShortestPaths(source, dist, parent, expanded + 1), l, done;
      }
      dist, parent, f, l, done, clock := Expand(g, h, cur, dist, parent, f, l, done, clock);
      ProgressExpand(l0, h, f0, done0, clock0, expanded, cur, l, f, done, clock);
      expanded := expanded + 1;
    }
    AllFinal(l, h, done, clock, expanded);
    sp := ShortestPaths(source, dist, parent, expanded);
  }

  lemma AllZero(n: nat)
    ensures Flat(seq(n, _ => 0.0))
  {
  }

  /** The path to a target whose distance is exact: empty for invalid or unreached targets, otherwise a real path
      from the source of exactly that length. */
  method PathTo(sp: ShortestPaths, g: Graph, ghost l: Labels, target: int) returns (path: seq<nat>)
    requires WellFormed(g) && |sp.dist| == |g| && 0 <= sp.source < |g| && Matches(sp, g, sp.source, l)
    ensures !(0 <= target < |g|) || sp.dist[target] >= UNREACHABLE ==> path == []
    ensures 0 <= target < |g| && sp.dist[target] < UNREACHABLE && IsDistance(g, sp.source, target, sp.dist[target]) ==>
              exists w: Walk :: IsWalk(g, sp.source, w) && End(g, sp.source, w) == target
                                && Weight(g, w) == sp.dist[target] && path == Nodes(g, sp.source, w)
  {
    if target < 0 || target >= |sp.dist| || sp.dist[target] >= UNREACHABLE { return []; }
    path := TracePath(sp.parent, l, target);
    ghost var w := ParentWalk(l, target);
    assert IsWalk(g, sp.source, w);
  }

  /** With all weights positive the tree is a function of the graph: exact distances and lowest tight parents leave
      no choice. */
  lemma TreeDetermined(g: Graph, source: nat, dist: seq<real>, parent: seq<int>, dist': seq<real>, parent': seq<int>)
    requires WellFormed(g) && source < |g| && |dist| == |parent| == |dist'| == |parent'| == |g|
    requires forall u, i :: 0 <= u < |g| && 0 <= i < |g[u]| ==> g[u][i].weight > 0.0
    requires forall v :: 0 <= v < |g| ==> IsDistance(g, source, v, dist[v]) && IsDistance(g, source, v, dist'[v])
    requires LowestTightParents(g, source, dist, parent) && LowestTightParents(g, source, dist', parent')
    ensures dist == dist'
    ensures forall v :: 0 <= v < |g| && v != source && dist[v] < UNREACHABLE ==> parent[v] == parent'[v]
  {
    forall v | 0 <= v < |g| ensures dist[v] == dist'[v] {
      SameDistance(g, source, v, dist[v], dist'[v]);
    }
    assert dist == dist';
    forall v | 0 <= v < |g| && v != source && dist[v] < UNREACHABLE ensures parent[v] == parent'[v] {
      var i :| 0 <= i < |g[parent[v]]| && TightEdge(g, dist, parent[v], i, v);
      var k :| 0 <= k < |g[parent'[v]]| && TightEdge(g, dist, parent'[v], k, v);
      assert parent'[v] <= parent[v] && parent[v] <= parent'[v];
    }
  }

  lemma SameDistance(g: Graph, source: nat, v: nat, d: real, e: real)
    requires IsDistance(g, source, v, d) && IsDistance(g, source, v, e)
    ensures d == e
  {
    hide UNREACHABLE;
  }
}
