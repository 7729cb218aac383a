/** A* with re-opening. The heuristic is an oracle: a geometric distance between nodes. */
module AStar {
  import opened RoadGraph
  import opened LabelSearch
  import opened Dijkstra

  datatype AStarResult = AStarResult(found: bool, cost: real, path: seq<nat>, nodesExpanded: nat)

  /** The tolerance of the admissibility check, in metres. */
  const TOLERANCE: real := 0.001

  /** A geometric distance: never negative, zero from a node to itself, and no detour is shorter. */
  ghost predicate Metric(d: (nat, nat) -> real) {
    && (forall u, v :: d(u, v) >= 0.0)
    && (forall v :: d(v, v) == 0.0)
    && (forall u, v, w :: d(u, w) <= d(u, v) + d(v, w))
  }

  /** No edge undercuts the geometric distance of its ends by more than slack. */
  ghost predicate NoUndercut(g: Graph, d: (nat, nat) -> real, slack: real) {
    forall u, i :: 0 <= u < |g| && 0 <= i < |g[u]| ==> d(u, g[u][i].to) <= g[u][i].weight + slack
  }

  function Heuristic(g: Graph, d: (nat, nat) -> real, target: nat): (h: seq<real>)
    ensures |h| == |g|
  {
    seq(|g|, v requires 0 <= v < |g| => d(v, target))
  }

  /** The scan over all edges. What it accepts undercuts by at most the tolerance. */
  method HeuristicIsAdmissible(g: Graph, d: (nat, nat) -> real) returns (ok: bool)
    ensures ok <==> NoUndercut(g, d, TOLERANCE)
  {
    for u := 0 to |g|
      invariant forall x, i :: 0 <= x < u && 0 <= i < |g[x]| ==> d(x, g[x][i].to) <= g[x][i].weight + TOLERANCE
    {
      for i := 0 to |g[u]|
        invariant forall k :: 0 <= k < i ==> d(u, g[u][k].to) <= g[u][k].weight + TOLERANCE
      {
        if g[u][i].weight + TOLERANCE < d(u, g[u][i].to) { return false; }
      }
    }
    return true;
  }

  /** The geometric distance of the ends of a walk is at most its length plus the slack of its steps. */
  lemma {:induction false} WalkNotShortcut(g: Graph, d: (nat, nat) -> real, slack: real, start: nat, w: Walk)
    requires Metric(d) && NoUndercut(g, d, slack) && IsWalk(g, start, w)
    ensures d(start, End(g, start, w)) <= Weight(g, w) + Allowance(slack, |w|)
    decreases |w|
  {
    if w == [] {
      assert d(start, start) == 0.0;
    } else {
      var init, s := w[..|w| - 1], w[|w| - 1];
      var t := g[s.from][s.slot].to;
      WalkNotShortcut(g, d, slack, start, init);
      assert d(start, t) <= d(start, s.from) + d(s.from, t);
      AllowanceStep(slack, |init|);
    }
  }

  lemma AllowanceStep(slack: real, n: nat)
    ensures Allowance(slack, n + 1) == Allowance(slack, n) + slack
  {
  }

  /** A geometric heuristic that no edge undercuts is admissible, and the accepted tolerance adds up per step. */
  lemma GeometricHeuristic(g: Graph, d: (nat, nat) -> real, slack: real, target: nat)
    requires Metric(d) && NoUndercut(g, d, slack) && target < |g|
    ensures Admissible(g, Heuristic(g, d, target), target, slack) && Heuristic(g, d, target)[target] == 0.0
  {
    forall v: nat, w: Walk | v < |g| && IsWalk(g, v, w) && End(g, v, w) == target
      ensures Heuristic(g, d, target)[v] <= Weight(g, w) + Allowance(slack, |w|)
    {
      WalkNotShortcut(g, d, slack, v, w);
    }
  }

  /** Exactly when the heuristic is good for every target: when no edge undercuts. One edge is a walk of its own. */
  lemma AdmissibleEverywhere(g: Graph, d: (nat, nat) -> real, slack: real)
    requires Metric(d) && WellFormed(g)
    ensures (forall target: nat :: target < |g| ==> Admissible(g, Heuristic(g, d, target), target, slack))
            <==> NoUndercut(g, d, slack)
  {
    hide Admissible, IsWalk, Weight, End, Metric;
    if forall target: nat :: target < |g| ==> Admissible(g, Heuristic(g, d, target), target, slack) {
      forall u: nat, i: nat | u < |g| && i < |g[u]| ensures d(u, g[u][i].to) <= g[u][i].weight + slack {
        EdgeNotUndercut(g, d, slack, u, i);
      }
    }
    if NoUndercut(g, d, slack) {
      forall target: nat | target < |g| ensures Admissible(g, Heuristic(g, d, target), target, slack) {
        GeometricHeuristic(g, d, slack, target);
      }
    }
  }

  lemma EdgeNotUndercut(g: Graph, d: (nat, nat) -> real, slack: real, u: nat, i: nat)
    requires WellFormed(g) && u < |g| && i < |g[u]| && g[u][i].to < |g|
    requires Admissible(g, Heuristic(g, d, g[u][i].to), g[u][i].to, slack)
    ensures d(u, g[u][i].to) <= g[u][i].weight + slack
  {
    var w := [] + [Step(u, i)];
    Extend(g, u, [], Step(u, i));
    AllowanceStep(slack, 0);
  }

  /** The check is a tolerance, not a proof: it accepts this graph, whose heuristic exceeds the true distance. */
  lemma ToleranceHidesUndercut()
    ensures var g: Graph, d := [[Edge(1, 0.0)], []], (u: nat, v: nat) => if u == v then 0.0 else 0.0005;
            && Metric(d) && WellFormed(g) && NoUndercut(g, d, TOLERANCE)
            && !Admissible(g, Heuristic(g, d, 1), 1, 0.0)
  {
    var g: Graph, d := [[Edge(1, 0.0)], []], (u: nat, v: nat) => if u == v then 0.0 else 0.0005;
    var w := [] + [Step(0, 0)];
    Extend(g, 0, [], Step(0, 0));
    assert IsWalk(g, 0, w) && End(g, 0, w) == 1 && Heuristic(g, d, 1)[0] > Weight(g, w) + Allowance(0.0, |w|);
  }

  /** The target was never labelled: with an empty queue it is out of reach. */
  lemma NeverReached(l: Labels, h: seq<real>, done: set<nat>, target: nat)
    requires l.Ok() && Queued(l, h, multiset{}, done) && AllRelaxed(l, done) && target < |l.g| && target !in done
    ensures IsDistance(l.g, l.source, target, UNREACHABLE)
  {
    hide UNREACHABLE;
    AllExpanded(l, h, done);
    LabelsInRange(l, target);
    Finished(l, h, done, target);
  }

  lemma SearchStep(l0: Labels, h: seq<real>, f0: Frontier, done0: set<nat>, l: Labels, f: Frontier, done: set<nat>,
                   clock: nat, u: nat)
    requires u < |l0.g| && Expanding(l0, h, f0, done0, l, f, done, clock, u, |l0.g[u]|)
    ensures l.Sized() && Searching(l, h, f, done, clock) && done <= done0 + {u}
    ensures if f == f0 then Shorter(l) == Shorter(l0) else Shorter(l) < Shorter(l0)
  {
    hide Labels.Ok, Queued, NoLowerThanParent, Shorter, ExpandedBy, UNREACHABLE, StampsBelow;
    OkSized(l);
    ExpandedIsRelaxed(l, done, u);
  }

  lemma SearchPop(l: Labels, h: seq<real>, f: Frontier, done: set<nat>, clock: nat, cur: Item)
    requires Searching(l, h, f, done, clock) && cur in f
    ensures l.Ok() && l.Sized() && StampsBelow(l, clock) && cur.node < |l.g|
    ensures if cur.cost > l.dist[cur.node] then Searching(l, h, f - multiset{cur}, done, clock)
            else cur.cost == l.dist[cur.node] && l.Reached(cur.node)
                 && Queued(l, h, f - multiset{cur}, done + {cur.node}) && AllRelaxed(l, done - {cur.node})
  {
    hide Labels.Ok, AllRelaxed, UNREACHABLE;
    OkSized(l);
    if cur.cost <= l.dist[cur.node] {
      PopFresh(l, h, f, done, cur);
    } else {
      PopStale(l, h, f, done, cur);
    }
  }

  /** What the search promises once it has popped the target. */
  ghost predicate Found(g: Graph, h: seq<real>, source: nat, target: nat, out: AStarResult)
    requires |h| == |g| && target < |g|
  {
    && out.cost < UNREACHABLE
    && (exists w: Walk :: IsWalk(g, source, w) && End(g, source, w) == target && Weight(g, w) <= out.cost
                          && out.path == Nodes(g, source, w))
    && forall slack: real, w: Walk ::
         0.0 <= slack && h[target] >= 0.0 && Admissible(g, h, target, slack) && IsWalk(g, source, w) && End(g, source, w) == target
         ==> out.cost <= Weight(g, w) + Allowance(slack, |w|)
  }

  lemma TargetFound(l: Labels, h: seq<real>, f: Frontier, done: set<nat>, clock: nat, cur: Item, out: AStarResult)
    requires Searching(l, h, f, done, clock) && cur in f && (forall y :: y in f ==> !Before(y, cur))
    requires |h| == |l.g| && cur.node < |l.g| && cur.cost == l.dist[cur.node] && l.Reached(cur.node)
    requires out.cost == cur.cost && out.path == Nodes(l.g, l.source, ParentWalk(l, cur.node))
    ensures Found(l.g, h, l.source, cur.node, out)
  {
    hide UNREACHABLE, Labels.Ok, Queued, AllRelaxed, Before, Admissible, StampsBelow;
    var t := ParentWalk(l, cur.node);
    assert IsWalk(l.g, l.source, t);
    forall slack: real, w: Walk | 0.0 <= slack && h[cur.node] >= 0.0 && Admissible(l.g, h, cur.node, slack)
          && IsWalk(l.g, l.source, w) && End(l.g, l.source, w) == cur.node
      ensures out.cost <= Weight(l.g, w) + Allowance(slack, |w|)
    {
      PoppedTarget(l, h, f, done, cur, slack, w);
    }
  }

  /**
   The search, for any heuristic at all: a node is expanded again whenever its label falls, and it still terminates.
   The target is found exactly when some walk shorter than UNREACHABLE leads to it.
   */
  method AStar(g: Graph, h: seq<real>, source: int, target: int) returns (out: AStarResult)
    requires WellFormed(g) && |h| == |g|
    ensures !(0 <= source < |g| && 0 <= target < |g|) ==> !out.found && out.path == []
    ensures 0 <= source < |g| && 0 <= target < |g| ==>
              if out.found then Found(g, h, source, target, out)
              else out.path == [] && IsDistance(g, source, target, UNREACHABLE)
  {
    hide Labels.Ok, Queued, AllRelaxed, UNREACHABLE, StampsBelow, NoLowerThanParent, ExpandedBy, Relaxed, Shorter,
      Found, IsDistance, Searching;
    out := AStarResult(false, 0.0, [], 0);
    if !(0 <= source < |g|) || !(0 <= target < |g|) { return; }
    var dist, parent := seq(|g|, _ => UNREACHABLE)[source := 0.0], seq(|g|, _ => NO_NODE);
    var expanded := 0;
    var f := multiset{Item(h[source], 0.0, source)};
    ghost var l, done, clock := StartLabels(g, source), {}, 1;
    StartSearch(g, source, h);
    while f != multiset{}
      invariant l.Sized() && l.g == g && l.source == source && l.dist == dist && l.parent == parent
      invariant Searching(l, h, f, done, clock) && target !in done
      decreases Shorter(l), |f|
    {
      ghost var l0, f0, done0, clock0 := l, f, done, clock;
      var cur;
      cur, f := Pop(f);
      SearchPop(l, h, f0, done, clock, cur);
      if cur.cost > dist[cur.node] { continue; }
      expanded := expanded + 1;
      if cur.node == target {
        var path := TracePath(parent, l, target);
        out := AStarResult(true, cur.cost, path, expanded);
        TargetFound(l, h, f0, done, clock, cur, out);
        return;
      }
      ghost var rest := f;
      dist, parent, f, l, done, clock := Expand(g, h, cur, dist, parent, f, l, done, clock);
      SearchStep(l0, h, rest, done0, l, f, done, clock, cur.node);
    }
    SearchEnd(l, h, done, clock, target);
    out := AStarResult(false, 0.0, [], expanded);
  }

  lemma SearchEnd(l: Labels, h: seq<real>, done: set<nat>, clock: nat, target: nat)
    requires Searching(l, h, multiset{}, done, clock) && l.Sized() && target < |l.g| && target !in done
    ensures IsDistance(l.g, l.source, target, UNREACHABLE)
  {
    NeverReached(l, h, done, target);
  }

  /** With a geometric heuristic that no edge undercuts, A* finds the target exactly when Dijkstra reaches it, at the
      same cost, along a real path of that cost. */
  lemma AgreesWithDijkstra(g: Graph, d: (nat, nat) -> real, source: nat, target: nat, out: AStarResult, dist: real)
    requires WellFormed(g) && source < |g| && target < |g| && Metric(d) && NoUndercut(g, d, 0.0)
    requires if out.found then Found(g, Heuristic(g, d, target), source, target, out)
             else IsDistance(g, source, target, UNREACHABLE)
    requires IsDistance(g, source, target, dist)
    ensures out.found <==> dist < UNREACHABLE
    ensures out.found ==> out.cost == dist && exists w: Walk ::
              IsWalk(g, source, w) && End(g, source, w) == target && Weight(g, w) == dist && out.path == Nodes(g, source, w)
  {
    hide UNREACHABLE;
    GeometricHeuristic(g, d, 0.0, target);
    if out.found {
      var h := Heuristic(g, d, target);
      var p: Walk :| IsWalk(g, source, p) && End(g, source, p) == target && Weight(g, p) <= out.cost
                     && out.path == Nodes(g, source, p);
      assert out.cost <= Weight(g, p) + Allowance(0.0, |p|);
      assert dist <= Weight(g, p);
      var best: Walk :| IsWalk(g, source, best) && End(g, source, best) == target && Weight(g, best) == dist;
      assert out.cost <= Weight(g, best) + Allowance(0.0, |best|);
    } else {
      SameDistance(g, source, target, UNREACHABLE, dist);
    }
  }

  /** A heuristic that merely passes the tolerance check costs at most the tolerance per step of the best path. */
  lemma ToleranceBoundsLoss(g: Graph, d: (nat, nat) -> real, source: nat, target: nat, out: AStarResult, w: Walk)
    requires WellFormed(g) && source < |g| && target < |g| && Metric(d) && NoUndercut(g, d, TOLERANCE)
    requires out.found && Found(g, Heuristic(g, d, target), source, target, out)
    requires IsWalk(g, source, w) && End(g, source, w) == target
    ensures out.cost <= Weight(g, w) + TOLERANCE * |w| as real
  {
    GeometricHeuristic(g, d, TOLERANCE, target);
    assert out.cost <= Weight(g, w) + Allowance(TOLERANCE, |w|);
  }
}
