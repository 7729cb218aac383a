/** The road network as an adjacency list, and the walks through it. */
module RoadGraph {
  import opened Counting

  datatype Edge = Edge(to: nat, weight: real)

  type Graph = seq<seq<Edge>>

  /** What add_edge admits: edges between existing nodes with a weight that is not negative. */
  ghost predicate WellFormed(g: Graph) {
    forall u, i :: 0 <= u < |g| && 0 <= i < |g[u]| ==> g[u][i].to < |g| && g[u][i].weight >= 0.0
  }

  /** One step: the position of an edge in the adjacency list of its origin. */
  datatype Step = Step(from: nat, slot: nat)

  type Walk = seq<Step>

  ghost predicate IsStep(g: Graph, s: Step) {
    s.from < |g| && s.slot < |g[s.from]|
  }

  /** Where a walk from start ends. */
  ghost function End(g: Graph, start: nat, w: Walk): nat {
    if w == [] then start
    else if IsStep(g, w[|w| - 1]) then g[w[|w| - 1].from][w[|w| - 1].slot].to
    else start
  }

  ghost predicate IsWalk(g: Graph, start: nat, w: Walk) {
    w == [] || (var init := w[..|w| - 1];
                IsWalk(g, start, init) && IsStep(g, w[|w| - 1]) && w[|w| - 1].from == End(g, start, init))
  }

  ghost function Weight(g: Graph, w: Walk): real {
    if w == [] then 0.0
    else Weight(g, w[..|w| - 1]) + if IsStep(g, w[|w| - 1]) then g[w[|w| - 1].from][w[|w| - 1].slot].weight else 0.0
  }

  /** The nodes a walk visits, in order, its start included. */
  ghost function Nodes(g: Graph, start: nat, w: Walk): (ns: seq<nat>)
    ensures |ns| == |w| + 1 && ns[|w|] == End(g, start, w) && ns[0] == start
  {
    if w == [] then [start] else Nodes(g, start, w[..|w| - 1]) + [End(g, start, w)]
  }

  lemma Extend(g: Graph, start: nat, w: Walk, s: Step)
    requires IsWalk(g, start, w) && IsStep(g, s) && s.from == End(g, start, w)
    ensures IsWalk(g, start, w + [s]) && End(g, start, w + [s]) == g[s.from][s.slot].to
    ensures Weight(g, w + [s]) == Weight(g, w) + g[s.from][s.slot].weight
    ensures Nodes(g, start, w + [s]) == Nodes(g, start, w) + [g[s.from][s.slot].to]
  {
    assert (w + [s])[..|w|] == w;
  }

  lemma {:induction false} WalkStaysInside(g: Graph, start: nat, w: Walk)
    requires WellFormed(g) && start < |g| && IsWalk(g, start, w)
    ensures End(g, start, w) < |g| && Weight(g, w) >= 0.0
    ensures forall x :: x in Nodes(g, start, w) ==> x < |g|
  {
    if w != [] {
      WalkStaysInside(g, start, w[..|w| - 1]);
    }
  }

  // -------------------------------------------------------------------------- finitely many short walks

  ghost function AllSteps(g: Graph): set<Step> {
    set u, i | 0 <= u < |g| && 0 <= i < |g[u]| :: Step(u, i)
  }

  /** All step sequences of at most k steps. */
  ghost function Sequences(steps: set<Step>, k: nat): set<Walk> {
    if k == 0 then {[]}
    else {[]} + set w, s | w in Sequences(steps, k - 1) && s in steps :: w + [s]
  }

  lemma {:induction false} WalkIsSequence(g: Graph, start: nat, w: Walk, k: nat)
    requires IsWalk(g, start, w) && |w| <= k
    ensures w in Sequences(AllSteps(g), k)
    decreases k
  {
    if w != [] {
      var s := w[|w| - 1];
      WalkIsSequence(g, start, w[..|w| - 1], k - 1);
      assert s in AllSteps(g) && w == w[..|w| - 1] + [s];
    }
  }

  /** No node is visited twice. */
  ghost predicate Simple(g: Graph, start: nat, w: Walk) {
    forall i, j :: 0 <= i < j <= |w| ==> Nodes(g, start, w)[i] != Nodes(g, start, w)[j]
  }

  /** A simple walk has fewer steps than the graph has nodes. */
  lemma SimpleIsShort(g: Graph, start: nat, w: Walk)
    requires WellFormed(g) && start < |g| && IsWalk(g, start, w) && Simple(g, start, w)
    ensures |w| < |g|
  {
    WalkStaysInside(g, start, w);
    forall i | 0 <= i <= |w| ensures Nodes(g, start, w)[i] < |g| {
      assert Nodes(g, start, w)[i] in Nodes(g, start, w);
    }
    DistinctBelow(Nodes(g, start, w), |g|);
  }
}
