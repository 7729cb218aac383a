/** Undirected reachability over a list of edges, and partitions of the nodes by it. */
module Connectivity {

  type Edge = (nat, nat)

  predicate Adjacent(edges: seq<Edge>, a: nat, b: nat) {
    (a, b) in edges || (b, a) in edges
  }

  ghost predicate Path(edges: seq<Edge>, p: seq<nat>) {
    p != [] && forall i :: 0 <= i < |p| - 1 ==> Adjacent(edges, p[i], p[i + 1])
  }

  ghost predicate Connected(edges: seq<Edge>, x: nat, y: nat) {
    exists p :: Path(edges, p) && p[0] == x && p[|p| - 1] == y
  }

  lemma ConnectedSelf(edges: seq<Edge>, x: nat)
    ensures Connected(edges, x, x)
  {
    assert Path(edges, [x]);
  }

  lemma ConnectedEdge(edges: seq<Edge>, x: nat, y: nat)
    requires Adjacent(edges, x, y)
    ensures Connected(edges, x, y)
  {
    assert Path(edges, [x, y]);
  }

  lemma ConnectedBack(edges: seq<Edge>, x: nat, y: nat)
    requires Connected(edges, x, y)
    ensures Connected(edges, y, x)
  {
    var p :| Path(edges, p) && p[0] == x && p[|p| - 1] == y;
    var q := seq(|p|, i requires 0 <= i < |p| => p[|p| - 1 - i]);
    forall i | 0 <= i < |q| - 1 ensures Adjacent(edges, q[i], q[i + 1]) {
      assert Adjacent(edges, p[|p| - 2 - i], p[|p| - 2 - i + 1]);
    }
    assert Path(edges, q) && q[0] == y && q[|q| - 1] == x;
  }

  lemma ConnectedThrough(edges: seq<Edge>, x: nat, y: nat, z: nat)
    requires Connected(edges, x, y) && Connected(edges, y, z)
    ensures Connected(edges, x, z)
  {
    var p :| Path(edges, p) && p[0] == x && p[|p| - 1] == y;
    var q :| Path(edges, q) && q[0] == y && q[|q| - 1] == z;
    var r := p + q[1..];
    forall i | 0 <= i < |r| - 1 ensures Adjacent(edges, r[i], r[i + 1]) {
      if i < |p| - 1 {
        assert Adjacent(edges, p[i], p[i + 1]);
      } else {
        assert r[i] == q[i - (|p| - 1)] && Adjacent(edges, q[i - (|p| - 1)], q[i - (|p| - 1) + 1]);
      }
    }
    assert Path(edges, r) && r[0] == x && r[|r| - 1] == z;
  }

  lemma ConnectedMore(edges: seq<Edge>, e: Edge, x: nat, y: nat)
    requires Connected(edges, x, y)
    ensures Connected(edges + [e], x, y)
  {
    var p :| Path(edges, p) && p[0] == x && p[|p| - 1] == y;
    forall i | 0 <= i < |p| - 1 ensures Adjacent(edges + [e], p[i], p[i + 1]) {
      assert Adjacent(edges, p[i], p[i + 1]);
    }
    assert Path(edges + [e], p);
  }

  /** A labelling that agrees along every edge agrees along every path. */
  lemma {:induction false} MarkAlongPath(edges: seq<Edge>, mark: nat -> nat, p: seq<nat>)
    requires Path(edges, p) && forall e :: e in edges ==> mark(e.0) == mark(e.1)
    ensures mark(p[0]) == mark(p[|p| - 1])
    decreases |p|
  {
    if |p| > 1 {
      var init := p[..|p| - 1];
      forall i | 0 <= i < |init| - 1 ensures Adjacent(edges, init[i], init[i + 1]) {
        assert Adjacent(edges, p[i], p[i + 1]);
      }
      MarkAlongPath(edges, mark, init);
      assert Adjacent(edges, p[|p| - 2], p[|p| - 2 + 1]);
    }
  }

  lemma MarkAgrees(edges: seq<Edge>, mark: nat -> nat, x: nat, y: nat)
    requires Connected(edges, x, y) && forall e :: e in edges ==> mark(e.0) == mark(e.1)
    ensures mark(x) == mark(y)
  {
    var p :| Path(edges, p) && p[0] == x && p[|p| - 1] == y;
    MarkAlongPath(edges, mark, p);
  }

  // ------------------------------------------------------------------------------------- partitions

  predicate InSome(groups: seq<seq<nat>>, x: nat) {
    exists g :: 0 <= g < |groups| && x in groups[g]
  }

  /** Groups of nodes below n, none empty, each led by its least node, in the order of their leaders, none repeated. */
  ghost predicate Listed(groups: seq<seq<nat>>, n: nat) {
    && (forall g :: 0 <= g < |groups| ==> groups[g] != [])
    && (forall g, x :: 0 <= g < |groups| && x in groups[g] ==> x < n && groups[g][0] <= x)
    && (forall g, i, j :: 0 <= g < |groups| && 0 <= i < j < |groups[g]| ==> groups[g][i] != groups[g][j])
    && (forall g, h :: 0 <= g < h < |groups| ==> groups[g][0] < groups[h][0])
  }

  ghost predicate Together(groups: seq<seq<nat>>, edges: seq<Edge>) {
    forall g, x, y :: 0 <= g < |groups| && x in groups[g] && y in groups[g] ==> Connected(edges, x, y)
  }

  ghost predicate Apart(groups: seq<seq<nat>>, edges: seq<Edge>) {
    forall g, h, x, y :: 0 <= g < |groups| && 0 <= h < |groups| && x in groups[g] && y in groups[h] && Connected(edges, x, y)
                         ==> g == h
  }

  /** Every node below n in a group; two nodes share a group exactly when they are connected. */
  ghost predicate Partitions(groups: seq<seq<nat>>, n: nat, edges: seq<Edge>) {
    Listed(groups, n) && Together(groups, edges) && Apart(groups, edges) && forall x :: 0 <= x < n ==> InSome(groups, x)
  }

  function Heads(groups: seq<seq<nat>>): (hs: seq<nat>)
    requires forall g :: 0 <= g < |groups| ==> groups[g] != []
    ensures |hs| == |groups| && forall g :: 0 <= g < |groups| ==> hs[g] == groups[g][0]
  {
    seq(|groups|, g requires 0 <= g < |groups| => groups[g][0])
  }

  ghost predicate Increasing(s: seq<nat>) {
    forall i, j :: 0 <= i < j < |s| ==> s[i] < s[j]
  }

  lemma LastIsMax(a: seq<nat>, x: nat)
    requires Increasing(a) && x in a
    ensures x <= a[|a| - 1]
  {
  }

  lemma WithoutLast(a: seq<nat>, z: nat)
    requires Increasing(a) && a != []
    ensures z in a[..|a| - 1] <==> z in a && z != a[|a| - 1]
  {
    assert a == a[..|a| - 1] + [a[|a| - 1]];
  }

  lemma SameLast(a: seq<nat>, b: seq<nat>)
    requires Increasing(a) && Increasing(b) && a != [] && forall x :: x in a <==> x in b
    ensures b != [] && a[|a| - 1] == b[|b| - 1]
  {
    hide Increasing;
    assert a[|a| - 1] in b;
    assert b[|b| - 1] in a;
    LastIsMax(a, b[|b| - 1]);
    LastIsMax(b, a[|a| - 1]);
  }

  lemma InitIncreasing(s: seq<nat>)
    requires Increasing(s) && s != []
    ensures Increasing(s[..|s| - 1])
  {
  }

  lemma {:induction false} IncreasingUnique(a: seq<nat>, b: seq<nat>)
    requires Increasing(a) && Increasing(b) && forall x :: x in a <==> x in b
    ensures a == b
  {
    hide Increasing;
    assert b != [] ==> b[|b| - 1] in a;
    if a != [] {
      SameLast(a, b);
      InitIncreasing(a);
      InitIncreasing(b);
      var a', b' := a[..|a| - 1], b[..|b| - 1];
      forall z ensures z in a' <==> z in b' {
        WithoutLast(a, z);
        WithoutLast(b, z);
      }
      IncreasingUnique(a', b');
      assert a == a' + [a[|a| - 1]] && b == b' + [b[|b| - 1]];
    }
  }

  lemma HeadsNone(groups: seq<seq<nat>>, n: nat, edges: seq<Edge>, x: nat, y: nat)
    requires Partitions(groups, n, edges) && x in Heads(groups) && y < n && Connected(edges, x, y)
    ensures x < n && x <= y
  {
    hide Connected;
    var g :| 0 <= g < |groups| && groups[g][0] == x;
    assert x in groups[g] && InSome(groups, y);
    var h :| 0 <= h < |groups| && y in groups[h];
    assert h == g;
  }

  lemma LeastLeads(groups: seq<seq<nat>>, n: nat, edges: seq<Edge>, x: nat)
    requires Partitions(groups, n, edges) && x < n && forall y :: 0 <= y < n && Connected(edges, x, y) ==> x <= y
    ensures x in Heads(groups)
  {
    hide Connected;
    assert InSome(groups, x);
    var g :| 0 <= g < |groups| && x in groups[g];
    var y := groups[g][0];
    assert y in groups[g] && Connected(edges, x, y);
    assert Heads(groups)[g] == x;
  }

  /** A node is the head of a group exactly when no connected node below n is smaller. */
  lemma HeadIsLeast(groups: seq<seq<nat>>, n: nat, edges: seq<Edge>, x: nat)
    requires Partitions(groups, n, edges)
    ensures x in Heads(groups) <==> x < n && forall y :: 0 <= y < n && Connected(edges, x, y) ==> x <= y
  {
    hide Connected, Together, Apart, InSome;
    if x in Heads(groups) {
      HeadBelow(groups, n, edges, x);
      forall y | 0 <= y < n && Connected(edges, x, y) ensures x <= y {
        HeadsNone(groups, n, edges, x, y);
      }
    } else if x < n && forall y :: 0 <= y < n && Connected(edges, x, y) ==> x <= y {
      LeastLeads(groups, n, edges, x);
    }
  }

  lemma HeadBelow(groups: seq<seq<nat>>, n: nat, edges: seq<Edge>, x: nat)
    requires Partitions(groups, n, edges) && x in Heads(groups)
    ensures x < n
  {
    hide Connected;
    var g :| 0 <= g < |groups| && groups[g][0] == x;
    assert x in groups[g];
  }

  /** Two partitions by the same connectivity are the same groups in the same order. */
  lemma SamePartition(p: seq<seq<nat>>, q: seq<seq<nat>>, n: nat, edges: seq<Edge>)
    requires Partitions(p, n, edges) && Partitions(q, n, edges)
    ensures |p| == |q| && forall g, x :: 0 <= g < |p| ==> (x in p[g] <==> x in q[g])
  {
    hide Connected;
    forall x: nat ensures x in Heads(p) <==> x in Heads(q) {
      HeadIsLeast(p, n, edges, x);
      HeadIsLeast(q, n, edges, x);
    }
    IncreasingUnique(Heads(p), Heads(q));
    forall g, x | 0 <= g < |p| ensures x in p[g] <==> x in q[g] {
      assert Heads(p)[g] == Heads(q)[g];
      if x in p[g] { SameGroup(p, q, n, edges, g, x); }
      if x in q[g] { SameGroup(q, p, n, edges, g, x); }
    }
  }

  lemma SameGroup(p: seq<seq<nat>>, q: seq<seq<nat>>, n: nat, edges: seq<Edge>, g: nat, x: nat)
    requires Partitions(p, n, edges) && Partitions(q, n, edges) && g < |p| && g < |q|
    requires p[g] != [] && q[g] != [] && p[g][0] == q[g][0]
    requires x in p[g]
    ensures x in q[g]
  {
    hide Connected;
    assert p[g][0] in p[g] && q[g][0] in q[g] && Connected(edges, q[g][0], x);
    assert InSome(q, x);
    var h :| 0 <= h < |q| && x in q[h];
  }
}
