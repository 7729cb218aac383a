/** The connectivity oracle: component labelling by flood fill. */
module FloodFill {
  import opened Connectivity
  import opened Counting

  /** adj lists exactly the neighbours. */
  ghost predicate Neighbours(adj: seq<seq<nat>>, edges: seq<Edge>, n: nat) {
    |adj| == n && forall v, w :: 0 <= v < n ==> (w in adj[v] <==> Adjacent(edges, v, w))
  }

  ghost predicate Within(edges: seq<Edge>, n: nat) {
    forall e :: e in edges ==> e.0 < n && e.1 < n
  }

  method BuildAdjacency(n: nat, edges: seq<Edge>) returns (adj: seq<seq<nat>>)
    requires Within(edges, n)
    ensures Neighbours(adj, edges, n)
  {
    adj := seq(n, _ => []);
    for k := 0 to |edges|
      invariant Neighbours(adj, edges[..k], n)
    {
      var (a, b) := edges[k];
      assert edges[k] in edges && edges[..k + 1] == edges[..k] + [(a, b)];
      adj := adj[a := adj[a] + [b]];
      adj := adj[b := adj[b] + [a]];
    }
    assert edges[..|edges|] == edges;
  }

  /** The seen nodes form whole components. */
  ghost predicate ClosedUnder(seen: seq<bool>, edges: seq<Edge>) {
    forall v: nat, w: nat :: v < |seen| && seen[v] && Adjacent(edges, v, w) ==> w < |seen| && seen[w]
  }

  /** The groups so far are the components of the seen nodes, and every node before i has been seen. */
  ghost predicate Progress(groups: seq<seq<nat>>, seen: seq<bool>, n: nat, edges: seq<Edge>, i: nat) {
    && |seen| == n && Listed(groups, n) && Together(groups, edges) && Apart(groups, edges) && ClosedUnder(seen, edges)
    && (forall x :: 0 <= x < n ==> (seen[x] <==> InSome(groups, x)))
    && (forall x :: 0 <= x < i && x < n ==> seen[x])
    && forall g :: 0 <= g < |groups| ==> groups[g][0] < i
  }

  /** While one component is being filled: what was popped, what waits, and what was seen before. */
  ghost predicate Filling(i: nat, group: seq<nat>, stack: seq<nat>, seen: seq<bool>, before: seq<bool>, edges: seq<Edge>) {
    && |seen| == |before| && (if group == [] then stack == [i] else group[0] == i)
    && (forall x :: 0 <= x < |seen| ==> (seen[x] <==> before[x] || x in group || x in stack))
    && (forall x :: x in group || x in stack ==> x < |seen| && !before[x] && Connected(edges, i, x))
    && (forall x :: x in group ==> x !in stack)
    && (forall j, k :: 0 <= j < k < |group| ==> group[j] != group[k])
    && (forall j, k :: 0 <= j < k < |stack| ==> stack[j] != stack[k])
  }

  /** Popped nodes have had their neighbours marked; for v, the first k of them. */
  ghost predicate Marked(group: seq<nat>, seen: seq<bool>, edges: seq<Edge>) {
    forall x: nat, w: nat :: x in group && Adjacent(edges, x, w) ==> w < |seen| && seen[w]
  }

  /** Components in the order of their least nodes. */
  method ComponentsBruteforce(n: nat, edges: seq<Edge>) returns (groups: seq<seq<nat>>)
    requires Within(edges, n)
    ensures Partitions(groups, n, edges)
  {
    hide Connected, Adjacent, Neighbours, Progress, Listed, Together, Apart, InSome;
    var adj := BuildAdjacency(n, edges);
    var seen := seq(n, _ => false);
    groups := [];
    NothingSeen(seen, n, edges);
    for i := 0 to n
      invariant Progress(groups, seen, n, edges, i) && |seen| == n
    {
      if seen[i] {
        AlreadySeen(groups, seen, n, edges, i);
        continue;
      }
      var group;
      ghost var before := seen;
      group, seen := Flood(i, adj, seen, n, edges);
      ComponentDone(groups, before, group, seen, n, edges, i);
      groups := groups + [group];
    }
    AllSeen(groups, seen, n, edges);
  }

  /** Everything connected to i, popped from a stack. */
  method Flood(i: nat, adj: seq<seq<nat>>, seen0: seq<bool>, n: nat, ghost edges: seq<Edge>)
    returns (group: seq<nat>, seen: seq<bool>)
    requires Neighbours(adj, edges, n) && Within(edges, n) && |seen0| == n && i < n && !seen0[i]
    ensures Filling(i, group, [], seen, seen0, edges) && Marked(group, seen, edges)
  {
    hide Connected, Adjacent, Neighbours, Filling, Marked, Unseen;
    var stack := [i];
    group, seen := [], seen0[i := true];
    FillStart(i, seen0, edges);
    while stack != []
      invariant |seen| == n && Filling(i, group, stack, seen, seen0, edges) && Marked(group, seen, edges)
      decreases |Unseen(seen)| + |stack|
    {
      var v := stack[|stack| - 1];
      ghost var was := |Unseen(seen)| + |stack|;
      FillPop(i, group, stack, seen, seen0, edges);
      ghost var popped := group;
      stack, group := stack[..|stack| - 1], group + [v];
      NeighbourLists(adj, edges, n, v);
      for k := 0 to |adj[v]|
        invariant |seen| == n && Filling(i, group, stack, seen, seen0, edges) && Marked(popped, seen, edges)
        invariant forall j :: 0 <= j < k ==> adj[v][j] < n && seen[adj[v][j]]
        invariant |Unseen(seen)| + |stack| == was - 1
      {
        var w := adj[v][k];
        NeighbourIn(adj, edges, n, v, w);
        if !seen[w] {
          FillPush(i, group, stack, seen, seen0, edges, v, w);
          MarkMore(popped, seen, edges, w);
          Mark(seen, w);
          OneFewer(Unseen(seen), w);
          seen, stack := seen[w := true], stack + [w];
        }
      }
      NeighbourhoodMarked(adj, edges, n, v, popped, seen);
    }
  }

  lemma OneFewer(s: set<nat>, w: nat)
    requires w in s
    ensures |s - {w}| == |s| - 1
  {
  }

  lemma NeighbourLists(adj: seq<seq<nat>>, edges: seq<Edge>, n: nat, v: nat)
    requires Neighbours(adj, edges, n)
    ensures |adj| == n
  {
  }

  lemma NeighbourIn(adj: seq<seq<nat>>, edges: seq<Edge>, n: nat, v: nat, w: nat)
    requires Neighbours(adj, edges, n) && Within(edges, n) && v < n && w in adj[v]
    ensures Adjacent(edges, v, w) && w < n
  {
  }

  lemma FillStart(i: nat, seen0: seq<bool>, edges: seq<Edge>)
    requires i < |seen0| && !seen0[i]
    ensures Filling(i, [], [i], seen0[i := true], seen0, edges) && Marked([], seen0[i := true], edges)
  {
    hide Connected;
    ConnectedSelf(edges, i);
  }

  lemma FillPop(i: nat, group: seq<nat>, stack: seq<nat>, seen: seq<bool>, before: seq<bool>, edges: seq<Edge>)
    requires Filling(i, group, stack, seen, before, edges) && stack != []
    ensures var v := stack[|stack| - 1];
            v < |seen| && Connected(edges, i, v) && Filling(i, group + [v], stack[..|stack| - 1], seen, before, edges)
  {
    hide Connected;
    var v, rest := stack[|stack| - 1], stack[..|stack| - 1];
    assert stack == rest + [v] && v !in rest;
    assert forall x :: x in stack <==> x in rest || x == v;
    assert forall x :: x in group + [v] <==> x in group || x == v;
  }

  lemma FillPush(i: nat, group: seq<nat>, stack: seq<nat>, seen: seq<bool>, before: seq<bool>, edges: seq<Edge>, v: nat, w: nat)
    requires Filling(i, group, stack, seen, before, edges) && v in group && Adjacent(edges, v, w)
    requires w < |seen| && !seen[w]
    ensures Filling(i, group, stack + [w], seen[w := true], before, edges)
  {
    hide Connected, Adjacent;
    ConnectedEdge(edges, v, w);
    ConnectedThrough(edges, i, v, w);
  }

  lemma MarkMore(group: seq<nat>, seen: seq<bool>, edges: seq<Edge>, w: nat)
    requires Marked(group, seen, edges) && w < |seen|
    ensures Marked(group, seen[w := true], edges)
  {
    hide Adjacent;
  }

  lemma NeighbourhoodMarked(adj: seq<seq<nat>>, edges: seq<Edge>, n: nat, v: nat, popped: seq<nat>, seen: seq<bool>)
    requires Neighbours(adj, edges, n) && v < n && |seen| == n && Marked(popped, seen, edges)
    requires forall j :: 0 <= j < |adj[v]| ==> adj[v][j] < n && seen[adj[v][j]]
    ensures Marked(popped + [v], seen, edges)
  {
    hide Adjacent;
    forall w: nat | Adjacent(edges, v, w) ensures w < n && seen[w] {
      assert w in adj[v];
    }
  }

  // ----------------------------------------------------------------------------- component by component

  lemma NothingSeen(seen: seq<bool>, n: nat, edges: seq<Edge>)
    requires |seen| == n && forall x :: 0 <= x < n ==> !seen[x]
    ensures Progress([], seen, n, edges, 0)
  {
    hide Connected, Adjacent;
  }

  lemma AlreadySeen(groups: seq<seq<nat>>, seen: seq<bool>, n: nat, edges: seq<Edge>, i: nat)
    requires Progress(groups, seen, n, edges, i) && i < n && seen[i]
    ensures Progress(groups, seen, n, edges, i + 1)
  {
    hide Listed, Together, Apart, ClosedUnder, InSome;
  }

  lemma AllSeen(groups: seq<seq<nat>>, seen: seq<bool>, n: nat, edges: seq<Edge>)
    requires Progress(groups, seen, n, edges, n)
    ensures Partitions(groups, n, edges)
  {
    hide Listed, Together, Apart, ClosedUnder, InSome;
  }

  /** The group is a whole component. */
  lemma WholeComponent(group: seq<nat>, before: seq<bool>, seen: seq<bool>, edges: seq<Edge>, i: nat, x: nat, y: nat)
    requires Filling(i, group, [], seen, before, edges) && Marked(group, seen, edges) && ClosedUnder(before, edges)
    requires x in group && Connected(edges, x, y)
    ensures y in group
  {
    hide Connected;
    forall e | e in edges ensures e.0 in group <==> e.1 in group {
      EdgeStays(group, before, seen, edges, i, e.0, e.1);
      EdgeStays(group, before, seen, edges, i, e.1, e.0);
    }
    MarkAgrees(edges, (z: nat) => if z in group then 1 else 0, x, y);
  }

  lemma EdgeStays(group: seq<nat>, before: seq<bool>, seen: seq<bool>, edges: seq<Edge>, i: nat, a: nat, b: nat)
    requires Filling(i, group, [], seen, before, edges) && Marked(group, seen, edges) && ClosedUnder(before, edges)
    requires Adjacent(edges, a, b)
    ensures a in group ==> b in group
  {
    hide Connected;
    assert Adjacent(edges, b, a);
  }

  lemma ComponentDone(groups: seq<seq<nat>>, before: seq<bool>, group: seq<nat>, seen: seq<bool>, n: nat, edges: seq<Edge>, i: nat)
    requires Progress(groups, before, n, edges, i) && i < n && !before[i]
    requires Filling(i, group, [], seen, before, edges) && Marked(group, seen, edges)
    ensures Progress(groups + [group], seen, n, edges, i + 1)
  {
    hide Connected, Adjacent, Listed, Together, Apart, InSome, ClosedUnder;
    NewClosed(before, group, seen, edges, i);
    NewListed(groups, before, group, seen, n, edges, i);
    NewTogether(groups, before, group, seen, n, edges, i);
    NewApart(groups, before, group, seen, n, edges, i);
    forall x | 0 <= x < n ensures seen[x] <==> InSome(groups + [group], x) {
      NewSome(groups, group, x);
    }
    assert group[0] in group;
  }

  lemma NewClosed(before: seq<bool>, group: seq<nat>, seen: seq<bool>, edges: seq<Edge>, i: nat)
    requires Filling(i, group, [], seen, before, edges) && Marked(group, seen, edges) && ClosedUnder(before, edges)
    ensures ClosedUnder(seen, edges)
  {
    hide Connected, Adjacent;
  }

  lemma NewSome(groups: seq<seq<nat>>, group: seq<nat>, x: nat)
    ensures InSome(groups + [group], x) <==> InSome(groups, x) || x in group
  {
    var more := groups + [group];
    if x in group {
      assert more[|groups|] == group;
    }
    if g :| 0 <= g < |groups| && x in groups[g] {
      assert more[g] == groups[g];
    }
  }

  lemma NewListed(groups: seq<seq<nat>>, before: seq<bool>, group: seq<nat>, seen: seq<bool>, n: nat, edges: seq<Edge>, i: nat)
    requires Progress(groups, before, n, edges, i) && i < n && !before[i]
    requires Filling(i, group, [], seen, before, edges)
    ensures Listed(groups + [group], n)
  {
    hide Connected, Together, Apart, InSome, ClosedUnder;
  }

  lemma NewTogether(groups: seq<seq<nat>>, before: seq<bool>, group: seq<nat>, seen: seq<bool>, n: nat, edges: seq<Edge>, i: nat)
    requires Progress(groups, before, n, edges, i) && Filling(i, group, [], seen, before, edges)
    ensures Together(groups + [group], edges)
  {
    hide Connected, Apart, InSome, ClosedUnder, Listed;
    forall x, y | x in group && y in group ensures Connected(edges, x, y) {
      ConnectedBack(edges, i, x);
      ConnectedThrough(edges, x, i, y);
    }
  }

  lemma NewApart(groups: seq<seq<nat>>, before: seq<bool>, group: seq<nat>, seen: seq<bool>, n: nat, edges: seq<Edge>, i: nat)
    requires Progress(groups, before, n, edges, i) && i < n && !before[i]
    requires Filling(i, group, [], seen, before, edges) && Marked(group, seen, edges)
    ensures Apart(groups + [group], edges)
  {
    hide Connected, Together, ClosedUnder, Marked;
    forall h, x, y | 0 <= h < |groups| && x in groups[h] && y in group
      ensures !Connected(edges, x, y) && !Connected(edges, y, x)
    {
      OldApart(groups, before, group, seen, n, edges, i, h, x, y);
    }
  }

  lemma OldApart(groups: seq<seq<nat>>, before: seq<bool>, group: seq<nat>, seen: seq<bool>, n: nat, edges: seq<Edge>, i: nat,
                 h: nat, x: nat, y: nat)
    requires Progress(groups, before, n, edges, i)
    requires Filling(i, group, [], seen, before, edges) && Marked(group, seen, edges)
    requires h < |groups| && x in groups[h] && y in group
    ensures !Connected(edges, x, y) && !Connected(edges, y, x)
  {
    hide Connected, Together, Apart, ClosedUnder, Marked;
    assert InSome(groups, x) && x < n;
    assert before[x];
    if Connected(edges, x, y) {
      ConnectedBack(edges, x, y);
    }
    if Connected(edges, y, x) {
      WholeComponent(group, before, seen, edges, i, y, x);
    }
  }
}
