/**
 What Dijkstra and A* share: tentative distances that only fall, parents that always lead closer to the source, and
 a frontier ordered by key and then node. Nothing here depends on the order of expansion.
 */
module LabelSearch {
  import opened RoadGraph

  /** Effectively infinite: the distance of a node not reached. */
  const UNREACHABLE: real := 1000000000000000000000000000000000000000000000000000000000000000000000000000000000000000000000000000000000000000000000000000000000000000000000000000000000000000000000000000000000000000000000000000000000000000000000000000000000000000000000000000000000000000000000000000000000000000000000000.0

  const NO_NODE: int := -1

  /** A frontier entry: priority, cost so far, node. */
  datatype Item = Item(key: real, cost: real, node: nat)

  predicate Before(a: Item, b: Item) {
    if a.key != b.key then a.key < b.key else a.node < b.node
  }

  type Frontier = multiset<Item>

  lemma FirstOfTwo(f: Frontier, rest: Frontier, a: Item, b: Item, x: Item)
    requires a in f && b in f && forall y :: y in f ==> y in rest || y == a
    requires forall y :: y in rest ==> !Before(y, b)
    requires x == if Before(a, b) then a else b
    ensures x in f && forall y :: y in f ==> !Before(y, x)
  {
  }

  lemma {:induction false} SomeFirst(f: Frontier)
    requires f != multiset{}
    ensures exists x :: x in f && forall y :: y in f ==> !Before(y, x)
  {
    var a :| a in f;
    var rest := f - multiset{a};
    assert forall y :: y in f ==> y in rest || y == a;
    if rest != multiset{} {
      SomeFirst(rest);
      var b :| b in rest && forall y :: y in rest ==> !Before(y, b);
      var x := if Before(a, b) then a else b;
      FirstOfTwo(f, rest, a, b, x);
    } else {
      assert a in f && forall y :: y in f ==> !Before(y, a);
    }
  }

  /** The heap's pop: an entry that no other entry precedes. */
  method Pop(f: Frontier) returns (first: Item, rest: Frontier)
    requires f != multiset{}
    ensures first in f && rest == f - multiset{first}
    ensures forall y :: y in f ==> !Before(y, first)
    ensures forall y :: y in f ==> first.key < y.key || (first.key == y.key && first.node <= y.node)
  {
    SomeFirst(f);
    first :| first in f && forall y :: y in f ==> !Before(y, first);
    rest := f - multiset{first};
  }

  // ----------------------------------------------------------------------------------------- labels

  /** Distances and parents, with the walk behind each distance and the moment it was last lowered. */
  datatype Labels = Labels(g: Graph, source: nat, dist: seq<real>, parent: seq<int>, walk: seq<Walk>, stamp: seq<nat>) {

    ghost predicate Sized() {
      WellFormed(g) && source < |g| && |dist| == |parent| == |walk| == |stamp| == |g|
    }

    predicate Reached(v: nat)
      requires v < |dist|
    {
      dist[v] < UNREACHABLE
    }

    /** The label of every node on the walk is at most the length of the walk up to it. */
    ghost predicate Prefixes(w: Walk)
      requires Sized() && IsWalk(g, source, w)
      decreases |w|
    {
      WalkStaysInside(g, source, w);
      dist[End(g, source, w)] <= Weight(g, w) && (w != [] ==> Prefixes(w[..|w| - 1]))
    }

    ghost predicate WalkOk(v: nat)
      requires Sized() && v < |g|
    {
      && IsWalk(g, source, walk[v]) && End(g, source, walk[v]) == v && Weight(g, walk[v]) == dist[v]
      && Simple(g, source, walk[v]) && Prefixes(walk[v])
    }

    /** Strictly closer to the source, or as close and settled earlier. */
    ghost predicate Closer(p: nat, v: nat)
      requires Sized() && p < |g| && v < |g|
    {
      dist[p] < dist[v] || (dist[p] == dist[v] && stamp[p] < stamp[v])
    }

    /** An edge from p accounts for the label of v. */
    ghost predicate Supports(p: nat, v: nat)
      requires Sized() && p < |g|
    {
      exists i :: 0 <= i < |g[p]| && g[p][i].to == v && v < |g| && dist[p] + g[p][i].weight <= dist[v]
    }

    ghost predicate ParentOk(v: nat)
      requires Sized() && v < |g|
    {
      if v == source || !Reached(v) then parent[v] == NO_NODE
      else 0 <= parent[v] < |g| && Closer(parent[v], v) && Supports(parent[v], v)
    }

    ghost predicate Ok() {
      && Sized() && dist[source] == 0.0
      && (forall v :: 0 <= v < |g| ==> 0.0 <= dist[v] <= UNREACHABLE)
      && (forall v :: 0 <= v < |g| && Reached(v) ==> WalkOk(v))
      && (forall v :: 0 <= v < |g| ==> ParentOk(v))
    }

    /** The label of v lowered by the edge in the given slot of u. */
    ghost function Lowered(u: nat, slot: nat, clock: nat): Labels
      requires Sized() && u < |g| && slot < |g[u]|
    {
      var v := g[u][slot].to;
      this.(dist := dist[v := dist[u] + g[u][slot].weight], parent := parent[v := u],
            walk := walk[v := walk[u] + [Step(u, slot)]], stamp := stamp[v := clock])
    }
  }

  lemma {:induction false} PrefixesFall(l: Labels, m: Labels, w: Walk)
    requires l.Sized() && m.Sized() && l.g == m.g && l.source == m.source
    requires IsWalk(l.g, l.source, w) && l.Prefixes(w)
    requires forall v :: 0 <= v < |l.g| ==> m.dist[v] <= l.dist[v]
    ensures m.Prefixes(w)
    decreases |w|
  {
    WalkStaysInside(l.g, l.source, w);
    if w != [] {
      PrefixesFall(l, m, w[..|w| - 1]);
    }
  }

  /** No label on a walk exceeds the length of the whole walk. */
  lemma {:induction false} LabelsOnWalk(l: Labels, w: Walk, i: nat)
    requires l.Sized() && IsWalk(l.g, l.source, w) && l.Prefixes(w) && i <= |w|
    ensures Nodes(l.g, l.source, w)[i] < |l.g| && l.dist[Nodes(l.g, l.source, w)[i]] <= Weight(l.g, w)
    decreases |w|
  {
    WalkStaysInside(l.g, l.source, w);
    if i < |w| {
      LabelsOnWalk(l, w[..|w| - 1], i);
    }
  }

  /** Lowering a label keeps every label justified. */
  lemma Lower(l: Labels, u: nat, slot: nat, clock: nat)
    requires l.Ok() && u < |l.g| && slot < |l.g[u]| && l.Reached(u)
    requires l.dist[u] + l.g[u][slot].weight < l.dist[l.g[u][slot].to]
    requires forall v :: 0 <= v < |l.g| ==> l.stamp[v] < clock
    ensures l.Lowered(u, slot, clock).Ok()
  {
    var m := l.Lowered(u, slot, clock);
    var t := l.g[u][slot].to;
    assert t != u;
    forall v | 0 <= v < |l.g| && m.Reached(v) ensures m.WalkOk(v) {
      if v == t {
        LowerWalk(l, u, slot, clock);
      } else {
        assert l.Reached(v) && l.WalkOk(v);
        PrefixesFall(l, m, l.walk[v]);
      }
    }
    forall v | 0 <= v < |l.g| ensures m.ParentOk(v) {
      LowerParent(l, u, slot, clock, v);
    }
  }

  lemma LowerWalk(l: Labels, u: nat, slot: nat, clock: nat)
    requires l.Ok() && u < |l.g| && slot < |l.g[u]| && l.Reached(u)
    requires l.dist[u] + l.g[u][slot].weight < l.dist[l.g[u][slot].to]
    ensures l.Lowered(u, slot, clock).WalkOk(l.g[u][slot].to)
  {
    var m, t, s := l.Lowered(u, slot, clock), l.g[u][slot].to, Step(u, slot);
    var w := l.walk[u];
    Extend(l.g, l.source, w, s);
    PrefixesFall(l, m, w);
    assert (w + [s])[..|w|] == w;
    forall i | 0 <= i <= |w| ensures Nodes(l.g, l.source, w)[i] != t {
      LabelsOnWalk(l, w, i);
    }
  }

  lemma LowerParent(l: Labels, u: nat, slot: nat, clock: nat, v: nat)
    requires l.Ok() && u < |l.g| && slot < |l.g[u]| && l.Reached(u) && v < |l.g|
    requires l.dist[u] + l.g[u][slot].weight < l.dist[l.g[u][slot].to]
    requires forall x :: 0 <= x < |l.g| ==> l.stamp[x] < clock
    ensures l.Lowered(u, slot, clock).ParentOk(v)
  {
    var m, t := l.Lowered(u, slot, clock), l.g[u][slot].to;
    assert l.ParentOk(v);
    if v == t {
      assert m.Supports(u, t);
    } else if v != l.source && l.Reached(v) {
      var p := l.parent[v];
      var i :| 0 <= i < |l.g[p]| && l.g[p][i].to == v && l.dist[p] + l.g[p][i].weight <= l.dist[v];
      assert m.dist[p] + m.g[p][i].weight <= m.dist[v];
      assert m.Supports(p, v);
    }
  }

  /** The tie rule: an equally good predecessor over an edge of positive weight may take over as parent. */
  lemma Reparent(l: Labels, u: nat, slot: nat)
    requires l.Ok() && u < |l.g| && slot < |l.g[u]| && l.Reached(u)
    requires l.g[u][slot].weight > 0.0 && l.dist[u] + l.g[u][slot].weight == l.dist[l.g[u][slot].to]
    requires l.parent[l.g[u][slot].to] >= 0
    ensures l.(parent := l.parent[l.g[u][slot].to := u]).Ok()
  {
    var m, t := l.(parent := l.parent[l.g[u][slot].to := u]), l.g[u][slot].to;
    forall v | 0 <= v < |l.g| && m.Reached(v) ensures m.WalkOk(v) {
      assert l.Reached(v) && l.WalkOk(v);
      PrefixesFall(l, m, l.walk[v]);
    }
    assert l.ParentOk(t);
    forall v | 0 <= v < |l.g| ensures m.ParentOk(v) {
      assert l.ParentOk(v);
      if v == t {
        assert m.Supports(u, t);
      } else if v != l.source && l.Reached(v) {
        var p := l.parent[v];
        var i :| 0 <= i < |l.g[p]| && l.g[p][i].to == v && l.dist[p] + l.g[p][i].weight <= l.dist[v];
        assert m.Supports(p, v);
      }
    }
  }

  // ------------------------------------------------------------------------------------ termination

  /** The walks shorter than the label of their end: every lowering removes one of finitely many. */
  ghost function Shorter(l: Labels): set<Walk>
    requires l.Sized()
  {
    set w | w in Sequences(AllSteps(l.g), |l.g|) && IsWalk(l.g, l.source, w) && End(l.g, l.source, w) < |l.g|
            && Weight(l.g, w) < l.dist[End(l.g, l.source, w)]
  }

  lemma LowerShrinks(l: Labels, u: nat, slot: nat, clock: nat)
    requires l.Ok() && u < |l.g| && slot < |l.g[u]| && l.Reached(u)
    requires l.dist[u] + l.g[u][slot].weight < l.dist[l.g[u][slot].to]
    requires l.Lowered(u, slot, clock).Ok()
    ensures Shorter(l.Lowered(u, slot, clock)) < Shorter(l)
  {
    var m, t := l.Lowered(u, slot, clock), l.g[u][slot].to;
    var w := m.walk[t];
    assert m.WalkOk(t);
    SimpleIsShort(l.g, l.source, w);
    WalkIsSequence(l.g, l.source, w, |l.g|);
    assert w in Shorter(l) && w !in Shorter(m);
  }

  // --------------------------------------------------------------------------------------- frontier

  ghost function Fresh(l: Labels, h: seq<real>, v: nat): Item
    requires l.Sized() && |h| == |l.g| && v < |l.g|
  {
    Item(l.dist[v] + h[v], l.dist[v], v)
  }

  /** Every entry belongs to a reached node and is not below its label; the entry for the current label of a node is
      there exactly once until the node is expanded, and then gone. */
  ghost predicate Queued(l: Labels, h: seq<real>, f: Frontier, done: set<nat>) {
    && l.Sized() && |h| == |l.g|
    && (forall x :: x in f ==> x.node < |l.g| && l.dist[x.node] <= x.cost && x.key == x.cost + h[x.node]
                               && l.Reached(x.node))
    && (forall v :: v in done ==> v < |l.g| && l.Reached(v))
    && (forall v :: 0 <= v < |l.g| && l.Reached(v) ==> f[Fresh(l, h, v)] == if v in done then 0 else 1)
  }

  /** The first k edges out of u offer no improvement. */
  ghost predicate Relaxed(l: Labels, u: nat, k: nat)
    requires l.Sized() && u < |l.g| && k <= |l.g[u]|
  {
    forall i :: 0 <= i < k ==> l.dist[l.g[u][i].to] <= l.dist[u] + l.g[u][i].weight
  }

  ghost predicate AllRelaxed(l: Labels, done: set<nat>)
    requires l.Sized()
  {
    forall v :: v in done ==> v < |l.g| && Relaxed(l, v, |l.g[v]|)
  }

  ghost predicate StampsBelow(l: Labels, clock: nat) {
    forall v :: 0 <= v < |l.stamp| ==> l.stamp[v] < clock
  }

  /** An edge of positive weight that accounts exactly for the label of its target. */
  ghost predicate TightSlot(l: Labels, u: nat, i: nat)
    requires l.Sized() && u < |l.g| && i < |l.g[u]|
  {
    var e := l.g[u][i];
    e.weight > 0.0 && l.dist[u] + e.weight == l.dist[e.to] && l.Reached(e.to)
  }

  /** Where u has a tight edge, the parent is not higher than u. */
  ghost predicate NoLowerThanParent(l: Labels, u: nat, k: nat)
    requires l.Sized() && u < |l.g| && k <= |l.g[u]|
  {
    forall i :: 0 <= i < k && TightSlot(l, u, i) ==> l.parent[l.g[u][i].to] <= u
  }

  /** What expanding u does to labels and parents: a lowered label is not below u's own and has u as parent, any
      other parent either stays or gives way to a lower u. */
  ghost predicate ExpandedBy(l: Labels, m: Labels, u: nat) {
    && l.Sized() && m.Sized() && l.g == m.g && l.source == m.source && u < |l.g| && m.dist[u] == l.dist[u]
    && forall v :: 0 <= v < |l.g| ==>
         || (m.dist[v] < l.dist[v] && l.dist[u] <= m.dist[v] && m.parent[v] == u)
         || (m.dist[v] == l.dist[v] && (m.parent[v] == l.parent[v] || (m.parent[v] == u && u < l.parent[v])))
  }

  /** One lowering, in the queue's terms: the node is pushed again and no longer counts as expanded. */
  lemma LowerQueued(l: Labels, h: seq<real>, f: Frontier, done: set<nat>, u: nat, slot: nat, clock: nat)
    requires Queued(l, h, f, done) && u < |l.g| && slot < |l.g[u]| && l.Reached(u)
    requires l.dist[u] + l.g[u][slot].weight < l.dist[l.g[u][slot].to] <= UNREACHABLE
    requires u in done && AllRelaxed(l, done - {u})
    ensures var m, t := l.Lowered(u, slot, clock), l.g[u][slot].to;
            Queued(m, h, f + multiset{Fresh(m, h, t)}, done - {t}) && AllRelaxed(m, done - {t} - {u}) && u != t
  {
    var m, t := l.Lowered(u, slot, clock), l.g[u][slot].to;
    assert Fresh(m, h, t) !in f;
    forall v | 0 <= v < |l.g| && m.Reached(v) && v != t
      ensures Fresh(m, h, v) == Fresh(l, h, v) && l.Reached(v)
    {
    }
  }

  /** The invariant of the relaxation loop. */
  ghost predicate Expanding(l0: Labels, h: seq<real>, f0: Frontier, done0: set<nat>, l: Labels, f: Frontier,
                            done: set<nat>, clock: nat, u: nat, i: nat)
  {
    && l0.Sized() && l.Ok() && l.g == l0.g && l.source == l0.source && StampsBelow(l, clock)
    && u < |l.g| && i <= |l.g[u]| && l.Reached(u) && u in done
    && Queued(l, h, f, done) && AllRelaxed(l, done - {u}) && Relaxed(l, u, i)
    && ExpandedBy(l0, l, u) && NoLowerThanParent(l, u, i)
    && (forall v :: v in done <==> v in done0 + {u} && v < |l.g| && l.dist[v] == l0.dist[v])
    && (forall x :: x in f ==> x in f0 || l.dist[u] <= x.cost)
    && f0 <= f && (if f == f0 then Shorter(l) == Shorter(l0) else Shorter(l) < Shorter(l0))
  }

  lemma LowerEffects(l0: Labels, l: Labels, u: nat, slot: nat, clock: nat)
    requires l.Sized() && ExpandedBy(l0, l, u) && slot < |l.g[u]|
    requires Relaxed(l, u, slot) && NoLowerThanParent(l, u, slot)
    requires l.dist[u] + l.g[u][slot].weight < l.dist[l.g[u][slot].to]
    ensures var m := l.Lowered(u, slot, clock);
            ExpandedBy(l0, m, u) && Relaxed(m, u, slot + 1) && NoLowerThanParent(m, u, slot + 1)
  {
    var m, t := l.Lowered(u, slot, clock), l.g[u][slot].to;
    assert l.g[u][slot].weight >= 0.0 && t != u;
    forall i | 0 <= i < slot + 1 && TightSlot(m, u, i) ensures m.parent[m.g[u][i].to] <= u {
      assert i < slot && m.g[u][i].to != t ==> TightSlot(l, u, i);
    }
  }

  lemma GrownFrontier(f0: Frontier, f: Frontier, x: Item)
    requires f0 <= f
    ensures f0 <= f + multiset{x} && f + multiset{x} != f0
  {
    assert |f + multiset{x}| == |f| + 1 && f == f0 + (f - f0);
  }

  lemma OkSized(l: Labels)
    requires l.Ok()
    ensures l.Sized()
  {
  }

  lemma LabelsInRange(l: Labels, v: nat)
    requires l.Ok() && v < |l.g|
    ensures l.Sized() && 0.0 <= l.dist[v] <= UNREACHABLE && (l.Reached(v) && v != l.source <==> l.parent[v] >= 0)
  {
    assert l.ParentOk(v);
  }

  lemma StepLower(l0: Labels, h: seq<real>, f0: Frontier, done0: set<nat>, l: Labels, f: Frontier,
                  done: set<nat>, clock: nat, u: nat, i: nat)
    requires Expanding(l0, h, f0, done0, l, f, done, clock, u, i) && i < |l.g[u]|
    requires l.dist[u] + l.g[u][i].weight < l.dist[l.g[u][i].to]
    ensures var m, t := l.Lowered(u, i, clock), l.g[u][i].to;
            Expanding(l0, h, f0, done0, m, f + multiset{Fresh(m, h, t)}, done - {t}, clock + 1, u, i + 1)
  {
    hide Labels.Ok, Queued, AllRelaxed, Relaxed, NoLowerThanParent, Shorter;
    var m, t := l.Lowered(u, i, clock), l.g[u][i].to;
    LabelsInRange(l, t);
    Lower(l, u, i, clock);
    LowerQueued(l, h, f, done, u, i, clock);
    LowerEffects(l0, l, u, i, clock);
    LowerShrinks(l, u, i, clock);
    GrownFrontier(f0, f, Fresh(m, h, t));
    assert done - {t} - {u} == (done - {t}) - {u};
  }

  lemma StepTie(l0: Labels, h: seq<real>, f0: Frontier, done0: set<nat>, l: Labels, f: Frontier,
                done: set<nat>, clock: nat, u: nat, i: nat)
    requires Expanding(l0, h, f0, done0, l, f, done, clock, u, i) && i < |l.g[u]|
    requires l.g[u][i].weight > 0.0 && l.dist[u] + l.g[u][i].weight == l.dist[l.g[u][i].to] && u < l.parent[l.g[u][i].to]
    ensures var m := l.(parent := l.parent[l.g[u][i].to := u]);
            Expanding(l0, h, f0, done0, m, f, done, clock, u, i + 1)
  {
    hide Labels.Ok, Queued, AllRelaxed, Relaxed, NoLowerThanParent, ExpandedBy, Shorter;
    LabelsInRange(l, u);
    Reparent(l, u, i);
    TieQueued(l, h, f, done, u, l.g[u][i].to);
    TieEffects(l0, l, u, i);
  }

  lemma TieQueued(l: Labels, h: seq<real>, f: Frontier, done: set<nat>, u: nat, t: nat)
    requires Queued(l, h, f, done) && AllRelaxed(l, done - {u}) && t < |l.g|
    ensures var m := l.(parent := l.parent[t := u]);
            Queued(m, h, f, done) && AllRelaxed(m, done - {u}) && Shorter(m) == Shorter(l)
  {
    var m := l.(parent := l.parent[t := u]);
    forall v | 0 <= v < |l.g| && m.Reached(v) ensures f[Fresh(m, h, v)] == if v in done then 0 else 1 {
      assert l.Reached(v) && Fresh(m, h, v) == Fresh(l, h, v);
    }
    forall v | v in done - {u} ensures v < |l.g| && Relaxed(m, v, |l.g[v]|) {
      assert Relaxed(l, v, |l.g[v]|);
    }
  }

  lemma TieEffects(l0: Labels, l: Labels, u: nat, i: nat)
    requires l.Sized() && ExpandedBy(l0, l, u) && i < |l.g[u]| && Relaxed(l, u, i) && NoLowerThanParent(l, u, i)
    requires l.dist[u] + l.g[u][i].weight == l.dist[l.g[u][i].to] && u < l.parent[l.g[u][i].to]
    ensures var m := l.(parent := l.parent[l.g[u][i].to := u]);
            ExpandedBy(l0, m, u) && Relaxed(m, u, i + 1) && NoLowerThanParent(m, u, i + 1)
  {
    var m := l.(parent := l.parent[l.g[u][i].to := u]);
    forall k | 0 <= k < i + 1 && TightSlot(m, u, k) ensures m.parent[m.g[u][k].to] <= u {
      assert k < i ==> TightSlot(l, u, k);
    }
  }

  lemma StepKeep(l0: Labels, h: seq<real>, f0: Frontier, done0: set<nat>, l: Labels, f: Frontier,
                 done: set<nat>, clock: nat, u: nat, i: nat)
    requires Expanding(l0, h, f0, done0, l, f, done, clock, u, i) && i < |l.g[u]|
    requires l.dist[l.g[u][i].to] <= l.dist[u] + l.g[u][i].weight
    requires TightSlot(l, u, i) ==> l.parent[l.g[u][i].to] <= u
    ensures Expanding(l0, h, f0, done0, l, f, done, clock, u, i + 1)
  {
    hide Labels.Ok, Queued, AllRelaxed, Shorter, ExpandedBy;
  }

  /**
   The relaxation loop over the edges of the node just popped. A strict improvement lowers the label and pushes the
   node; an equal offer over an edge of positive weight makes a lower-numbered predecessor the parent.
   */
  method Expand(g: Graph, h: seq<real>, cur: Item, dist0: seq<real>, parent0: seq<int>, f0: Frontier,
                ghost l0: Labels, ghost done0: set<nat>, ghost clock0: nat)
    returns (dist: seq<real>, parent: seq<int>, f: Frontier, ghost l: Labels, ghost done: set<nat>, ghost clock: nat)
    requires l0.Ok() && l0.g == g && l0.dist == dist0 && l0.parent == parent0 && StampsBelow(l0, clock0)
    requires cur.node < |g| && cur.cost == dist0[cur.node] && l0.Reached(cur.node)
    requires Queued(l0, h, f0, done0 + {cur.node}) && AllRelaxed(l0, done0 - {cur.node})
    requires |h| == |g|
    ensures l.g == g && l.dist == dist && l.parent == parent && cur.node < |g|
    ensures Expanding(l0, h, f0, done0, l, f, done, clock, cur.node, |g[cur.node]|)
  {
    hide Labels.Ok, Queued, AllRelaxed, Relaxed, NoLowerThanParent, ExpandedBy, Shorter, StampsBelow;
    dist, parent, f := dist0, parent0, f0;
    l, done, clock := l0, done0 + {cur.node}, clock0;
    var u := cur.node;
    ExpandStart(l0, h, f0, done0, clock0, u);
    LabelsInRange(l, u);
    for i := 0 to |g[u]|
      invariant l.g == g && l.dist == dist && l.parent == parent && |dist| == |g| && dist[u] == cur.cost
      invariant Expanding(l0, h, f0, done0, l, f, done, clock, u, i)
    {
      var e := g[u][i];
      LabelsInRange(l, u);
      LabelsInRange(l, e.to);
      var nd := cur.cost + e.weight;
      if nd < dist[e.to] {
        StepLower(l0, h, f0, done0, l, f, done, clock, u, i);
        l, done, clock := l.Lowered(u, i, clock), done - {e.to}, clock + 1;
        dist := dist[e.to := nd];
        parent := parent[e.to := u];
        f := f + multiset{Item(nd + h[e.to], nd, e.to)};
      } else if e.weight > 0.0 && nd == dist[e.to] && u < parent[e.to] {
        StepTie(l0, h, f0, done0, l, f, done, clock, u, i);
        l := l.(parent := l.parent[e.to := u]);
        parent := parent[e.to := u];
      } else {
        StepKeep(l0, h, f0, done0, l, f, done, clock, u, i);
      }
    }
  }

  lemma ExpandStart(l0: Labels, h: seq<real>, f0: Frontier, done0: set<nat>, clock0: nat, u: nat)
    requires l0.Ok() && StampsBelow(l0, clock0) && u < |l0.g| && l0.Reached(u)
    requires Queued(l0, h, f0, done0 + {u}) && AllRelaxed(l0, done0 - {u})
    ensures Expanding(l0, h, f0, done0, l0, f0, done0 + {u}, clock0, u, 0)
  {
    assert (done0 + {u}) - {u} == done0 - {u};
  }

  // ----------------------------------------------------------------------------------- a whole search

  /** The invariant of the main loop. */
  ghost predicate Searching(l: Labels, h: seq<real>, f: Frontier, done: set<nat>, clock: nat) {
    l.Ok() && Queued(l, h, f, done) && AllRelaxed(l, done) && StampsBelow(l, clock)
  }

  function StartLabels(g: Graph, source: nat): Labels
    requires source < |g|
  {
    Labels(g, source, seq(|g|, _ => UNREACHABLE)[source := 0.0], seq(|g|, _ => NO_NODE), seq(|g|, _ => []), seq(|g|, _ => 0))
  }

  lemma StartSearch(g: Graph, source: nat, h: seq<real>)
    requires WellFormed(g) && source < |g| == |h|
    ensures Searching(StartLabels(g, source), h, multiset{Item(h[source], 0.0, source)}, {}, 1)
  {
    var l := StartLabels(g, source);
    assert l.Sized() && l.walk[source] == [];
    WalkStaysInside(g, source, []);
    assert l.WalkOk(source);
    assert Fresh(l, h, source) == Item(h[source], 0.0, source);
  }

  /** A popped entry that is above the label of its node is dropped. */
  lemma PopStale(l: Labels, h: seq<real>, f: Frontier, done: set<nat>, cur: Item)
    requires Queued(l, h, f, done) && cur in f && l.dist[cur.node] < cur.cost
    ensures Queued(l, h, f - multiset{cur}, done)
  {
    var rest := f - multiset{cur};
    forall v | 0 <= v < |l.g| && l.Reached(v) ensures rest[Fresh(l, h, v)] == if v in done then 0 else 1 {
      assert Fresh(l, h, v) != cur;
    }
  }

  /** Otherwise it is the entry for the current label, and its node was not expanded since. */
  lemma PopFresh(l: Labels, h: seq<real>, f: Frontier, done: set<nat>, cur: Item)
    requires l.Sized() && Queued(l, h, f, done) && AllRelaxed(l, done) && cur in f && cur.cost <= l.dist[cur.node]
    ensures cur == Fresh(l, h, cur.node) && l.Reached(cur.node) && cur.node !in done
    ensures Queued(l, h, f - multiset{cur}, done + {cur.node}) && AllRelaxed(l, done - {cur.node})
  {
    var rest := f - multiset{cur};
    assert cur == Fresh(l, h, cur.node) && f[cur] > 0;
    forall v | 0 <= v < |l.g| && l.Reached(v)
      ensures rest[Fresh(l, h, v)] == if v in done + {cur.node} then 0 else 1
    {
      assert v != cur.node ==> Fresh(l, h, v) != cur;
    }
  }

  /** When every reached node is expanded, no walk is shorter than the label of its end. */
  lemma {:induction false} LabelsAreDistances(l: Labels, done: set<nat>, w: Walk)
    requires l.Ok() && AllRelaxed(l, done) && (forall v :: 0 <= v < |l.g| && l.Reached(v) ==> v in done)
    requires IsWalk(l.g, l.source, w)
    ensures End(l.g, l.source, w) < |l.g| && l.dist[End(l.g, l.source, w)] <= Weight(l.g, w)
    decreases |w|
  {
    WalkStaysInside(l.g, l.source, w);
    if w != [] {
      var init, s := w[..|w| - 1], w[|w| - 1];
      LabelsAreDistances(l, done, init);
      if l.Reached(s.from) {
        assert Relaxed(l, s.from, |l.g[s.from]|);
      }
    }
  }

  // ------------------------------------------------------------------------------- heuristic guidance

  /** No walk from v to the target is shorter than h[v] by more than slack per step. */
  ghost predicate Admissible(g: Graph, h: seq<real>, target: nat, slack: real)
    requires |h| == |g|
  {
    forall v: nat, w: Walk :: v < |g| && IsWalk(g, v, w) && End(g, v, w) == target ==>
      h[v] <= Weight(g, w) + Allowance(slack, |w|)
  }

  /** The slack of a walk with the given number of steps. */
  function Allowance(slack: real, steps: nat): real {
    slack * steps as real
  }

  lemma AllowanceGrows(slack: real, a: nat, b: nat)
    requires slack >= 0.0 && a <= b
    ensures 0.0 <= Allowance(slack, a) <= Allowance(slack, b)
  {
  }

  lemma {:induction false} SplitWalk(g: Graph, start: nat, w: Walk, k: nat)
    requires IsWalk(g, start, w) && k <= |w|
    ensures IsWalk(g, start, w[..k]) && IsWalk(g, End(g, start, w[..k]), w[k..])
    ensures End(g, End(g, start, w[..k]), w[k..]) == End(g, start, w)
    ensures Weight(g, w) == Weight(g, w[..k]) + Weight(g, w[k..])
    decreases |w|
  {
    if k == |w| {
      assert w[..k] == w && w[k..] == [];
    } else {
      var init, s := w[..|w| - 1], w[|w| - 1];
      SplitWalk(g, start, init, k);
      assert init[..k] == w[..k] && w[k..] == init[k..] + [s];
      ExtendSplit(g, start, w, init[..k], init[k..], s);
    }
  }

  lemma ExtendSplit(g: Graph, start: nat, w: Walk, p: Walk, rest: Walk, s: Step)
    requires w != [] && s == w[|w| - 1] && IsWalk(g, start, w)
    requires var init := w[..|w| - 1];
             && IsWalk(g, End(g, start, p), rest) && End(g, End(g, start, p), rest) == End(g, start, init)
             && Weight(g, init) == Weight(g, p) + Weight(g, rest)
    ensures IsWalk(g, End(g, start, p), rest + [s]) && End(g, End(g, start, p), rest + [s]) == End(g, start, w)
    ensures Weight(g, w) == Weight(g, p) + Weight(g, rest + [s])
  {
    Extend(g, End(g, start, p), rest, s);
  }

  /** A node that follows the walk and is still to be expanded has an entry that promises enough. */
  lemma QueuedPromise(l: Labels, h: seq<real>, f: Frontier, done: set<nat>, target: nat, slack: real, p: Walk, rest: Walk,
                      v: nat, best: real)
    requires l.Sized() && Queued(l, h, f, done) && Admissible(l.g, h, target, slack)
    requires v < |l.g| && l.Reached(v) && v !in done && l.dist[v] <= Weight(l.g, p)
    requires IsWalk(l.g, v, rest) && End(l.g, v, rest) == target
    requires forall x :: x in f ==> best <= x.key
    ensures best <= Weight(l.g, p) + Weight(l.g, rest) + Allowance(slack, |rest|)
  {
    hide UNREACHABLE, Allowance, Weight, IsWalk, End;
    assert f[Fresh(l, h, v)] == 1 && best <= Fresh(l, h, v).key;
  }

  /** Along a walk to the target, either some queued entry promises at most the length of the walk (plus its slack),
      or the labels follow the walk. */
  lemma {:induction false} FollowWalk(l: Labels, h: seq<real>, f: Frontier, done: set<nat>, target: nat, slack: real,
                                      w: Walk, k: nat, best: real)
    requires l.Ok() && Queued(l, h, f, done) && AllRelaxed(l, done) && Admissible(l.g, h, target, slack) && slack >= 0.0
    requires IsWalk(l.g, l.source, w) && End(l.g, l.source, w) == target && k <= |w|
    requires Weight(l.g, w) < UNREACHABLE
    requires forall x :: x in f ==> best <= x.key
    ensures best <= Weight(l.g, w) + Allowance(slack, |w|)
            || (End(l.g, l.source, w[..k]) in done && l.dist[End(l.g, l.source, w[..k])] <= Weight(l.g, w[..k]))
    decreases k
  {
    hide UNREACHABLE, Allowance, Admissible, Queued, IsWalk, Weight, End, Relaxed, Labels.Ok;
    var p, rest, v := w[..k], w[k..], End(l.g, l.source, w[..k]);
    SplitWalk(l.g, l.source, w, k);
    OkSized(l);
    WalkStaysInside(l.g, l.source, p);
    WalkStaysInside(l.g, v, rest);
    AllowanceGrows(slack, |rest|, |w|);
    if k == 0 {
      SourceLabel(l, p);
    } else {
      FollowWalk(l, h, f, done, target, slack, w, k - 1, best);
      assert p[..|p| - 1] == w[..k - 1];
      if best > Weight(l.g, w) + Allowance(slack, |w|) {
        RelaxedAlong(l, done, p);
      }
    }
    if l.dist[v] <= Weight(l.g, p) && v !in done {
      QueuedPromise(l, h, f, done, target, slack, p, rest, v, best);
    }
  }

  lemma SourceLabel(l: Labels, w: Walk)
    requires l.Ok() && w == []
    ensures End(l.g, l.source, w) == l.source && l.dist[l.source] <= Weight(l.g, w)
  {
  }

  /** Labels follow a walk over an edge out of an expanded node. */
  lemma RelaxedAlong(l: Labels, done: set<nat>, w: Walk)
    requires l.Sized() && AllRelaxed(l, done) && IsWalk(l.g, l.source, w) && w != []
    requires var x := End(l.g, l.source, w[..|w| - 1]); x in done && l.dist[x] <= Weight(l.g, w[..|w| - 1])
    ensures End(l.g, l.source, w) < |l.g| && l.dist[End(l.g, l.source, w)] <= Weight(l.g, w)
  {
    assert Relaxed(l, w[|w| - 1].from, |l.g[w[|w| - 1].from]|);
  }

  /** When the target is popped with its current label, no walk to it is shorter (beyond its slack). */
  lemma PoppedTarget(l: Labels, h: seq<real>, f: Frontier, done: set<nat>, cur: Item, slack: real, w: Walk)
    requires l.Ok() && Queued(l, h, f, done) && AllRelaxed(l, done) && cur in f && cur.cost <= l.dist[cur.node]
    requires forall y :: y in f ==> !Before(y, cur)
    requires Admissible(l.g, h, cur.node, slack) && slack >= 0.0 && h[cur.node] >= 0.0
    requires IsWalk(l.g, l.source, w) && End(l.g, l.source, w) == cur.node
    ensures l.dist[cur.node] <= Weight(l.g, w) + Allowance(slack, |w|)
  {
    hide UNREACHABLE, Allowance, Admissible, IsWalk, Weight, End, Relaxed, AllRelaxed, Labels.Ok;
    AllowanceGrows(slack, 0, |w|);
    LabelsInRange(l, cur.node);
    if Weight(l.g, w) < UNREACHABLE {
      assert forall y :: y in f ==> cur.key <= y.key;
      FollowWalk(l, h, f, done, cur.node, slack, w, |w|, cur.key);
      assert w[..|w|] == w;
    }
  }

  // -------------------------------------------------------------------------------------- parent chains

  ghost function CloserThan(l: Labels, v: nat): set<nat>
    requires l.Sized() && v < |l.g|
  {
    set x: nat | x < |l.g| && l.Closer(x, v)
  }

  lemma ParentShrinks(l: Labels, v: nat)
    requires l.Ok() && v < |l.g| && l.Reached(v) && v != l.source
    ensures 0 <= l.parent[v] < |l.g| && l.Reached(l.parent[v])
    ensures CloserThan(l, l.parent[v]) < CloserThan(l, v)
  {
    assert l.ParentOk(v);
    assert l.parent[v] in CloserThan(l, v) && l.parent[v] !in CloserThan(l, l.parent[v]);
  }

  /** The walk that the parents trace back: a real walk, no longer than the label. */
  ghost function ParentWalk(l: Labels, v: nat): (w: Walk)
    requires l.Ok() && v < |l.g| && l.Reached(v)
    ensures IsWalk(l.g, l.source, w) && End(l.g, l.source, w) == v && Weight(l.g, w) <= l.dist[v]
    decreases CloserThan(l, v)
  {
    if v == l.source then []
    else
      ParentShrinks(l, v);
      assert l.ParentOk(v);
      var p := l.parent[v];
      var i :| 0 <= i < |l.g[p]| && l.g[p][i].to == v && l.dist[p] + l.g[p][i].weight <= l.dist[v];
      Extend(l.g, l.source, ParentWalk(l, p), Step(p, i));
      ParentWalk(l, p) + [Step(p, i)]
  }

  lemma ParentNodes(l: Labels, v: nat)
    requires l.Ok() && v < |l.g| && l.Reached(v)
    ensures v == l.source ==> l.parent[v] == NO_NODE && Nodes(l.g, l.source, ParentWalk(l, v)) == [v]
    ensures v != l.source ==>
              && 0 <= l.parent[v] < |l.g| && l.Reached(l.parent[v])
              && Nodes(l.g, l.source, ParentWalk(l, v)) == Nodes(l.g, l.source, ParentWalk(l, l.parent[v])) + [v]
  {
    assert l.ParentOk(v);
    if v != l.source {
      ParentShrinks(l, v);
      var w := ParentWalk(l, v);
      assert w[..|w| - 1] == ParentWalk(l, l.parent[v]);
    }
  }

  function Reverse<T>(s: seq<T>): (r: seq<T>)
    ensures |r| == |s|
  {
    if s == [] then [] else Reverse(s[1..]) + [s[0]]
  }

  lemma {:induction false} ReverseAppend<T>(s: seq<T>, x: T)
    ensures Reverse(s + [x]) == [x] + Reverse(s)
  {
    if s != [] {
      ReverseAppend(s[1..], x);
      assert (s + [x])[1..] == s[1..] + [x];
    }
  }

  lemma ReverseStep(front: seq<nat>, path: seq<nat>, v: nat)
    ensures (front + [v]) + Reverse(path) == front + Reverse(path + [v])
  {
    ReverseAppend(path, v);
  }

  /** Collects the chain of parents from the target back to the source and turns it round. The chain cannot loop:
      every parent is closer to the source. */
  method TracePath(parent: seq<int>, ghost l: Labels, target: nat) returns (path: seq<nat>)
    requires l.Ok() && l.parent == parent && target < |l.g| && l.Reached(target)
    ensures path == Nodes(l.g, l.source, ParentWalk(l, target))
  {
    hide Nodes, Labels.Ok, CloserThan, ParentWalk, Reverse, UNREACHABLE;
    path := [];
    assert Reverse(path) == [];
    OkSized(l);
    var v: int := target;
    assert Nodes(l.g, l.source, ParentWalk(l, target)) + Reverse(path) == Nodes(l.g, l.source, ParentWalk(l, target));
    while v != NO_NODE
      invariant v == NO_NODE || (0 <= v < |l.g| && l.Reached(v))
      invariant Nodes(l.g, l.source, ParentWalk(l, target)) ==
                (if v == NO_NODE then [] else Nodes(l.g, l.source, ParentWalk(l, v))) + Reverse(path)
      decreases v != NO_NODE, if v == NO_NODE then {} else CloserThan(l, v)
    {
      ParentNodes(l, v);
      if v != l.source {
        ParentShrinks(l, v);
        ReverseStep(Nodes(l.g, l.source, ParentWalk(l, parent[v])), path, v);
      } else {
        ReverseStep([], path, v);
      }
      path := path + [v];
      v := parent[v];
    }
    path := Reverse(path);
  }
}
