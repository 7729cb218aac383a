/** Responder dispatch: the road-distance cost matrix, and the greedy and the optimal planner over it. */
module Assigner {
  import opened Counting
  import opened RoadGraph
  import opened LabelSearch
  import Dijkstra
  import H = Hungarian
  import HL = HungarianLimits

  /** The cost of a pair without a road between them. */
  const UNREACHABLE_COST: real := 1000000000.0

  datatype Responder = Responder(id: nat, node: int, available: bool)
  datatype Incident = Incident(id: nat, node: int)
  datatype Order = Order(responder: nat, incident: nat, travel: real)
  datatype Plan = Plan(orders: seq<Order>, total: real, makespan: real, unassigned: int)

  type Costs = seq<seq<real>>

  // ------------------------------------------------------------------------------------ cost matrix

  /** The distance from one junction to another, or UNREACHABLE_COST without a road or a valid junction. */
  ghost predicate IsPairCost(g: Graph, src: int, dst: int, x: real) {
    if 0 <= src < |g| && 0 <= dst < |g| then
      exists d: real :: Dijkstra.IsDistance(g, src, dst, d) && x == if d < UNREACHABLE then d else UNREACHABLE_COST
    else x == UNREACHABLE_COST
  }

  ghost predicate IsCostMatrix(c: Costs, pool: seq<Responder>, incidents: seq<Incident>, g: Graph) {
    && |c| == |pool|
    && (forall r :: 0 <= r < |c| ==> |c[r]| == |incidents|)
    && (forall r, i :: 0 <= r < |c| && 0 <= i < |incidents| ==> IsPairCost(g, pool[r].node, incidents[i].node, c[r][i]))
  }

  /** One search per responder fills that responder's row. */
  method CostMatrix(pool: seq<Responder>, incidents: seq<Incident>, g: Graph) returns (c: Costs)
    requires WellFormed(g)
    ensures IsCostMatrix(c, pool, incidents, g)
  {
    hide LabelSearch.UNREACHABLE, Dijkstra.IsDistance, Dijkstra.Matches, Dijkstra.LowestTightParents;
    c := seq(|pool|, _ => seq(|incidents|, _ => UNREACHABLE_COST));
    for r := 0 to |pool|
      invariant |c| == |pool| && forall k :: 0 <= k < |c| ==> |c[k]| == |incidents|
      invariant forall k, i :: r <= k < |c| && 0 <= i < |incidents| ==> c[k][i] == UNREACHABLE_COST
      invariant forall k, i :: 0 <= k < r && 0 <= i < |incidents| ==> IsPairCost(g, pool[k].node, incidents[i].node, c[k][i])
    {
      var src := pool[r].node;
      if !(0 <= src < |g|) { continue; }
      var sp, l, done := Dijkstra.Run(g, src, NO_NODE);
      var row := c[r];
      for i := 0 to |incidents|
        invariant |row| == |incidents|
        invariant forall k :: i <= k < |incidents| ==> row[k] == UNREACHABLE_COST
        invariant forall k :: 0 <= k < i ==> IsPairCost(g, src, incidents[k].node, row[k])
      {
        var dst := incidents[i].node;
        if 0 <= dst < |g| && sp.dist[dst] < UNREACHABLE {
          row := row[i := sp.dist[dst]];
        }
        PairCostFrom(g, src, dst, sp.dist, row[i]);
      }
      c := c[r := row];
    }
  }

  lemma PairCostFrom(g: Graph, src: int, dst: int, dist: seq<real>, x: real)
    requires 0 <= src < |g| && |dist| == |g|
    requires forall v :: 0 <= v < |g| ==> Dijkstra.IsDistance(g, src, v, dist[v])
    requires x == if 0 <= dst < |g| && dist[dst] < UNREACHABLE then dist[dst] else UNREACHABLE_COST
    ensures IsPairCost(g, src, dst, x)
  {
    hide LabelSearch.UNREACHABLE;
    if 0 <= dst < |g| {
      assert Dijkstra.IsDistance(g, src, dst, dist[dst]);
    }
  }

  method AvailableIndices(pool: seq<Responder>) returns (avail: seq<nat>)
    ensures forall k :: 0 <= k < |avail| ==> avail[k] < |pool| && pool[avail[k]].available
    ensures forall k, m :: 0 <= k < m < |avail| ==> avail[k] < avail[m]
    ensures forall i :: 0 <= i < |pool| && pool[i].available ==> i in avail
  {
    avail := [];
    for i := 0 to |pool|
      invariant forall k :: 0 <= k < |avail| ==> avail[k] < i && pool[avail[k]].available
      invariant forall k, m :: 0 <= k < m < |avail| ==> avail[k] < avail[m]
      invariant forall k :: 0 <= k < i && pool[k].available ==> k in avail
    {
      if pool[i].available {
        avail := avail + [i];
      }
    }
  }

  // -------------------------------------------------------------------------------------- matchings

  /** An available responder (by position among the available ones) sent to an incident (by position). */
  datatype Pair = Pair(r: nat, i: nat)

  ghost predicate Rect(c: Costs, rows: nat, cols: nat) {
    |c| == rows && forall r :: 0 <= r < rows ==> |c[r]| == cols
  }

  ghost predicate IsMatching(pairs: seq<Pair>, rows: nat, cols: nat) {
    && (forall k :: 0 <= k < |pairs| ==> pairs[k].r < rows && pairs[k].i < cols)
    && (forall k, m :: 0 <= k < m < |pairs| ==> pairs[k].r != pairs[m].r && pairs[k].i != pairs[m].i)
  }

  ghost predicate InCosts(c: Costs, pairs: seq<Pair>) {
    forall k :: 0 <= k < |pairs| ==> pairs[k].r < |c| && pairs[k].i < |c[pairs[k].r]|
  }

  ghost function Travel(c: Costs, pairs: seq<Pair>): real
    requires InCosts(c, pairs)
  {
    if pairs == [] then 0.0
    else Travel(c, pairs[..|pairs| - 1]) + c[pairs[|pairs| - 1].r][pairs[|pairs| - 1].i]
  }

  ghost function Longest(c: Costs, pairs: seq<Pair>): real
    requires InCosts(c, pairs)
  {
    if pairs == [] then 0.0
    else
      var x := c[pairs[|pairs| - 1].r][pairs[|pairs| - 1].i];
      var y := Longest(c, pairs[..|pairs| - 1]);
      if y < x then x else y
  }

  /** The costs of the available responders only. */
  ghost function Restricted(full: Costs, avail: seq<nat>): (c: Costs)
    requires forall k :: 0 <= k < |avail| ==> avail[k] < |full|
    ensures |c| == |avail| && forall k :: 0 <= k < |avail| ==> c[k] == full[avail[k]]
  {
    seq(|avail|, k requires 0 <= k < |avail| => full[avail[k]])
  }

  ghost predicate AllReachable(c: Costs) {
    forall r, i :: 0 <= r < |c| && 0 <= i < |c[r]| ==> c[r][i] < UNREACHABLE_COST
  }

  /** The orders of a plan are those of the pairs, and its totals are theirs. */
  ghost predicate Realizes(plan: Plan, pairs: seq<Pair>, c: Costs, avail: seq<nat>, pool: seq<Responder>, incidents: seq<Incident>)
  {
    && (forall k :: 0 <= k < |avail| ==> avail[k] < |pool|)
    && Rect(c, |avail|, |incidents|) && IsMatching(pairs, |avail|, |incidents|)
    && |plan.orders| == |pairs|
    && (forall k :: 0 <= k < |pairs| ==>
          plan.orders[k] == Order(pool[avail[pairs[k].r]].id, incidents[pairs[k].i].id, c[pairs[k].r][pairs[k].i]))
    && plan.total == Travel(c, pairs) && plan.makespan == Longest(c, pairs)
    && plan.unassigned == |incidents| - |pairs|
  }

  /** Accumulates the totals of a plan. */
  method Finalize(orders: seq<Order>, incidentCount: nat, ghost pairs: seq<Pair>, ghost c: Costs) returns (plan: Plan)
    requires |orders| == |pairs|
    requires InCosts(c, pairs)
    requires forall k :: 0 <= k < |pairs| ==> orders[k].travel == c[pairs[k].r][pairs[k].i]
    ensures plan == Plan(orders, Travel(c, pairs), Longest(c, pairs), incidentCount - |pairs|)
    ensures forall k :: 0 <= k < |orders| ==> orders[k].travel <= plan.makespan
    ensures (exists k :: 0 <= k < |orders| && orders[k].travel == plan.makespan)
            || (plan.makespan == 0.0 && forall k :: 0 <= k < |orders| ==> orders[k].travel <= 0.0)
  {
    var total, makespan := 0.0, 0.0;
    for k := 0 to |orders|
      invariant total == Travel(c, pairs[..k]) && makespan == Longest(c, pairs[..k])
      invariant makespan >= 0.0 && forall j :: 0 <= j < k ==> orders[j].travel <= makespan
      invariant makespan == 0.0 || exists j :: 0 <= j < k && orders[j].travel == makespan
    {
      assert pairs[..k + 1][..k] == pairs[..k];
      total := total + orders[k].travel;
      makespan := if makespan < orders[k].travel then orders[k].travel else makespan;
    }
    assert pairs[..|pairs|] == pairs;
    plan := Plan(orders, total, makespan, incidentCount - |orders|);
  }

  // ----------------------------------------------------------------------------------------- greedy

  ghost predicate Free(pairs: seq<Pair>, r: nat, i: nat) {
    forall k :: 0 <= k < |pairs| ==> pairs[k].r != r && pairs[k].i != i
  }

  /** The cheapest reachable pair still free, the first in responder-then-incident order among equals. */
  ghost predicate FirstCheapest(c: Costs, rows: nat, cols: nat, pairs: seq<Pair>, r: nat, i: nat)
    requires Rect(c, rows, cols)
  {
    && r < rows && i < cols && Free(pairs, r, i) && c[r][i] < UNREACHABLE_COST
    && forall a, b :: 0 <= a < rows && 0 <= b < cols && Free(pairs, a, b) ==>
         c[r][i] < c[a][b] || (c[r][i] == c[a][b] && (r < a || (r == a && i <= b)))
  }

  ghost predicate GreedyRun(c: Costs, rows: nat, cols: nat, pairs: seq<Pair>)
    requires Rect(c, rows, cols)
  {
    forall k :: 0 <= k < |pairs| ==> FirstCheapest(c, rows, cols, pairs[..k], pairs[k].r, pairs[k].i)
  }

  /** The flags mark exactly the rows and columns of the pairs chosen so far. */
  ghost predicate Flags(pairs: seq<Pair>, respUsed: seq<bool>, incUsed: seq<bool>) {
    && (forall k :: 0 <= k < |pairs| ==> pairs[k].r < |respUsed| && pairs[k].i < |incUsed|)
    && forall a, b :: 0 <= a < |respUsed| && 0 <= b < |incUsed| ==> (Free(pairs, a, b) <==> !respUsed[a] && !incUsed[b])
  }

  /** The scan for the next pair. */
  method Cheapest(ghost c: Costs, full: Costs, avail: seq<nat>, cols: nat, respUsed: seq<bool>, incUsed: seq<bool>)
    returns (found: bool, r: nat, i: nat, best: real)
    requires forall k :: 0 <= k < |avail| ==> avail[k] < |full|
    requires c == Restricted(full, avail) && Rect(c, |avail|, cols) && |respUsed| == |avail| && |incUsed| == cols
    ensures found ==> r < |avail| && i < cols && !respUsed[r] && !incUsed[i] && best == c[r][i] < UNREACHABLE_COST
    ensures found ==> forall a, b :: 0 <= a < |avail| && 0 <= b < cols && !respUsed[a] && !incUsed[b] ==>
                        c[r][i] < c[a][b] || (c[r][i] == c[a][b] && (r < a || (r == a && i <= b)))
    ensures !found ==> forall a, b :: 0 <= a < |avail| && 0 <= b < cols && !respUsed[a] && !incUsed[b] ==>
                         c[a][b] >= UNREACHABLE_COST
  {
    best, r, i, found := UNREACHABLE_COST, 0, 0, false;
    for a := 0 to |avail|
      invariant !found ==> best == UNREACHABLE_COST
      invariant found ==> r < a && i < cols && !respUsed[r] && !incUsed[i] && best == c[r][i] < UNREACHABLE_COST
      invariant forall x, b :: 0 <= x < a && 0 <= b < cols && !respUsed[x] && !incUsed[b] ==>
                  best < c[x][b] || (best == c[x][b] && (!found || r < x || (r == x && i <= b)))
    {
      if respUsed[a] { continue; }
      for b := 0 to cols
        invariant !found ==> best == UNREACHABLE_COST
        invariant found ==> r <= a && i < cols && !respUsed[r] && !incUsed[i] && best == c[r][i] < UNREACHABLE_COST
        invariant found && r == a ==> i < b
        invariant forall x, y :: 0 <= x < a && 0 <= y < cols && !respUsed[x] && !incUsed[y] ==>
                    best < c[x][y] || (best == c[x][y] && (!found || r < x || (r == x && i <= y)))
        invariant forall y :: 0 <= y < b && !incUsed[y] ==>
                    best < c[a][y] || (best == c[a][y] && (!found || r < a || i <= y))
      {
        if incUsed[b] { continue; }
        var x := full[avail[a]][b];
        if x < best {
          best, r, i, found := x, a, b, true;
        }
      }
    }
  }

  /** The positions of the available responders, in order. */
  ghost predicate IsAvailable(avail: seq<nat>, pool: seq<Responder>) {
    && (forall k :: 0 <= k < |avail| ==> avail[k] < |pool| && pool[avail[k]].available)
    && (forall k, m :: 0 <= k < m < |avail| ==> avail[k] < avail[m])
    && (forall i :: 0 <= i < |pool| && pool[i].available ==> i in avail)
  }

  ghost function Smaller(a: nat, b: nat): nat {
    if a < b then a else b
  }

  lemma MatchingIsSmall(pairs: seq<Pair>, rows: nat, cols: nat)
    requires IsMatching(pairs, rows, cols)
    ensures |pairs| <= Smaller(rows, cols)
  {
    DistinctBelow(Rows(pairs), rows);
    DistinctBelow(Columns(pairs), cols);
  }

  /** A matching that leaves no free pair uses up one of the two sides. */
  lemma FullMatching(pairs: seq<Pair>, rows: nat, cols: nat)
    requires IsMatching(pairs, rows, cols) && forall a, b :: 0 <= a < rows && 0 <= b < cols ==> !Free(pairs, a, b)
    ensures |pairs| == Smaller(rows, cols)
  {
    MatchingIsSmall(pairs, rows, cols);
    var rs: seq<nat>, cs: seq<nat> := Rows(pairs), Columns(pairs);
    if forall a :: 0 <= a < rows ==> a in rs {
      CoversBelow(rs, rows);
    } else {
      var a :| 0 <= a < rows && a !in rs;
      forall b | 0 <= b < cols ensures b in cs {
        assert !Free(pairs, a, b);
        var k :| 0 <= k < |pairs| && !(pairs[k].r != a && pairs[k].i != b);
        assert rs[k] == pairs[k].r && cs[k] == pairs[k].i;
      }
      CoversBelow(cs, cols);
    }
  }

  ghost function Rows(pairs: seq<Pair>): seq<nat> {
    seq(|pairs|, k requires 0 <= k < |pairs| => pairs[k].r)
  }

  ghost function Columns(pairs: seq<Pair>): seq<nat> {
    seq(|pairs|, k requires 0 <= k < |pairs| => pairs[k].i)
  }

  lemma FreeAfter(pairs: seq<Pair>, p: Pair, a: nat, b: nat)
    ensures Free(pairs + [p], a, b) <==> Free(pairs, a, b) && a != p.r && b != p.i
  {
    assert (pairs + [p])[|pairs|] == p;
    assert forall k :: 0 <= k < |pairs| ==> (pairs + [p])[k] == pairs[k];
  }

  lemma ChooseGreedily(c: Costs, rows: nat, cols: nat, pairs: seq<Pair>, p: Pair, respUsed: seq<bool>, incUsed: seq<bool>)
    requires Rect(c, rows, cols) && IsMatching(pairs, rows, cols) && GreedyRun(c, rows, cols, pairs)
    requires |respUsed| == rows && |incUsed| == cols && Flags(pairs, respUsed, incUsed)
    requires FirstCheapest(c, rows, cols, pairs, p.r, p.i)
    ensures IsMatching(pairs + [p], rows, cols) && GreedyRun(c, rows, cols, pairs + [p])
    ensures Flags(pairs + [p], respUsed[p.r := true], incUsed[p.i := true])
  {
    MatchOneMore(pairs, p, rows, cols);
    RunOneMore(c, rows, cols, pairs, p);
    FlagOneMore(pairs, p, respUsed, incUsed);
  }

  lemma MatchOneMore(pairs: seq<Pair>, p: Pair, rows: nat, cols: nat)
    requires IsMatching(pairs, rows, cols) && Free(pairs, p.r, p.i) && p.r < rows && p.i < cols
    ensures IsMatching(pairs + [p], rows, cols)
  {
  }

  lemma RunOneMore(c: Costs, rows: nat, cols: nat, pairs: seq<Pair>, p: Pair)
    requires Rect(c, rows, cols) && GreedyRun(c, rows, cols, pairs) && FirstCheapest(c, rows, cols, pairs, p.r, p.i)
    ensures GreedyRun(c, rows, cols, pairs + [p])
  {
    hide FirstCheapest;
    var next := pairs + [p];
    forall k | 0 <= k < |next| ensures FirstCheapest(c, rows, cols, next[..k], next[k].r, next[k].i) {
      assert next[..k] == if k < |pairs| then pairs[..k] else pairs;
    }
  }

  lemma FlagOneMore(pairs: seq<Pair>, p: Pair, respUsed: seq<bool>, incUsed: seq<bool>)
    requires Flags(pairs, respUsed, incUsed) && p.r < |respUsed| && p.i < |incUsed|
    ensures Flags(pairs + [p], respUsed[p.r := true], incUsed[p.i := true])
  {
    hide Free;
    forall a: nat, b: nat | a < |respUsed| && b < |incUsed|
      ensures Free(pairs + [p], a, b) <==> !respUsed[p.r := true][a] && !incUsed[p.i := true][b]
    {
      FreeAfter(pairs, p, a, b);
    }
  }

  /** Nothing reachable is left free. */
  ghost predicate Complete(c: Costs, rows: nat, cols: nat, pairs: seq<Pair>)
    requires Rect(c, rows, cols)
  {
    forall a, b :: 0 <= a < rows && 0 <= b < cols && Free(pairs, a, b) ==> c[a][b] >= UNREACHABLE_COST
  }

  /** The plan realises a complete greedy run over the road costs of the available responders. */
  ghost predicate IsGreedy(plan: Plan, pool: seq<Responder>, incidents: seq<Incident>, g: Graph, full: Costs, avail: seq<nat>,
                           pairs: seq<Pair>)
  {
    && IsCostMatrix(full, pool, incidents, g) && IsAvailable(avail, pool)
    && var c := Restricted(full, avail);
    && Realizes(plan, pairs, c, avail, pool, incidents)
    && GreedyRun(c, |avail|, |incidents|, pairs) && Complete(c, |avail|, |incidents|, pairs)
  }

  ghost predicate GreedyPlan(plan: Plan, pool: seq<Responder>, incidents: seq<Incident>, g: Graph) {
    exists full: Costs, avail: seq<nat>, pairs: seq<Pair> :: IsGreedy(plan, pool, incidents, g, full, avail, pairs)
  }

  /** Repeatedly commits the cheapest reachable pair, the first among equals, until no reachable pair is free. */
  method AssignGreedy(pool: seq<Responder>, incidents: seq<Incident>, g: Graph)
    returns (plan: Plan)
    requires WellFormed(g)
    ensures GreedyPlan(plan, pool, incidents, g)
  {
    hide IsPairCost, GreedyRun, IsMatching, Free, Flags, Unseen, FirstCheapest, AllReachable, Travel, Longest, InCosts;
    var cost := CostMatrix(pool, incidents, g);
    var avail := AvailableIndices(pool);
    ghost var c := Restricted(cost, avail);
    var respUsed, incUsed := seq(|avail|, _ => false), seq(|incidents|, _ => false);
    var orders: seq<Order> := [];
    ghost var pairs: seq<Pair> := [];
    NothingChosen(c, |avail|, |incidents|, respUsed, incUsed);
    while true
      invariant |respUsed| == |avail| && |incUsed| == |incidents| && |orders| == |pairs|
      invariant IsMatching(pairs, |avail|, |incidents|) && GreedyRun(c, |avail|, |incidents|, pairs)
      invariant Flags(pairs, respUsed, incUsed)
      invariant OrdersOf(orders, pairs, c, avail, pool, incidents)
      decreases Unseen(respUsed)
    {
      var found, r, i, best := Cheapest(c, cost, avail, |incidents|, respUsed, incUsed);
      FlagsAreFree(pairs, respUsed, incUsed);
      if !found { break; }
      ChooseGreedily(c, |avail|, |incidents|, pairs, Pair(r, i), respUsed, incUsed);
      Mark(respUsed, r);
      respUsed := respUsed[r := true];
      incUsed := incUsed[i := true];
      orders := orders + [Order(pool[avail[r]].id, incidents[i].id, best)];
      pairs := pairs + [Pair(r, i)];
    }
    OrdersInRange(orders, pairs, c, avail, pool, incidents);
    plan := Finalize(orders, |incidents|, pairs, c);
    assert IsGreedy(plan, pool, incidents, g, cost, avail, pairs);
  }

  lemma FirstIsUnique(c: Costs, rows: nat, cols: nat, pairs: seq<Pair>, p: Pair, q: Pair)
    requires Rect(c, rows, cols)
    requires FirstCheapest(c, rows, cols, pairs, p.r, p.i) && FirstCheapest(c, rows, cols, pairs, q.r, q.i)
    ensures p == q
  {
    hide Free;
  }

  lemma GreedyAt(c: Costs, rows: nat, cols: nat, a: seq<Pair>, k: nat)
    requires Rect(c, rows, cols) && GreedyRun(c, rows, cols, a) && k < |a|
    ensures FirstCheapest(c, rows, cols, a[..k], a[k].r, a[k].i) && a[..k + 1] == a[..k] + [a[k]]
  {
  }

  lemma {:induction false} GreedyPrefix(c: Costs, rows: nat, cols: nat, a: seq<Pair>, b: seq<Pair>, k: nat)
    requires Rect(c, rows, cols) && GreedyRun(c, rows, cols, a) && GreedyRun(c, rows, cols, b)
    requires k <= |a| && k <= |b|
    ensures a[..k] == b[..k]
  {
    hide FirstCheapest, GreedyRun;
    if k > 0 {
      GreedyPrefix(c, rows, cols, a, b, k - 1);
      GreedyAt(c, rows, cols, a, k - 1);
      GreedyAt(c, rows, cols, b, k - 1);
      FirstIsUnique(c, rows, cols, a[..k - 1], a[k - 1], b[k - 1]);
    }
  }

  /** A run that left nothing reachable free is at least as long as any other run. */
  lemma CompleteRunIsLongest(c: Costs, rows: nat, cols: nat, a: seq<Pair>, b: seq<Pair>)
    requires Rect(c, rows, cols) && GreedyRun(c, rows, cols, a) && GreedyRun(c, rows, cols, b)
    requires forall r, i :: 0 <= r < rows && 0 <= i < cols && Free(a, r, i) ==> c[r][i] >= UNREACHABLE_COST
    ensures |b| <= |a|
  {
    hide Free, GreedyRun;
    if |a| < |b| {
      GreedyPrefix(c, rows, cols, a, b, |a|);
      assert a[..|a|] == a;
      GreedyAt(c, rows, cols, b, |a|);
    }
  }

  /** The greedy plan is a function of the cost matrix: two complete greedy runs over it are the same. */
  lemma GreedyDeterministic(c: Costs, rows: nat, cols: nat, a: seq<Pair>, b: seq<Pair>)
    requires Rect(c, rows, cols) && GreedyRun(c, rows, cols, a) && GreedyRun(c, rows, cols, b)
    requires forall r, i :: 0 <= r < rows && 0 <= i < cols && Free(a, r, i) ==> c[r][i] >= UNREACHABLE_COST
    requires forall r, i :: 0 <= r < rows && 0 <= i < cols && Free(b, r, i) ==> c[r][i] >= UNREACHABLE_COST
    ensures a == b
  {
    hide Free, GreedyRun;
    CompleteRunIsLongest(c, rows, cols, a, b);
    CompleteRunIsLongest(c, rows, cols, b, a);
    GreedyPrefix(c, rows, cols, a, b, |a|);
    assert a == a[..|a|] && b == b[..|b|];
  }

  ghost predicate OrdersOf(orders: seq<Order>, pairs: seq<Pair>, c: Costs, avail: seq<nat>, pool: seq<Responder>,
                           incidents: seq<Incident>)
  {
    && |orders| == |pairs| && Rect(c, |avail|, |incidents|) && (forall k :: 0 <= k < |avail| ==> avail[k] < |pool|)
    && forall k :: 0 <= k < |pairs| ==>
         && pairs[k].r < |avail| && pairs[k].i < |incidents|
         && orders[k] == Order(pool[avail[pairs[k].r]].id, incidents[pairs[k].i].id, c[pairs[k].r][pairs[k].i])
  }

  lemma OrdersInRange(orders: seq<Order>, pairs: seq<Pair>, c: Costs, avail: seq<nat>, pool: seq<Responder>,
                      incidents: seq<Incident>)
    requires OrdersOf(orders, pairs, c, avail, pool, incidents)
    ensures InCosts(c, pairs)
    ensures forall k :: 0 <= k < |pairs| ==> orders[k].travel == c[pairs[k].r][pairs[k].i]
  {
  }

  lemma NothingChosen(c: Costs, rows: nat, cols: nat, respUsed: seq<bool>, incUsed: seq<bool>)
    requires Rect(c, rows, cols) && respUsed == seq(rows, _ => false) && incUsed == seq(cols, _ => false)
    ensures IsMatching([], rows, cols) && GreedyRun(c, rows, cols, []) && Flags([], respUsed, incUsed)
  {
  }

  lemma FlagsAreFree(pairs: seq<Pair>, respUsed: seq<bool>, incUsed: seq<bool>)
    requires Flags(pairs, respUsed, incUsed)
    ensures forall a, b :: 0 <= a < |respUsed| && 0 <= b < |incUsed| ==> (Free(pairs, a, b) <==> !respUsed[a] && !incUsed[b])
  {
  }

  lemma NoFreeMeansFull(c: Costs, rows: nat, cols: nat, pairs: seq<Pair>)
    requires Rect(c, rows, cols) && AllReachable(c) && IsMatching(pairs, rows, cols)
    requires forall a, b :: 0 <= a < rows && 0 <= b < cols && Free(pairs, a, b) ==> c[a][b] >= UNREACHABLE_COST
    ensures |pairs| == Smaller(rows, cols)
  {
    FullMatching(pairs, rows, cols);
  }

  // ---------------------------------------------------------------------------------------- optimal

  /** The matrix handed to the Hungarian method: entry [x][y] is c[x][y], or c[y][x] when transposed. */
  ghost predicate IsView(mat: H.Matrix, c: Costs, rows: nat, cols: nat, transposed: bool) {
    && Rect(c, if transposed then cols else rows, if transposed then rows else cols)
    && |mat| == rows && (forall x :: 0 <= x < rows ==> |mat[x]| == cols)
    && forall x, y :: 0 <= x < rows && 0 <= y < cols ==> mat[x][y] == H.Finite(Entry(c, x, y, transposed))
  }

  ghost function Entry(c: Costs, x: nat, y: nat, transposed: bool): real
    requires if transposed then y < |c| && x < |c[y]| else x < |c| && y < |c[x]|
  {
    if transposed then c[y][x] else c[x][y]
  }

  /** The pair that row x and column y of the view stand for. */
  function Oriented(x: nat, y: nat, transposed: bool): Pair {
    if transposed then Pair(y, x) else Pair(x, y)
  }

  function RowOf(p: Pair, transposed: bool): nat {
    if transposed then p.i else p.r
  }

  function ColOf(p: Pair, transposed: bool): nat {
    if transposed then p.r else p.i
  }

  /** A matching of the view's rows and columns. */
  ghost predicate Matched(pairs: seq<Pair>, rows: nat, cols: nat, transposed: bool) {
    if transposed then IsMatching(pairs, cols, rows) else IsMatching(pairs, rows, cols)
  }

  ghost predicate RowsBelow(pairs: seq<Pair>, transposed: bool, n: nat) {
    forall k :: 0 <= k < |pairs| ==> RowOf(pairs[k], transposed) < n
  }

  ghost function Without(pairs: seq<Pair>, k: nat): (rest: seq<Pair>)
    requires k < |pairs|
    ensures |rest| == |pairs| - 1
    ensures forall j :: 0 <= j < |rest| ==> rest[j] == pairs[if j < k then j else j + 1]
  {
    pairs[..k] + pairs[k + 1..]
  }

  lemma {:induction false} TravelWithout(c: Costs, pairs: seq<Pair>, k: nat)
    requires k < |pairs| && InCosts(c, pairs)
    ensures InCosts(c, Without(pairs, k))
    ensures Travel(c, pairs) == Travel(c, Without(pairs, k)) + c[pairs[k].r][pairs[k].i]
    decreases |pairs|
  {
    var n := |pairs| - 1;
    if k == n {
      assert Without(pairs, k) == pairs[..n];
    } else {
      assert InCosts(c, pairs[..n]);
      TravelWithout(c, pairs[..n], k);
      assert pairs[n].r < |c| && pairs[n].i < |c[pairs[n].r]|;
      var rest := Without(pairs, k);
      assert rest[..n - 1] == Without(pairs[..n], k) && rest[n - 1] == pairs[n] && pairs[..n][k] == pairs[k];
    }
  }

  lemma MatchedInCosts(mat: H.Matrix, c: Costs, rows: nat, cols: nat, transposed: bool, pairs: seq<Pair>)
    requires IsView(mat, c, rows, cols, transposed) && Matched(pairs, rows, cols, transposed)
    ensures InCosts(c, pairs)
  {
  }

  lemma AssignmentInMatrix(mat: H.Matrix, c: Costs, rows: nat, cols: nat, transposed: bool, cs: seq<int>, n: nat)
    requires IsView(mat, c, rows, cols, transposed) && n <= rows && H.IsAssignment(cs, n, cols)
    ensures forall x :: 0 <= x < n ==> 0 <= cs[x] < |mat[x]| && mat[x][cs[x]].Finite?
  {
  }

  /** A matching that covers all rows of the view is an assignment of columns to rows, at the same total. */
  lemma {:induction false} ByRows(mat: H.Matrix, c: Costs, n: nat, rows: nat, cols: nat, transposed: bool, pairs: seq<Pair>)
    returns (cs: seq<int>)
    requires IsView(mat, c, rows, cols, transposed) && |mat| == rows && n <= rows && |pairs| == n
    requires Matched(pairs, rows, cols, transposed) && RowsBelow(pairs, transposed, n)
    ensures |cs| == n && H.IsAssignment(cs, n, cols)
    ensures forall x :: 0 <= x < n ==> 0 <= cs[x] < |mat[x]| && mat[x][cs[x]].Finite?
    ensures forall x :: 0 <= x < n ==> Oriented(x, cs[x], transposed) in pairs
    ensures InCosts(c, pairs) && H.Total(mat, cs, n) == Travel(c, pairs)
    decreases n
  {
    hide IsView, Matched, RowsBelow, Without, Oriented, RowOf, ColOf, H.IsAssignment;
    MatchedInCosts(mat, c, rows, cols, transposed, pairs);
    if n == 0 {
      cs := [];
      assert H.IsAssignment(cs, n, cols) by { NoRows(cols); }
    } else {
      var k := RowHolder(pairs, n, rows, cols, transposed);
      var rest, p := Without(pairs, k), pairs[k];
      RestOfMatching(pairs, k, rows, cols, transposed, n);
      TravelWithout(c, pairs, k);
      var init := ByRows(mat, c, n - 1, rows, cols, transposed, rest);
      cs := init + [ColOf(p, transposed)];
      AddRow(mat, c, n, rows, cols, transposed, pairs, rest, p, init);
    }
  }

  lemma NoRows(cols: nat)
    ensures H.IsAssignment([], 0, cols)
  {
  }

  /** The pair in the last row. */
  lemma RowHolder(pairs: seq<Pair>, n: nat, rows: nat, cols: nat, transposed: bool) returns (k: nat)
    requires 0 < n == |pairs| && Matched(pairs, rows, cols, transposed) && RowsBelow(pairs, transposed, n)
    ensures k < n && RowOf(pairs[k], transposed) == n - 1
  {
    var ns: seq<nat> := seq(n, j requires 0 <= j < n => RowOf(pairs[j], transposed));
    if forall j :: 0 <= j < n ==> ns[j] != n - 1 {
      DistinctBelow(ns, n - 1);
    }
    k :| 0 <= k < n && ns[k] == n - 1;
  }

  lemma RestOfMatching(pairs: seq<Pair>, k: nat, rows: nat, cols: nat, transposed: bool, n: nat)
    requires k < |pairs| == n && RowOf(pairs[k], transposed) == n - 1
    requires Matched(pairs, rows, cols, transposed) && RowsBelow(pairs, transposed, n)
    ensures Matched(Without(pairs, k), rows, cols, transposed) && RowsBelow(Without(pairs, k), transposed, n - 1)
    ensures forall q :: q in Without(pairs, k) ==> q in pairs && ColOf(q, transposed) != ColOf(pairs[k], transposed)
  {
  }

  lemma AddRow(mat: H.Matrix, c: Costs, n: nat, rows: nat, cols: nat, transposed: bool, pairs: seq<Pair>,
               rest: seq<Pair>, p: Pair, init: seq<int>)
    requires IsView(mat, c, rows, cols, transposed) && 0 < n <= rows && p in pairs
    requires Matched(pairs, rows, cols, transposed) && RowOf(p, transposed) == n - 1
    requires forall q :: q in rest ==> q in pairs && ColOf(q, transposed) != ColOf(p, transposed)
    requires |init| == n - 1 && H.IsAssignment(init, n - 1, cols)
    requires forall x :: 0 <= x < n - 1 ==> 0 <= init[x] && Oriented(x, init[x], transposed) in rest
    ensures var cs := init + [ColOf(p, transposed)];
            && H.IsAssignment(cs, n, cols)
            && (forall x :: 0 <= x < n ==> 0 <= cs[x] < |mat[x]| && mat[x][cs[x]].Finite?)
            && (forall x :: 0 <= x < n ==> Oriented(x, cs[x], transposed) in pairs)
            && p.r < |c| && p.i < |c[p.r]|
            && (forall x :: 0 <= x < n - 1 ==> 0 <= init[x] < |mat[x]| && mat[x][init[x]].Finite?)
            && H.Total(mat, cs, n) == H.Total(mat, init, n - 1) + c[p.r][p.i]
  {
    hide IsView, Matched, H.IsAssignment;
    var y := ColOf(p, transposed);
    var cs := init + [y];
    assert p == Oriented(n - 1, y, transposed);
    LastEntry(mat, c, n, rows, cols, transposed, pairs, p);
    NewColumn(cols, n, transposed, pairs, rest, p, init);
    AssignmentInMatrix(mat, c, rows, cols, transposed, cs, n);
    AssignmentInMatrix(mat, c, rows, cols, transposed, init, n - 1);
    SameTotal(mat, init, cs, n - 1);
  }

  lemma NewColumn(cols: nat, n: nat, transposed: bool, pairs: seq<Pair>, rest: seq<Pair>, p: Pair, init: seq<int>)
    requires 0 < n && |init| == n - 1 && H.IsAssignment(init, n - 1, cols) && ColOf(p, transposed) < cols
    requires p in pairs && p == Oriented(n - 1, ColOf(p, transposed), transposed)
    requires forall q :: q in rest ==> q in pairs && ColOf(q, transposed) != ColOf(p, transposed)
    requires forall x :: 0 <= x < n - 1 ==> 0 <= init[x] && Oriented(x, init[x], transposed) in rest
    ensures var cs := init + [ColOf(p, transposed)];
            H.IsAssignment(cs, n, cols) && forall x :: 0 <= x < n ==> Oriented(x, cs[x], transposed) in pairs
  {
    forall x | 0 <= x < n - 1 ensures init[x] != ColOf(p, transposed) {
      assert ColOf(Oriented(x, init[x], transposed), transposed) == init[x];
    }
  }

  lemma LastEntry(mat: H.Matrix, c: Costs, n: nat, rows: nat, cols: nat, transposed: bool, pairs: seq<Pair>, p: Pair)
    requires IsView(mat, c, rows, cols, transposed) && 0 < n <= rows && p in pairs
    requires Matched(pairs, rows, cols, transposed) && RowOf(p, transposed) == n - 1
    ensures ColOf(p, transposed) < cols && p.r < |c| && p.i < |c[p.r]|
    ensures |mat| == rows && |mat[n - 1]| == cols && mat[n - 1][ColOf(p, transposed)] == H.Finite(c[p.r][p.i])
  {
    assert mat[n - 1][ColOf(p, transposed)] == H.Finite(Entry(c, n - 1, ColOf(p, transposed), transposed));
  }

  lemma {:induction false} SameTotal(mat: H.Matrix, a: seq<int>, b: seq<int>, k: nat)
    requires k <= |a| <= |mat| && k <= |b| <= |mat| && forall x :: 0 <= x < k ==> a[x] == b[x]
    requires forall x :: 0 <= x < k ==> 0 <= a[x] < |mat[x]| && mat[x][a[x]].Finite?
    ensures H.Total(mat, a, k) == H.Total(mat, b, k)
  {
    if k > 0 {
      SameTotal(mat, a, b, k - 1);
    }
  }

  lemma PairCostRange(g: Graph, src: int, dst: int, x: real)
    requires WellFormed(g) && IsPairCost(g, src, dst, x)
    ensures 0.0 <= x <= UNREACHABLE
  {
    if 0 <= src < |g| && 0 <= dst < |g| {
      var d: real :| Dijkstra.IsDistance(g, src, dst, d) && x == if d < UNREACHABLE then d else UNREACHABLE_COST;
      if d < UNREACHABLE {
        var w: Walk :| IsWalk(g, src, w) && End(g, src, w) == dst && Weight(g, w) == d;
        WalkStaysInside(g, src, w);
      }
    }
  }

  /** Road costs and the penalty are not negative and far below INF: every entry is cheap. */
  lemma ViewIsGenerous(pool: seq<Responder>, incidents: seq<Incident>, g: Graph, full: Costs, avail: seq<nat>,
                       mat: H.Matrix, rows: nat, cols: nat, transposed: bool)
    requires WellFormed(g) && IsCostMatrix(full, pool, incidents, g) && IsAvailable(avail, pool)
    requires IsView(mat, Restricted(full, avail), rows, cols, transposed) && 1 <= rows <= cols
    requires |avail| == (if transposed then cols else rows) && |incidents| == if transposed then rows else cols
    ensures H.Rectangular(mat, cols) && mat != [] && |mat[0]| == cols && H.Generous(mat, H.INF)
  {
    hide IsPairCost, H.INF, UNREACHABLE, H.Generous;
    forall x, y | 0 <= x < rows && 0 <= y < cols ensures mat[x][y].Finite? && 0.0 <= mat[x][y].value <= UNREACHABLE {
      var p := Oriented(x, y, transposed);
      PairCostRange(g, pool[avail[p.r]].node, incidents[p.i].node, full[avail[p.r]][p.i]);
      assert mat[x][y] == H.Finite(Entry(Restricted(full, avail), x, y, transposed));
    }
    UnreachableBelowInf();
    HL.AllCheap(mat, rows, cols, 0.0, UNREACHABLE, H.INF);
  }

  lemma UnreachableBelowInf()
    ensures UNREACHABLE < H.INF
  {
  }

  /** The matrix with the smaller side as rows. */
  method BuildView(full: Costs, avail: seq<nat>, rows: nat, cols: nat, transposed: bool) returns (mat: H.Matrix)
    requires forall k :: 0 <= k < |avail| ==> avail[k] < |full|
    requires Rect(Restricted(full, avail), if transposed then cols else rows, if transposed then rows else cols)
    ensures IsView(mat, Restricted(full, avail), rows, cols, transposed)
  {
    ghost var c := Restricted(full, avail);
    mat := seq(rows, _ => seq(cols, _ => H.Finite(0.0)));
    for x := 0 to rows
      invariant |mat| == rows && forall k :: 0 <= k < rows ==> |mat[k]| == cols
      invariant forall k, y :: 0 <= k < x && 0 <= y < cols ==> mat[k][y] == H.Finite(Entry(c, k, y, transposed))
    {
      var row := mat[x];
      for y := 0 to cols
        invariant |row| == cols
        invariant forall k :: 0 <= k < y ==> row[k] == H.Finite(Entry(c, x, k, transposed))
      {
        var p := Oriented(x, y, transposed);
        assert c[p.r] == full[avail[p.r]];
        row := row[y := H.Finite(full[avail[p.r]][p.i])];
      }
      mat := mat[x := row];
    }
  }

  /** The pairs of the first x rows of an assignment. */
  ghost function Whole(cs: seq<int>, transposed: bool, x: nat): (pairs: seq<Pair>)
    requires x <= |cs| && forall y :: 0 <= y < |cs| ==> cs[y] >= 0
    ensures |pairs| == x && forall y :: 0 <= y < x ==> pairs[y] == Oriented(y, cs[y], transposed)
  {
    seq(x, y requires 0 <= y < x => Oriented(y, cs[y], transposed))
  }

  /** Those of the pairs whose incident can be reached. */
  ghost function ReachablePart(c: Costs, pairs: seq<Pair>): seq<Pair>
    requires InCosts(c, pairs)
  {
    if pairs == [] then []
    else
      var rest, p := ReachablePart(c, pairs[..|pairs| - 1]), pairs[|pairs| - 1];
      if c[p.r][p.i] < UNREACHABLE_COST then rest + [p] else rest
  }

  lemma {:induction false} AllArePart(c: Costs, pairs: seq<Pair>)
    requires InCosts(c, pairs) && AllReachable(c)
    ensures ReachablePart(c, pairs) == pairs
  {
    if pairs != [] {
      var init, p := pairs[..|pairs| - 1], pairs[|pairs| - 1];
      AllArePart(c, init);
      assert p.r < |c| && p.i < |c[p.r]|;
      assert pairs == init + [p];
    }
  }

  lemma WholeStep(c: Costs, cs: seq<int>, transposed: bool, x: nat)
    requires x < |cs| && (forall y :: 0 <= y < |cs| ==> cs[y] >= 0)
    requires InCosts(c, Whole(cs, transposed, x))
    requires var p := Oriented(x, cs[x], transposed); p.r < |c| && p.i < |c[p.r]|
    ensures var p, before := Oriented(x, cs[x], transposed), Whole(cs, transposed, x);
            var after := Whole(cs, transposed, x + 1);
            && InCosts(c, after) && Travel(c, after) == Travel(c, before) + c[p.r][p.i]
            && ReachablePart(c, after) ==
               ReachablePart(c, before) + if c[p.r][p.i] < UNREACHABLE_COST then [p] else []
  {
    var after := Whole(cs, transposed, x + 1);
    assert after[..x] == Whole(cs, transposed, x);
  }

  lemma WholeIsMatching(cs: seq<int>, transposed: bool, rows: nat, cols: nat)
    requires H.IsAssignment(cs, rows, cols)
    ensures IsMatching(Whole(cs, transposed, rows), if transposed then cols else rows, if transposed then rows else cols)
  {
  }

  /** Rows 0..x of the assignment have been turned into orders. */
  ghost predicate Committed(orders: seq<Order>, pairs: seq<Pair>, c: Costs, avail: seq<nat>, pool: seq<Responder>,
                            incidents: seq<Incident>, transposed: bool, cs: seq<int>, x: nat)
  {
    && OrdersOf(orders, pairs, c, avail, pool, incidents) && IsMatching(pairs, |avail|, |incidents|)
    && (forall k :: 0 <= k < |pairs| ==>
          RowOf(pairs[k], transposed) < x <= |cs| && ColOf(pairs[k], transposed) == cs[RowOf(pairs[k], transposed)])
    && (forall k :: 0 <= k < |orders| ==> orders[k].travel < UNREACHABLE_COST)
  }

  lemma CommitStep(orders: seq<Order>, pairs: seq<Pair>, c: Costs, avail: seq<nat>, pool: seq<Responder>,
                   incidents: seq<Incident>, transposed: bool, cs: seq<int>, x: nat, p: Pair, o: Order)
    requires Committed(orders, pairs, c, avail, pool, incidents, transposed, cs, x)
    requires x < |cs| && 0 <= cs[x] && p == Oriented(x, cs[x], transposed)
    requires forall y, z :: 0 <= y < z < |cs| ==> cs[y] != cs[z]
    requires p.r < |avail| && p.i < |incidents| && c[p.r][p.i] < UNREACHABLE_COST
    requires o == Order(pool[avail[p.r]].id, incidents[p.i].id, c[p.r][p.i])
    ensures Committed(orders + [o], pairs + [p], c, avail, pool, incidents, transposed, cs, x + 1)
  {
    hide OrdersOf;
    OrdersInRange(orders, pairs, c, avail, pool, incidents);
    OrdersPush(orders, pairs, c, avail, pool, incidents, p, o);
    forall k | 0 <= k < |pairs| ensures pairs[k].r != p.r && pairs[k].i != p.i {
      assert cs[RowOf(pairs[k], transposed)] != cs[x];
    }
  }

  lemma OrdersPush(orders: seq<Order>, pairs: seq<Pair>, c: Costs, avail: seq<nat>, pool: seq<Responder>,
                   incidents: seq<Incident>, p: Pair, o: Order)
    requires OrdersOf(orders, pairs, c, avail, pool, incidents) && p.r < |avail| && p.i < |incidents|
    requires o == Order(pool[avail[p.r]].id, incidents[p.i].id, c[p.r][p.i])
    ensures OrdersOf(orders + [o], pairs + [p], c, avail, pool, incidents) && |orders| == |pairs|
  {
  }

  lemma CommitSkip(orders: seq<Order>, pairs: seq<Pair>, c: Costs, avail: seq<nat>, pool: seq<Responder>,
                   incidents: seq<Incident>, transposed: bool, cs: seq<int>, x: nat)
    requires Committed(orders, pairs, c, avail, pool, incidents, transposed, cs, x) && x < |cs|
    ensures Committed(orders, pairs, c, avail, pool, incidents, transposed, cs, x + 1)
  {
  }

  lemma CommitStart(c: Costs, avail: seq<nat>, pool: seq<Responder>, incidents: seq<Incident>, transposed: bool, cs: seq<int>)
    requires Rect(c, |avail|, |incidents|) && forall k :: 0 <= k < |avail| ==> avail[k] < |pool|
    requires forall y :: 0 <= y < |cs| ==> cs[y] >= 0
    ensures Committed([], [], c, avail, pool, incidents, transposed, cs, 0)
    ensures InCosts(c, Whole(cs, transposed, 0)) && Travel(c, Whole(cs, transposed, 0)) == 0.0
    ensures ReachablePart(c, Whole(cs, transposed, 0)) == []
  {
  }

  lemma ViewEntry(mat: H.Matrix, c: Costs, rows: nat, cols: nat, transposed: bool, cs: seq<int>, x: nat)
    requires IsView(mat, c, rows, cols, transposed) && H.IsAssignment(cs, rows, cols) && x < rows
    ensures 0 <= cs[x] < cols && forall y, z :: 0 <= y < z < rows ==> cs[y] != cs[z]
    ensures var p := Oriented(x, cs[x], transposed);
            p.r < |c| && p.i < |c[p.r]| && mat[x][cs[x]] == H.Finite(c[p.r][p.i])
  {
  }

  /** Turns an assignment into orders, dropping pairs that were only forced. */
  method Commit(full: Costs, avail: seq<nat>, pool: seq<Responder>, incidents: seq<Incident>, ghost mat: H.Matrix,
                rows: nat, cols: nat, transposed: bool, cs: seq<int>)
    returns (orders: seq<Order>)
    requires |full| == |pool| && forall k :: 0 <= k < |avail| ==> avail[k] < |pool|
    requires |avail| == (if transposed then cols else rows) && |incidents| == if transposed then rows else cols
    requires IsView(mat, Restricted(full, avail), rows, cols, transposed) && H.IsAssignment(cs, rows, cols)
    ensures forall x :: 0 <= x < rows ==> 0 <= cs[x] < |mat[x]| && mat[x][cs[x]].Finite?
    ensures |cs| == rows && forall y :: 0 <= y < rows ==> cs[y] >= 0
    ensures var c, whole := Restricted(full, avail), Whole(cs, transposed, rows);
            && InCosts(c, whole) && IsMatching(whole, |avail|, |incidents|) && Travel(c, whole) == H.Total(mat, cs, rows)
            && Committed(orders, ReachablePart(c, whole), c, avail, pool, incidents, transposed, cs, rows)
  {
    hide Travel, InCosts, Committed, ReachablePart, Whole;
    ghost var c := Restricted(full, avail);
    orders := [];
    ghost var pairs: seq<Pair> := [];
    AssignmentInMatrix(mat, c, rows, cols, transposed, cs, rows);
    CommitStart(c, avail, pool, incidents, transposed, cs);
    WholeIsMatching(cs, transposed, rows, cols);
    for x := 0 to rows
      invariant Committed(orders, pairs, c, avail, pool, incidents, transposed, cs, x)
      invariant InCosts(c, Whole(cs, transposed, x)) && Travel(c, Whole(cs, transposed, x)) == H.Total(mat, cs, x)
      invariant pairs == ReachablePart(c, Whole(cs, transposed, x))
    {
      ViewEntry(mat, c, rows, cols, transposed, cs, x);
      WholeStep(c, cs, transposed, x);
      if cs[x] >= 0 {
        var p := Oriented(x, cs[x], transposed);
        var cost := full[avail[p.r]][p.i];
        if cost < UNREACHABLE_COST {
          var o := Order(pool[avail[p.r]].id, incidents[p.i].id, cost);
          CommitStep(orders, pairs, c, avail, pool, incidents, transposed, cs, x, p, o);
          orders, pairs := orders + [o], pairs + [p];
        } else {
          CommitSkip(orders, pairs, c, avail, pool, incidents, transposed, cs, x);
        }
      }
    }
  }

  /** No matching of full size travels less than the plan. */
  ghost predicate NoneCheaper(c: Costs, rows: nat, cols: nat, pairs: seq<Pair>)
    requires Rect(c, rows, cols)
  {
    && InCosts(c, pairs)
    && forall other: seq<Pair> :: IsMatching(other, rows, cols) && |other| == Smaller(rows, cols) ==>
         InCosts(c, other) && Travel(c, pairs) <= Travel(c, other)
  }

  lemma PlanIsOptimal(c: Costs, rows: nat, cols: nat, transposed: bool, mat: H.Matrix, cs: seq<int>, pairs: seq<Pair>, total: real)
    requires IsView(mat, c, rows, cols, transposed) && rows <= cols && InCosts(c, pairs)
    requires Travel(c, pairs) == total
    requires forall other :: H.IsAssignment(other, rows, cols) ==>
               && (forall x :: 0 <= x < rows ==> 0 <= other[x] < |mat[x]| && mat[x][other[x]].Finite?)
               && total <= H.Total(mat, other, rows)
    ensures NoneCheaper(c, if transposed then cols else rows, if transposed then rows else cols, pairs)
  {
    hide IsView, InCosts, Travel, H.IsAssignment;
    ViewRect(mat, c, rows, cols, transposed);
    var r, i := if transposed then cols else rows, if transposed then rows else cols;
    forall other: seq<Pair> | IsMatching(other, r, i) && |other| == Smaller(r, i)
      ensures InCosts(c, other) && Travel(c, pairs) <= Travel(c, other)
    {
      assert RowsBelow(other, transposed, rows);
      var ocs := ByRows(mat, c, rows, rows, cols, transposed, other);
      assert H.IsAssignment(ocs, rows, cols);
    }
  }

  lemma ViewRect(mat: H.Matrix, c: Costs, rows: nat, cols: nat, transposed: bool)
    requires IsView(mat, c, rows, cols, transposed)
    ensures |mat| == rows && Rect(c, if transposed then cols else rows, if transposed then rows else cols)
  {
  }

  /** The planner for one orientation: the smaller side as rows of the Hungarian method. */
  method PlanOriented(pool: seq<Responder>, incidents: seq<Incident>, ghost g: Graph, full: Costs, avail: seq<nat>,
                      rows: nat, cols: nat, transposed: bool)
    returns (orders: seq<Order>, rowToCol: seq<int>)
    requires WellFormed(g) && IsCostMatrix(full, pool, incidents, g) && IsAvailable(avail, pool)
    requires 1 <= rows <= cols
    requires |avail| == (if transposed then cols else rows) && |incidents| == if transposed then rows else cols
    ensures |rowToCol| == rows && forall y :: 0 <= y < rows ==> rowToCol[y] >= 0
    ensures var c, whole := Restricted(full, avail), Whole(rowToCol, transposed, rows);
            && IsMatching(whole, |avail|, |incidents|) && InCosts(c, whole) && NoneCheaper(c, |avail|, |incidents|, whole)
            && OrdersOf(orders, ReachablePart(c, whole), c, avail, pool, incidents)
            && IsMatching(ReachablePart(c, whole), |avail|, |incidents|)
    ensures forall k :: 0 <= k < |orders| ==> orders[k].travel < UNREACHABLE_COST
  {
    hide H.INF, H.DBL_MAX, H.Rectangular, H.Generous, H.Diagnosis, H.IsAssignment, IsPairCost,
      NoneCheaper, IsView, H.Total, Travel, InCosts, ReachablePart, Whole;
    ghost var c := Restricted(full, avail);
    var mat := BuildView(full, avail, rows, cols, transposed);
    ViewIsGenerous(pool, incidents, g, full, avail, mat, rows, cols, transposed);
    ViewRect(mat, c, rows, cols, transposed);
    ViewIsSound(mat, cols);
    var asg := H.Hungarian(mat);
    rowToCol := asg.rowToCol;
    orders := Commit(full, avail, pool, incidents, mat, rows, cols, transposed, rowToCol);
    ghost var whole := Whole(rowToCol, transposed, rows);
    AllAssignmentsInMatrix(mat, c, rows, cols, transposed);
    PlanIsOptimal(c, rows, cols, transposed, mat, rowToCol, whole, asg.totalCost);
  }

  lemma AllAssignmentsInMatrix(mat: H.Matrix, c: Costs, rows: nat, cols: nat, transposed: bool)
    requires IsView(mat, c, rows, cols, transposed)
    ensures forall cs: seq<int> :: H.IsAssignment(cs, rows, cols) ==>
              forall x :: 0 <= x < rows ==> 0 <= cs[x] < |mat[x]| && mat[x][cs[x]].Finite?
  {
  }

  lemma ViewIsSound(mat: H.Matrix, cols: nat)
    requires mat != [] && |mat| <= cols && |mat[0]| == cols && H.Rectangular(mat, cols)
    ensures H.Diagnosis(mat) == H.Ok
  {
    H.NoProblemMeansRectangular(mat, cols, 0);
    assert mat[0..] == mat;
  }

  /** The plan realises the reachable part of a matching of full size than which none is cheaper, an unreachable pair
      counting at its penalty cost. */
  ghost predicate IsOptimal(plan: Plan, pool: seq<Responder>, incidents: seq<Incident>, g: Graph, full: Costs,
                            avail: seq<nat>, whole: seq<Pair>)
  {
    && IsCostMatrix(full, pool, incidents, g) && IsAvailable(avail, pool)
    && var c := Restricted(full, avail);
    && Rect(c, |avail|, |incidents|) && IsMatching(whole, |avail|, |incidents|) && |whole| == Smaller(|avail|, |incidents|)
    && InCosts(c, whole) && NoneCheaper(c, |avail|, |incidents|, whole)
    && Realizes(plan, ReachablePart(c, whole), c, avail, pool, incidents)
    && forall k :: 0 <= k < |plan.orders| ==> plan.orders[k].travel < UNREACHABLE_COST
  }

  ghost predicate OptimalPlan(plan: Plan, pool: seq<Responder>, incidents: seq<Incident>, g: Graph) {
    exists full: Costs, avail: seq<nat>, whole: seq<Pair> :: IsOptimal(plan, pool, incidents, g, full, avail, whole)
  }

  /** The optimal plan. The smaller side is taken as the rows. */
  method AssignOptimal(pool: seq<Responder>, incidents: seq<Incident>, g: Graph) returns (plan: Plan)
    requires WellFormed(g)
    ensures OptimalPlan(plan, pool, incidents, g)
  {
    hide IsPairCost, NoneCheaper, Travel, InCosts, Longest, ReachablePart;
    var cost := CostMatrix(pool, incidents, g);
    var avail := AvailableIndices(pool);
    ghost var c := Restricted(cost, avail);
    var orders: seq<Order>, rowToCol: seq<int> := [], [];
    if |avail| == 0 || |incidents| == 0 {
      NothingToPlan(c, |avail|, |incidents|);
      plan := Plan([], 0.0, 0.0, |incidents|);
      assert IsOptimal(plan, pool, incidents, g, cost, avail, []);
      return;
    }
    ghost var whole: seq<Pair>;
    if |avail| <= |incidents| {
      orders, rowToCol := PlanOriented(pool, incidents, g, cost, avail, |avail|, |incidents|, false);
      whole := Whole(rowToCol, false, |avail|);
    } else {
      orders, rowToCol := PlanOriented(pool, incidents, g, cost, avail, |incidents|, |avail|, true);
      whole := Whole(rowToCol, true, |incidents|);
    }
    ghost var pairs := ReachablePart(c, whole);
    OrdersInRange(orders, pairs, c, avail, pool, incidents);
    plan := Finalize(orders, |incidents|, pairs, c);
    assert IsOptimal(plan, pool, incidents, g, cost, avail, whole);
  }

  lemma NothingToPlan(c: Costs, rows: nat, cols: nat)
    requires Rect(c, rows, cols) && (rows == 0 || cols == 0)
    ensures InCosts(c, []) && Travel(c, []) == 0.0 && Longest(c, []) == 0.0 && NoneCheaper(c, rows, cols, [])
    ensures ReachablePart(c, []) == []
  {
    forall other: seq<Pair> | IsMatching(other, rows, cols) && |other| == Smaller(rows, cols)
      ensures InCosts(c, other) && Travel(c, []) <= Travel(c, other)
    {
      assert other == [];
    }
  }
}
