/** The two planners against each other, and against every other way to send responders, on the same input. */
module PlanComparison {
  import opened Assigner
  import opened Counting
  import opened RoadGraph
  import Dijkstra
  import LabelSearch

  // ------------------------------------------------------------- what the input determines

  lemma PairCostUnique(g: Graph, src: int, dst: int, x: real, y: real)
    requires IsPairCost(g, src, dst, x) && IsPairCost(g, src, dst, y)
    ensures x == y
  {
    hide Dijkstra.IsDistance;
    if 0 <= src < |g| && 0 <= dst < |g| {
      var d: real :| Dijkstra.IsDistance(g, src, dst, d) && x == if d < LabelSearch.UNREACHABLE then d else UNREACHABLE_COST;
      var e: real :| Dijkstra.IsDistance(g, src, dst, e) && y == if e < LabelSearch.UNREACHABLE then e else UNREACHABLE_COST;
      Dijkstra.SameDistance(g, src, dst, d, e);
    }
  }

  /** The road network determines the cost matrix. */
  lemma CostMatrixUnique(pool: seq<Responder>, incidents: seq<Incident>, g: Graph, a: Costs, b: Costs)
    requires IsCostMatrix(a, pool, incidents, g) && IsCostMatrix(b, pool, incidents, g)
    ensures a == b
  {
    hide IsPairCost;
    forall r | 0 <= r < |pool| ensures a[r] == b[r] {
      forall i | 0 <= i < |incidents| ensures a[r][i] == b[r][i] {
        PairCostUnique(g, pool[r].node, incidents[i].node, a[r][i], b[r][i]);
      }
    }
  }

  /** The list of available positions is determined, too. */
  lemma AvailableUnique(pool: seq<Responder>, a: seq<nat>, b: seq<nat>)
    requires IsAvailable(a, pool) && IsAvailable(b, pool)
    ensures a == b
  {
    AvailableLength(pool, a, b);
    AvailableLength(pool, b, a);
    AvailablePrefix(pool, a, b, |a|);
    assert a[..|a|] == a && b[..|b|] == b;
  }

  lemma AvailableLength(pool: seq<Responder>, a: seq<nat>, b: seq<nat>)
    requires IsAvailable(a, pool) && IsAvailable(b, pool)
    ensures |a| <= |b|
  {
    forall k | 0 <= k < |a| ensures a[k] in b {
      assert pool[a[k]].available;
    }
    InjectionSize(Below(|a|), Below(|b|), map k | k in Below(|a|) :: PositionOf(b, a[k]));
  }

  lemma {:induction false} AvailablePrefix(pool: seq<Responder>, a: seq<nat>, b: seq<nat>, k: nat)
    requires IsAvailable(a, pool) && IsAvailable(b, pool) && k <= |a| && k <= |b|
    ensures a[..k] == b[..k]
  {
    hide IsAvailable;
    if k > 0 {
      AvailablePrefix(pool, a, b, k - 1);
      SamePrefix(a, b, k - 1);
      NotBefore(pool, a, b, k - 1);
      NotBefore(pool, b, a, k - 1);
      assert a[..k] == a[..k - 1] + [a[k - 1]] && b[..k] == b[..k - 1] + [b[k - 1]];
    }
  }

  lemma SamePrefix(a: seq<nat>, b: seq<nat>, k: nat)
    requires k <= |a| && k <= |b| && a[..k] == b[..k]
    ensures forall j :: 0 <= j < k ==> a[j] == b[j]
  {
    forall j | 0 <= j < k ensures a[j] == b[j] {
      assert a[..k][j] == b[..k][j];
    }
  }

  lemma NotBefore(pool: seq<Responder>, a: seq<nat>, b: seq<nat>, k: nat)
    requires IsAvailable(a, pool) && IsAvailable(b, pool) && k < |a| && k < |b| && forall j :: 0 <= j < k ==> a[j] == b[j]
    ensures b[k] <= a[k]
  {
    assert pool[a[k]].available;
    var m :| 0 <= m < |b| && b[m] == a[k];
    assert k <= m;
  }

  lemma InputsFit(pool: seq<Responder>, incidents: seq<Incident>, g: Graph, full: Costs, avail: seq<nat>)
    requires IsCostMatrix(full, pool, incidents, g) && IsAvailable(avail, pool)
    ensures (forall k :: 0 <= k < |avail| ==> avail[k] < |full|) && Rect(Restricted(full, avail), |avail|, |incidents|)
  {
  }

  // ------------------------------------------------------------------------------- the planners

  /** There is only one greedy plan. */
  lemma GreedyPlanUnique(pool: seq<Responder>, incidents: seq<Incident>, g: Graph, a: Plan, b: Plan)
    requires GreedyPlan(a, pool, incidents, g) && GreedyPlan(b, pool, incidents, g)
    ensures a == b
  {
    hide IsCostMatrix, IsAvailable, GreedyRun, Travel, Longest;
    var fa: Costs, va: seq<nat>, pa: seq<Pair> :| IsGreedy(a, pool, incidents, g, fa, va, pa);
    var fb: Costs, vb: seq<nat>, pb: seq<Pair> :| IsGreedy(b, pool, incidents, g, fb, vb, pb);
    CostMatrixUnique(pool, incidents, g, fa, fb);
    AvailableUnique(pool, va, vb);
    InputsFit(pool, incidents, g, fa, va);
    GreedyDeterministic(Restricted(fa, va), |va|, |incidents|, pa, pb);
    assert a.orders == b.orders;
  }

  // -------------------------------------------------------------------------------- totals of a plan

  function SumOfTravel(orders: seq<Order>): real {
    if orders == [] then 0.0 else orders[0].travel + SumOfTravel(orders[1..])
  }

  /** The makespan is the longest trip, the total the sum of all trips, and every other incident is unassigned. */
  ghost predicate Totalled(plan: Plan, incidentCount: nat) {
    && (forall k :: 0 <= k < |plan.orders| ==> plan.orders[k].travel <= plan.makespan)
    && (if plan.orders == [] then plan.makespan == 0.0
        else exists k :: 0 <= k < |plan.orders| && plan.orders[k].travel == plan.makespan)
    && plan.total == SumOfTravel(plan.orders) && plan.unassigned == incidentCount - |plan.orders|
  }

  lemma {:induction false} SumPush(orders: seq<Order>, o: Order)
    ensures SumOfTravel(orders + [o]) == SumOfTravel(orders) + o.travel
  {
    if orders != [] {
      SumPush(orders[1..], o);
      assert (orders + [o])[1..] == orders[1..] + [o];
    }
  }

  /** The trips of the pairs: not negative, summed by the total, the longest one the makespan. */
  lemma {:induction false} PairTotals(orders: seq<Order>, pairs: seq<Pair>, c: Costs)
    requires InCosts(c, pairs) && |orders| == |pairs|
    requires forall k :: 0 <= k < |pairs| ==> orders[k].travel == c[pairs[k].r][pairs[k].i] >= 0.0
    ensures Travel(c, pairs) == SumOfTravel(orders) && Longest(c, pairs) >= 0.0
    ensures forall k :: 0 <= k < |orders| ==> orders[k].travel <= Longest(c, pairs)
    ensures if orders == [] then Longest(c, pairs) == 0.0
            else exists k :: 0 <= k < |orders| && orders[k].travel == Longest(c, pairs)
  {
    if pairs != [] {
      var n := |pairs| - 1;
      PairTotals(orders[..n], pairs[..n], c);
      SumPush(orders[..n], orders[n]);
      assert orders == orders[..n] + [orders[n]];
      if Longest(c, pairs) != orders[n].travel {
        assert n > 0;
        var k :| 0 <= k < n && orders[..n][k].travel == Longest(c, pairs[..n]);
        assert orders[k].travel == Longest(c, pairs);
      }
    }
  }

  lemma RealizedTotals(plan: Plan, pairs: seq<Pair>, pool: seq<Responder>, incidents: seq<Incident>, g: Graph, full: Costs,
                       avail: seq<nat>)
    requires WellFormed(g) && IsCostMatrix(full, pool, incidents, g) && IsAvailable(avail, pool)
    requires Realizes(plan, pairs, Restricted(full, avail), avail, pool, incidents)
    ensures Totalled(plan, |incidents|)
  {
    hide IsPairCost, Travel, Longest;
    var c := Restricted(full, avail);
    forall k | 0 <= k < |pairs| ensures plan.orders[k].travel == c[pairs[k].r][pairs[k].i] >= 0.0 {
      var r, i := avail[pairs[k].r], pairs[k].i;
      PairCostRange(g, pool[r].node, incidents[i].node, full[r][i]);
    }
    PairTotals(plan.orders, pairs, c);
  }

  /** Both plans report their own trips: the longest as makespan, the sum as total. */
  lemma PlansAreTotalled(pool: seq<Responder>, incidents: seq<Incident>, g: Graph, plan: Plan)
    requires WellFormed(g) && (GreedyPlan(plan, pool, incidents, g) || OptimalPlan(plan, pool, incidents, g))
    ensures Totalled(plan, |incidents|)
  {
    hide IsCostMatrix, IsAvailable, GreedyRun, Travel, Longest, Realizes, ReachablePart, NoneCheaper, Complete, Totalled;
    if GreedyPlan(plan, pool, incidents, g) {
      var full: Costs, avail: seq<nat>, pairs: seq<Pair> :| IsGreedy(plan, pool, incidents, g, full, avail, pairs);
      InputsFit(pool, incidents, g, full, avail);
      RealizedTotals(plan, pairs, pool, incidents, g, full, avail);
    } else {
      var full: Costs, avail: seq<nat>, whole: seq<Pair> :| IsOptimal(plan, pool, incidents, g, full, avail, whole);
      InputsFit(pool, incidents, g, full, avail);
      RealizedTotals(plan, ReachablePart(Restricted(full, avail), whole), pool, incidents, g, full, avail);
    }
  }

  /** Every available responder can reach every incident. */
  ghost predicate EveryPairReachable(pool: seq<Responder>, incidents: seq<Incident>, g: Graph) {
    forall r, i, x :: 0 <= r < |pool| && pool[r].available && 0 <= i < |incidents| ==>
      IsPairCost(g, pool[r].node, incidents[i].node, x) ==> x < UNREACHABLE_COST
  }

  lemma ReachableCosts(pool: seq<Responder>, incidents: seq<Incident>, g: Graph, full: Costs, avail: seq<nat>)
    requires EveryPairReachable(pool, incidents, g) && IsCostMatrix(full, pool, incidents, g) && IsAvailable(avail, pool)
    ensures AllReachable(Restricted(full, avail))
  {
    hide IsPairCost;
    forall k, i | 0 <= k < |avail| && 0 <= i < |incidents| ensures full[avail[k]][i] < UNREACHABLE_COST {
      assert IsPairCost(g, pool[avail[k]].node, incidents[i].node, full[avail[k]][i]);
    }
  }

  /**
   Optimal dispatch never loses to greedy: when every available pair is reachable, both plans send out as many orders
   as the smaller side allows, and the total of the optimal plan is at most that of the greedy one.
   */
  lemma OptimalNeverLoses(pool: seq<Responder>, incidents: seq<Incident>, g: Graph, greedy: Plan, optimal: Plan)
    requires GreedyPlan(greedy, pool, incidents, g) && OptimalPlan(optimal, pool, incidents, g)
    requires EveryPairReachable(pool, incidents, g)
    ensures |optimal.orders| == |greedy.orders| && optimal.unassigned == greedy.unassigned
    ensures optimal.total <= greedy.total
    ensures exists avail :: IsAvailable(avail, pool) && |optimal.orders| == Smaller(|avail|, |incidents|)
  {
    hide IsCostMatrix, IsAvailable, GreedyRun, Travel, Longest, EveryPairReachable, AllReachable, ReachablePart;
    var full: Costs, avail: seq<nat>, pairs: seq<Pair> :| IsGreedy(greedy, pool, incidents, g, full, avail, pairs);
    var full': Costs, avail': seq<nat>, whole: seq<Pair> :| IsOptimal(optimal, pool, incidents, g, full', avail', whole);
    CostMatrixUnique(pool, incidents, g, full, full');
    AvailableUnique(pool, avail, avail');
    InputsFit(pool, incidents, g, full, avail);
    var c := Restricted(full, avail);
    ReachableCosts(pool, incidents, g, full, avail);
    AllArePart(c, whole);
    NoFreeMeansFull(c, |avail|, |incidents|, pairs);
  }

  // ------------------------------------------------------------------------ serving as many as possible

  /** Every cost is at most longest, or the penalty. */
  ghost predicate CostGap(c: Costs, longest: real) {
    forall r, i :: 0 <= r < |c| && 0 <= i < |c[r]| ==> 0.0 <= c[r][i] <= longest || c[r][i] == UNREACHABLE_COST
  }

  ghost predicate PairsReachable(c: Costs, pairs: seq<Pair>) {
    InCosts(c, pairs) && forall k :: 0 <= k < |pairs| ==> c[pairs[k].r][pairs[k].i] < UNREACHABLE_COST
  }

  /** A matching extends to one of full size. */
  lemma {:induction false} Extended(rows: nat, cols: nat, pairs: seq<Pair>) returns (whole: seq<Pair>)
    requires IsMatching(pairs, rows, cols)
    ensures IsMatching(whole, rows, cols) && |whole| == Smaller(rows, cols) && |pairs| <= |whole|
    ensures whole[..|pairs|] == pairs
    decreases Smaller(rows, cols) - |pairs|
  {
    hide IsMatching, Free;
    MatchingIsSmall(pairs, rows, cols);
    if forall a, b :: 0 <= a < rows && 0 <= b < cols ==> !Free(pairs, a, b) {
      FullMatching(pairs, rows, cols);
      whole := pairs;
    } else {
      var a: nat, b: nat :| a < rows && b < cols && Free(pairs, a, b);
      var more := pairs + [Pair(a, b)];
      MatchOneMore(pairs, Pair(a, b), rows, cols);
      MatchingIsSmall(more, rows, cols);
      whole := Extended(rows, cols, more);
      assert whole[..|pairs|] == whole[..|more|][..|pairs|] == pairs;
    }
  }

  /** What the pairs of a matching travel, with k reachable ones in front. */
  lemma {:induction false} TravelAtMost(c: Costs, pairs: seq<Pair>, k: nat, longest: real)
    requires InCosts(c, pairs) && CostGap(c, longest) && 0.0 <= longest < UNREACHABLE_COST && k <= |pairs|
    requires PairsReachable(c, pairs[..k])
    ensures Travel(c, pairs) <= k as real * longest + (|pairs| - k) as real * UNREACHABLE_COST
  {
    hide CostGap, PairsReachable, InCosts;
    if pairs != [] {
      var n := |pairs| - 1;
      LastCost(c, pairs, k, longest);
      if k == |pairs| {
        assert pairs[..k][n] == pairs[n] && pairs[..n] == pairs[..k][..n];
        assert pairs[..n][..n] == pairs[..n];
        TravelAtMost(c, pairs[..n], n, longest);
        OneMoreTimes(n, longest);
      } else {
        assert pairs[..n][..k] == pairs[..k];
        TravelAtMost(c, pairs[..n], k, longest);
        OneMoreTimes(n - k, UNREACHABLE_COST);
      }
    }
  }

  /** What the last pair costs, and what is known of the pairs before it. */
  lemma LastCost(c: Costs, pairs: seq<Pair>, k: nat, longest: real)
    requires pairs != [] && InCosts(c, pairs) && CostGap(c, longest) && longest < UNREACHABLE_COST && k <= |pairs|
    requires PairsReachable(c, pairs[..k])
    ensures var n := |pairs| - 1;
            && pairs[n].r < |c| && pairs[n].i < |c[pairs[n].r]| && InCosts(c, pairs[..n])
            && c[pairs[n].r][pairs[n].i] <= (if k == |pairs| then longest else UNREACHABLE_COST)
            && (k == |pairs| ==> PairsReachable(c, pairs[..n]))
  {
    var n := |pairs| - 1;
    if k == |pairs| {
      assert pairs[..k] == pairs;
      assert c[pairs[n].r][pairs[n].i] < UNREACHABLE_COST;
    }
  }

  lemma OneMoreTimes(n: nat, x: real)
    ensures (n + 1) as real * x == n as real * x + x
  {
  }

  /** Every pair outside the reachable part costs the penalty. */
  lemma {:induction false} TravelAtLeast(c: Costs, pairs: seq<Pair>, longest: real)
    requires InCosts(c, pairs) && CostGap(c, longest)
    ensures |ReachablePart(c, pairs)| <= |pairs|
    ensures Travel(c, pairs) >= (|pairs| - |ReachablePart(c, pairs)|) as real * UNREACHABLE_COST
  {
    if pairs != [] {
      TravelAtLeast(c, pairs[..|pairs| - 1], longest);
    }
  }

  /** The reachable part of a cheapest full matching is a largest reachable matching, as long as all its trips together
      stay below the penalty for one pair. */
  lemma LargestReachable(c: Costs, rows: nat, cols: nat, whole: seq<Pair>, other: seq<Pair>, longest: real)
    requires Rect(c, rows, cols) && CostGap(c, longest) && 0.0 <= longest
    requires Smaller(rows, cols) as real * longest < UNREACHABLE_COST
    requires |whole| == Smaller(rows, cols) && NoneCheaper(c, rows, cols, whole)
    requires IsMatching(other, rows, cols) && PairsReachable(c, other)
    ensures InCosts(c, whole) && |other| <= |ReachablePart(c, whole)|
  {
    hide IsMatching, Travel, ReachablePart, InCosts, Smaller, NoneCheaper, Rect, CostGap, PairsReachable;
    var s := Smaller(rows, cols);
    MatchingIsSmall(other, rows, cols);
    var big := Extended(rows, cols, other);
    CheaperThan(c, rows, cols, whole, big);
    TravelAtLeast(c, whole, longest);
    if other != [] {
      LongestBelow(s, longest);
      TravelAtMost(c, big, |other|, longest);
      Outweighed(s, |other|, |ReachablePart(c, whole)|, longest);
    }
  }

  lemma CheaperThan(c: Costs, rows: nat, cols: nat, whole: seq<Pair>, big: seq<Pair>)
    requires Rect(c, rows, cols) && NoneCheaper(c, rows, cols, whole)
    requires IsMatching(big, rows, cols) && |big| == Smaller(rows, cols)
    ensures InCosts(c, whole) && InCosts(c, big) && Travel(c, whole) <= Travel(c, big)
  {
  }

  lemma LongestBelow(s: nat, longest: real)
    requires s > 0 && 0.0 <= longest && s as real * longest < UNREACHABLE_COST
    ensures longest < UNREACHABLE_COST
  {
    assert s as real * longest >= 1.0 * longest;
  }

  lemma Outweighed(s: nat, k: nat, r: nat, longest: real)
    requires k <= s && r <= s && 0.0 <= longest && s as real * longest < UNREACHABLE_COST
    requires (s - r) as real * UNREACHABLE_COST <= k as real * longest + (s - k) as real * UNREACHABLE_COST
    ensures k <= r
  {
    assert k as real * longest <= s as real * longest;
    var d := k as real - r as real;
    assert d * UNREACHABLE_COST <= k as real * longest;
    assert d < 1.0;
  }

  /** All road costs of the input are at most longest, where there is a road. */
  ghost predicate TripsWithin(pool: seq<Responder>, incidents: seq<Incident>, g: Graph, longest: real) {
    forall r, i, x :: 0 <= r < |pool| && pool[r].available && 0 <= i < |incidents| ==>
      IsPairCost(g, pool[r].node, incidents[i].node, x) ==> x <= longest || x == UNREACHABLE_COST
  }

  lemma TripsGap(pool: seq<Responder>, incidents: seq<Incident>, g: Graph, full: Costs, avail: seq<nat>, longest: real)
    requires WellFormed(g) && TripsWithin(pool, incidents, g, longest)
    requires IsCostMatrix(full, pool, incidents, g) && IsAvailable(avail, pool)
    ensures CostGap(Restricted(full, avail), longest)
  {
    hide IsPairCost;
    forall k, i | 0 <= k < |avail| && 0 <= i < |incidents|
      ensures 0.0 <= full[avail[k]][i] <= longest || full[avail[k]][i] == UNREACHABLE_COST
    {
      PairCostRange(g, pool[avail[k]].node, incidents[i].node, full[avail[k]][i]);
    }
  }

  lemma {:induction false} GreedyReachable(c: Costs, rows: nat, cols: nat, pairs: seq<Pair>)
    requires Rect(c, rows, cols) && IsMatching(pairs, rows, cols) && GreedyRun(c, rows, cols, pairs)
    ensures PairsReachable(c, pairs)
  {
    hide Free;
    forall k | 0 <= k < |pairs| ensures c[pairs[k].r][pairs[k].i] < UNREACHABLE_COST {
      assert FirstCheapest(c, rows, cols, pairs[..k], pairs[k].r, pairs[k].i);
    }
  }

  /** With some pairs unreachable, the optimal plan still serves at least as many incidents as the greedy one, as long
      as the longest trip, taken as often as there can be orders, stays below the penalty for one pair. */
  lemma OptimalServesMost(pool: seq<Responder>, incidents: seq<Incident>, g: Graph, greedy: Plan, optimal: Plan, longest: real)
    requires WellFormed(g) && GreedyPlan(greedy, pool, incidents, g) && OptimalPlan(optimal, pool, incidents, g)
    requires 0.0 <= longest && TripsWithin(pool, incidents, g, longest)
    requires forall avail :: IsAvailable(avail, pool) ==> Smaller(|avail|, |incidents|) as real * longest < UNREACHABLE_COST
    ensures |greedy.orders| <= |optimal.orders|
  {
    hide IsGreedy, IsOptimal, IsAvailable, Smaller, TripsWithin, PairsReachable, NoneCheaper, CostGap, Rect;
    var full: Costs, avail: seq<nat>, pairs: seq<Pair> :| IsGreedy(greedy, pool, incidents, g, full, avail, pairs);
    var full': Costs, avail': seq<nat>, whole: seq<Pair> :| IsOptimal(optimal, pool, incidents, g, full', avail', whole);
    GreedyPairs(greedy, pool, incidents, g, full, avail, pairs);
    OptimalPairs(optimal, pool, incidents, g, full', avail', whole);
    CostMatrixUnique(pool, incidents, g, full, full');
    AvailableUnique(pool, avail, avail');
    TripsGap(pool, incidents, g, full, avail, longest);
    LargestReachable(Restricted(full, avail), |avail|, |incidents|, whole, pairs, longest);
  }

  lemma GreedyPairs(plan: Plan, pool: seq<Responder>, incidents: seq<Incident>, g: Graph, full: Costs, avail: seq<nat>,
                    pairs: seq<Pair>)
    requires IsGreedy(plan, pool, incidents, g, full, avail, pairs)
    ensures IsCostMatrix(full, pool, incidents, g) && IsAvailable(avail, pool)
    ensures forall k :: 0 <= k < |avail| ==> avail[k] < |full|
    ensures Rect(Restricted(full, avail), |avail|, |incidents|) && PairsReachable(Restricted(full, avail), pairs)
    ensures IsMatching(pairs, |avail|, |incidents|) && |plan.orders| == |pairs|
  {
    hide IsCostMatrix, IsAvailable, GreedyRun, Travel, Longest, Complete, IsMatching, PairsReachable;
    InputsFit(pool, incidents, g, full, avail);
    GreedyReachable(Restricted(full, avail), |avail|, |incidents|, pairs);
  }

  lemma OptimalPairs(plan: Plan, pool: seq<Responder>, incidents: seq<Incident>, g: Graph, full: Costs, avail: seq<nat>,
                     whole: seq<Pair>)
    requires IsOptimal(plan, pool, incidents, g, full, avail, whole)
    ensures IsCostMatrix(full, pool, incidents, g) && IsAvailable(avail, pool)
    ensures forall k :: 0 <= k < |avail| ==> avail[k] < |full|
    ensures var c := Restricted(full, avail);
            && Rect(c, |avail|, |incidents|) && |whole| == Smaller(|avail|, |incidents|)
            && NoneCheaper(c, |avail|, |incidents|, whole) && InCosts(c, whole)
            && |plan.orders| == |ReachablePart(c, whole)|
  {
    hide IsCostMatrix, IsAvailable, Travel, Longest, NoneCheaper, ReachablePart;
    InputsFit(pool, incidents, g, full, avail);
  }
}
