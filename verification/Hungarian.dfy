/**
 The Hungarian method with dual potentials: the loops, proved to compute the run of PotentialSearch, and optimality of
 the answer through the duality of potentials and costs.
 */
module Hungarian {
  import opened AlternatingTree
  import opened AssignmentRows
  import opened Counting
  import opened PotentialSearch
  import opened Wrappers

  /** The largest finite double, (2 - 2^-52) * 2^1023. */
  const DBL_MAX: real := 179769313486231570814527423731704356798070567525844996598917476803157260780028538760589558632766878171540458953514382464234321326889464182768467546703537516986049910576551282076245490090389328944075868508455133942304583236903222948165808559332123348274797826204144723168738177180919299881250404026184124858368.0

  const INF: real := DBL_MAX / 4.0

  // ------------------------------------------------------------------------------------------ the loops

  /** The scan over all unused columns from the row in the visited column. */
  method Scan(ghost t: Problem, ghost g: Growth, m: nat, a: seq<seq<real>>, u: seq<real>, v: seq<real>, p: seq<nat>,
              used: seq<bool>, j0: nat, way0: seq<nat>, minv0: seq<real>, inf: real)
    returns (way: seq<nat>, minv: seq<real>, delta: real, j1: int)
    requires Ready(t, p, g) && t.m == m && t.a == a && t.inf == inf && g.next == j0
    requires g.u == u && g.v == v && g.way == way0 && g.minv == minv0 && used == g.used[j0 := true]
    ensures way == ScanWay(t, p, g) && minv == ScanMinv(t, p, g)
    ensures (delta, j1) == Closest(used, minv, inf, m)
  {
    hide Closest, ScanWay, ScanMinv, Improves, Look;
    ScanEntries(t, p, g);
    way, minv := way0, minv0;
    delta, j1 := inf, -1;
    var i0 := p[j0];
    ghost var done := ScanMinv(t, p, g);
    ClosestStep(used, done, inf, 0);
    for j := 1 to m + 1
      invariant |way| == |minv| == m + 1
      invariant forall k :: 0 <= k <= m ==>
                  way[k] == (if k < j then ScanWay(t, p, g)[k] else way0[k]) && minv[k] == if k < j then done[k] else minv0[k]
      invariant (delta, j1) == Closest(used, done, inf, j - 1)
    {
      ClosestStep(used, done, inf, j);
      if !used[j] {
        var cur := a[i0][j] - u[i0] - v[j];
        if cur < minv[j] {
          minv, way := minv[j := cur], way[j := j0];
        }
        if minv[j] < delta {
          delta, j1 := minv[j], j;
        }
      }
    }
  }

  lemma ScanEntries(t: Problem, p: seq<nat>, g: Growth)
    requires Ready(t, p, g)
    ensures |ScanWay(t, p, g)| == |ScanMinv(t, p, g)| == t.m + 1
    ensures forall j :: 0 <= j <= t.m ==>
              var cur := t.a[p[g.next]][j] - g.u[p[g.next]] - g.v[j];
              if 1 <= j && j != g.next && !g.used[j] && cur < g.minv[j]
              then ScanWay(t, p, g)[j] == g.next && ScanMinv(t, p, g)[j] == cur
              else ScanWay(t, p, g)[j] == g.way[j] && ScanMinv(t, p, g)[j] == g.minv[j]
  {
  }

  lemma ClosestStep(used: seq<bool>, minv: seq<real>, inf: real, k: nat)
    requires |used| == |minv| && k < |used|
    ensures Closest(used, minv, inf, k) ==
              if k == 0 then (inf, -1)
              else if !used[k] && minv[k] < Closest(used, minv, inf, k - 1).0 then (minv[k], k)
              else Closest(used, minv, inf, k - 1)
  {
  }

  method Shift(m: nat, p: seq<nat>, used: seq<bool>, delta: real, u: seq<real>, v: seq<real>, minv: seq<real>)
    returns (u': seq<real>, v': seq<real>, minv': seq<real>)
    requires |p| == |used| == |v| == |minv| == m + 1 && forall j :: 0 <= j <= m ==> p[j] < |u|
    ensures u' == Raised(u, p, used, delta, m + 1) && v' == Lowered(v, used, delta) && minv' == Nearer(minv, used, delta)
  {
    u', v', minv' := u, v, minv;
    for j := 0 to m + 1
      invariant u' == Raised(u, p, used, delta, j) && |v'| == |minv'| == m + 1
      invariant forall k :: 0 <= k <= m ==> v'[k] == if k < j then Lowered(v, used, delta)[k] else v[k]
      invariant forall k :: 0 <= k <= m ==> minv'[k] == if k < j then Nearer(minv, used, delta)[k] else minv[k]
    {
      if used[j] {
        u' := u'[p[j] := u'[p[j]] + delta];
        v' := v'[j := v'[j] - delta];
      } else {
        minv' := minv'[j := minv'[j] - delta];
      }
    }
  }

  /** The loop that grows the tree of row i until the nearest column is free. It gives up when no column is nearer
      than inf. */
  method GrowTree(ghost t: Problem, ghost s: Search, m: nat, a: seq<seq<real>>, u0: seq<real>, v0: seq<real>,
                  p: seq<nat>, way0: seq<nat>, inf: real)
    returns (ok: bool, u: seq<real>, v: seq<real>, way: seq<nat>, j0: nat)
    requires t.m == m && t.a == a && t.inf == inf && s.u == u0 && s.v == v0 && s.way == way0
    requires Fits(t, s.(p := p))
    ensures Ready(t, p, Enter(t, s))
    ensures var r := Grow(t, p, Enter(t, s));
            u == r.u && v == r.v && way == r.way && ok == (r.next != -1) && (ok ==> j0 == r.next)
  {
    hide Step, Grow, Closest, Raised, Ready, Columns;
    u, v, way, j0 := u0, v0, way0, 0;
    var minv, used := seq(m + 1, _ => inf), seq(m + 1, _ => false);
    ghost var g := Enter(t, s);
    EnterReady(t, s, p);
    while true
      invariant g == Growth(u, v, way, minv, used, j0) && Ready(t, p, g)
      invariant Grow(t, p, g) == Grow(t, p, Enter(t, s))
      decreases Unseen(used)
    {
      GrowStep(t, p, g);
      StepParts(t, p, g);
      used := used[j0 := true];
      var delta, j1;
      way, minv, delta, j1 := Scan(t, g, m, a, u, v, p, used, j0, way, minv, inf);
      u, v, minv := Shift(m, p, used, delta, u, v, minv);
      g := Step(t, p, g);
      if j1 < 0 { return false, u, v, way, j0; }
      j0 := j1;
      if p[j0] == 0 { break; }
    }
    ok := true;
  }

  lemma EnterReady(t: Problem, s: Search, p: seq<nat>)
    requires Fits(t, s.(p := p))
    ensures Ready(t, p, Enter(t, s)) && Enter(t, s) == Growth(s.u, s.v, s.way, seq(t.m + 1, _ => t.inf), seq(t.m + 1, _ => false), 0)
    ensures |p| == t.m + 1
  {
  }

  lemma GrowStep(t: Problem, p: seq<nat>, g: Growth)
    requires Ready(t, p, g)
    ensures var h := Step(t, p, g);
            && |h.u| == t.n + 1 && |g.used| == |p| == |g.v| == t.m + 1 && 0 <= g.next <= t.m
            && Unseen(h.used) < Unseen(g.used) && (h.next != -1 ==> Ready(t, p, h) && 0 <= h.next <= t.m)
            && Grow(t, p, g) == (if h.next == -1 || p[h.next] == 0 then h else Grow(t, p, h))
            && (forall j :: 0 <= j <= t.m ==> p[j] < |g.u|)
            && h.v == Lowered(g.v, h.used, Closest(h.used, ScanMinv(t, p, g), t.inf, t.m).0)
            && h.minv == Nearer(ScanMinv(t, p, g), h.used, Closest(h.used, ScanMinv(t, p, g), t.inf, t.m).0)
  {
    hide Closest, Raised, ScanMinv, ScanWay, Lowered, Nearer;
  }

  /** Moves every row on the path one column on; the sentinel's row, the new one, enters the assignment. */
  method Unwind(m: nat, p0: seq<nat>, way: seq<nat>, start: nat, ghost q: seq<nat>, ghost depth: seq<nat>)
    returns (p: seq<nat>)
    requires |p0| == m + 1 && 1 <= start <= m && Rooted(way, q, depth, m) && forall j :: 0 <= j < |way| ==> way[j] < |p0|
    ensures p == Unwound(p0, way, start, m + 1)
  {
    hide Lower;
    p := p0;
    var j0 := start;
    ghost var steps := m + 1;
    LowerBounded(depth, start);
    while j0 != 0
      invariant |p| == m + 1 && j0 <= m && |Lower(depth, j0)| <= steps
      invariant Unwound(p, way, j0, steps) == Unwound(p0, way, start, m + 1)
      decreases steps
    {
      var j1 := way[j0];
      LowerShrinks(depth, j0, j1);
      p := p[j0 := p[j1]];
      j0, steps := j1, steps - 1;
    }
  }

  /** One pass of the outer loop: row i joins the assignment, or no column is nearer than inf. */
  method AugmentRow(ghost t: Problem, ghost s: Search, ghost q: seq<nat>, ghost depth: seq<nat>, i: nat, m: nat,
                    a: seq<seq<real>>, u0: seq<real>, v0: seq<real>, p0: seq<nat>, way0: seq<nat>, inf: real)
    returns (ok: bool, u: seq<real>, v: seq<real>, p: seq<nat>, way: seq<nat>)
    requires t.m == m && t.a == a && t.inf == inf && 1 <= i <= t.n && s == Search(u0, v0, p0, way0) && Fits(t, s)
    requires Augment(t, s, i).Some? ==> Kept(t, Augment(t, s, i).value, q, depth, i)
    ensures Augment(t, s, i) == if ok then Some(Search(u, v, p, way)) else None
  {
    hide Kept, Grow, Unwound, Rooted, Enter, Ready, Fits;
    EnterFits(t, s, i);
    p := p0[0 := i];
    var j0;
    ok, u, v, way, j0 := GrowTree(t, s, m, a, u0, v0, p, way0, inf);
    if !ok { return; }
    ghost var r := Augment(t, s, i).value;
    KeptRooted(t, r, q, depth, i);
    p := Unwind(m, p, way, j0, r.p, depth);
  }

  lemma EnterFits(t: Problem, s: Search, i: nat)
    requires 1 <= i <= t.n && Fits(t, s)
    ensures Fits(t, s.(p := s.p[0 := i])) && |s.p| == t.m + 1
  {
  }

  lemma KeptRooted(t: Problem, s: Search, q: seq<nat>, depth: seq<nat>, i: nat)
    requires Kept(t, s, q, depth, i)
    ensures Rooted(s.way, s.p, depth, t.m) && |s.way| == t.m + 1 && forall j :: 0 <= j < |s.way| ==> s.way[j] <= t.m
  {
  }

  /** The outer loop over the rows. */
  method AssignRows(ghost t: Problem, n: nat, m: nat, a: seq<seq<real>>, inf: real)
    returns (ok: bool, p: seq<nat>)
    requires t == Problem(a, n, m, inf) && t.Sized() && 0.0 < inf
    ensures var r := Rows(t, n); ok == r.Some? && (ok ==> p == r.value.p)
  {
    hide Kept, Augment, Fits, AllTight;
    var u, v := seq(n + 1, _ => 0.0), seq(m + 1, _ => 0.0);
    var way := seq(m + 1, _ => 0);
    p := seq(m + 1, _ => 0);
    ghost var q, depth := InitialKept(t);
    for i := 1 to n + 1
      invariant Rows(t, i - 1) == Some(Search(u, v, p, way)) && Kept(t, Search(u, v, p, way), q, depth, i - 1)
    {
      ghost var s := Search(u, v, p, way);
      q, depth := AugmentKeeps(t, s, q, depth, i);
      ok, u, v, p, way := AugmentRow(t, s, q, depth, i, m, a, u, v, p, way, inf);
      if !ok {
        RefusedStays(t, i, n);
        return;
      }
    }
    ok := true;
  }

  lemma {:induction false} RefusedStays(t: Problem, k: nat, n: nat)
    requires t.Sized() && k <= n <= t.n && Rows(t, k).None?
    ensures Rows(t, n).None?
  {
    hide Augment, Initial;
    if k < n {
      RefusedStays(t, k, n - 1);
    }
  }

  // ------------------------------------------------------------------------------------- optimality

  /** A cost entry as the source reads it: a double that may be infinite or not a number. */
  datatype Double = Finite(value: real) | NotFinite

  type Matrix = seq<seq<Double>>

  ghost predicate Rectangular(cost: Matrix, m: nat) {
    forall i :: 0 <= i < |cost| ==> |cost[i]| == m && forall j :: 0 <= j < m ==> cost[i][j].Finite?
  }

  /** Distinct columns for all rows. */
  ghost predicate IsAssignment(cols: seq<int>, n: nat, m: nat) {
    && |cols| == n
    && (forall i :: 0 <= i < n ==> 0 <= cols[i] < m)
    && (forall i, k :: 0 <= i < k < n ==> cols[i] != cols[k])
  }

  /** The cost of the first k rows under an assignment; a row without a column costs nothing. */
  function Total(cost: Matrix, cols: seq<int>, k: nat): real
    requires k <= |cols| <= |cost|
    requires forall i :: 0 <= i < k ==> cols[i] < |cost[i]| && (cols[i] >= 0 ==> cost[i][cols[i]].Finite?)
  {
    if k == 0 then 0.0
    else Total(cost, cols, k - 1) + if cols[k - 1] >= 0 then cost[k - 1][cols[k - 1]].value else 0.0
  }

  ghost function RowPotentials(u: seq<real>, k: nat): real
    requires k < |u|
  {
    if k == 0 then 0.0 else RowPotentials(u, k - 1) + u[k]
  }

  /** The prices of the columns of a set among the first k. */
  ghost function Prices(v: seq<real>, s: set<nat>, k: nat): real
    requires k < |v|
  {
    if k == 0 then 0.0 else Prices(v, s, k - 1) + if k in s then v[k] else 0.0
  }

  lemma {:induction false} PricesInsert(v: seq<real>, s: set<nat>, x: nat, k: nat)
    requires k < |v| && x !in s && x != 0
    ensures Prices(v, s + {x}, k) == Prices(v, s, k) + if x <= k then v[x] else 0.0
  {
    if k > 0 {
      PricesInsert(v, s, x, k - 1);
    }
  }

  /** Leaving out columns never lowers the sum of non-positive prices, and leaving out free ones keeps it. */
  lemma {:induction false} PricesSubset(v: seq<real>, s: set<nat>, t: set<nat>, k: nat)
    requires k < |v| && s <= t && forall j :: 1 <= j <= k ==> v[j] <= 0.0
    ensures Prices(v, s, k) >= Prices(v, t, k)
    ensures (forall j :: 1 <= j <= k && j in t && j !in s ==> v[j] == 0.0) ==> Prices(v, s, k) == Prices(v, t, k)
  {
    if k > 0 {
      PricesSubset(v, s, t, k - 1);
    }
  }

  /** The columns (1-indexed) of the first k rows. */
  ghost function Image(cols: seq<int>, k: nat): set<nat>
    requires k <= |cols| && forall i :: 0 <= i < |cols| ==> 0 <= cols[i]
  {
    if k == 0 then {} else Image(cols, k - 1) + {cols[k - 1] + 1}
  }

  lemma {:induction false} InImage(cols: seq<int>, k: nat, x: nat)
    requires k <= |cols| && forall i :: 0 <= i < |cols| ==> 0 <= cols[i]
    ensures x in Image(cols, k) <==> exists i :: 0 <= i < k && cols[i] + 1 == x
  {
    if k > 0 {
      InImage(cols, k - 1, x);
    }
  }

  /** s holds a 1-indexed copy of the cost matrix. */
  ghost predicate CopyOf(s: State, cost: Matrix) {
    && s.Sized() && |cost| == s.n && Rectangular(cost, s.m)
    && forall r, j :: 1 <= r <= s.n && 1 <= j <= s.m ==> s.a[r][j] == cost[r - 1][j - 1].value
  }

  /** Weak duality, row by row: an assignment costs at least its potentials, exactly so when its edges are tight. */
  lemma {:induction false} DualBound(s: State, cost: Matrix, cols: seq<int>, k: nat)
    requires CopyOf(s, cost) && s.Feasible(s.n) && IsAssignment(cols, s.n, s.m) && k <= s.n
    ensures Total(cost, cols, k) >= RowPotentials(s.u, k) + Prices(s.v, Image(cols, k), s.m)
    ensures (forall i :: 0 <= i < k ==> s.Slack(i + 1, cols[i] + 1) == 0.0) ==>
              Total(cost, cols, k) == RowPotentials(s.u, k) + Prices(s.v, Image(cols, k), s.m)
  {
    if k == 0 {
      EmptyPrices(s.v, s.m);
    } else {
      DualBound(s, cost, cols, k - 1);
      var x := cols[k - 1] + 1;
      InImage(cols, k - 1, x);
      PricesInsert(s.v, Image(cols, k - 1), x, s.m);
      assert s.Slack(k, x) >= 0.0;
      assert s.a[k][x] == cost[k - 1][cols[k - 1]].value;
    }
  }

  lemma {:induction false} EmptyPrices(v: seq<real>, k: nat)
    requires k < |v|
    ensures Prices(v, {}, k) == 0.0
  {
    if k > 0 {
      EmptyPrices(v, k - 1);
    }
  }

  /** Complementary slackness: the assignment read off the final state costs no more than any other. */
  lemma Optimal(s: State, cost: Matrix, cols: seq<int>, other: seq<int>)
    requires CopyOf(s, cost) && s.Assigned(s.n) && s.Tight()
    requires IsAssignment(cols, s.n, s.m) && IsAssignment(other, s.n, s.m)
    requires forall r :: 1 <= r <= s.n ==> cols[r - 1] == s.q[r] - 1
    ensures Total(cost, cols, s.n) <= Total(cost, other, s.n)
  {
    hide Prices, Image, Total, RowPotentials;
    forall i | 0 <= i < s.n ensures s.Slack(i + 1, cols[i] + 1) == 0.0 {
      assert s.p[s.q[i + 1]] == i + 1;
    }
    DualBound(s, cost, cols, s.n);
    DualBound(s, cost, other, s.n);
    PriceOfMatched(s, cols);
    PriceAtLeast(s, other);
  }

  /** Prices are never positive, so the columns of any assignment carry no less than all of them. */
  lemma PriceAtLeast(s: State, other: seq<int>)
    requires s.Sized() && s.Priced() && IsAssignment(other, s.n, s.m)
    ensures Prices(s.v, Image(other, s.n), s.m) >= Prices(s.v, Below(s.m + 1), s.m)
  {
    ImageBelow(other, s.n, s.m);
    PricesSubset(s.v, Image(other, s.n), Below(s.m + 1), s.m);
  }

  /** Only matched columns have a price, so they carry all of it. */
  lemma PriceOfMatched(s: State, cols: seq<int>)
    requires s.Sized() && s.Assigned(s.n) && IsAssignment(cols, s.n, s.m)
    requires forall r :: 1 <= r <= s.n ==> cols[r - 1] == s.q[r] - 1
    ensures Prices(s.v, Image(cols, s.n), s.m) == Prices(s.v, Below(s.m + 1), s.m)
  {
    hide Prices;
    ImageBelow(cols, s.n, s.m);
    forall j: nat | 1 <= j <= s.m && s.p[j] != 0 ensures j in Image(cols, s.n) {
      InImage(cols, s.n, j);
      assert cols[s.p[j] - 1] + 1 == j;
    }
    PricesSubset(s.v, Image(cols, s.n), Below(s.m + 1), s.m);
  }

  lemma OptimalAmongAll(s: State, cost: Matrix, cols: seq<int>)
    requires CopyOf(s, cost) && s.Assigned(s.n) && s.Tight() && IsAssignment(cols, s.n, s.m)
    requires forall r :: 1 <= r <= s.n ==> cols[r - 1] == s.q[r] - 1
    ensures forall other :: IsAssignment(other, s.n, s.m) ==> Total(cost, cols, s.n) <= Total(cost, other, s.n)
  {
    forall other | IsAssignment(other, s.n, s.m) ensures Total(cost, cols, s.n) <= Total(cost, other, s.n) {
      Optimal(s, cost, cols, other);
    }
  }

  lemma {:induction false} ImageBelow(cols: seq<int>, k: nat, m: nat)
    requires k <= |cols| && forall i :: 0 <= i < |cols| ==> 0 <= cols[i] < m
    ensures Image(cols, k) <= Below(m + 1)
  {
    if k > 0 {
      ImageBelow(cols, k - 1, m);
    }
  }

  // ---------------------------------------------------------------------------------- the whole run

  datatype Status = Ok | EmptyInput | Ragged | MoreRowsThanCols | NonFiniteCost

  datatype Assignment = Assignment(rowToCol: seq<int>, totalCost: real, status: Status)

  /** What is wrong with a single row, if anything. */
  function RowProblem(row: seq<Double>, m: nat): Status {
    if |row| != m then Ragged
    else if exists j :: 0 <= j < m && row[j].NotFinite? then NonFiniteCost
    else Ok
  }

  /** The first problem of the rows from k on. */
  function RowsProblem(cost: Matrix, m: nat, k: nat): Status
    requires k <= |cost|
    decreases |cost| - k
  {
    if k == |cost| then Ok
    else if RowProblem(cost[k], m) != Ok then RowProblem(cost[k], m)
    else RowsProblem(cost, m, k + 1)
  }

  lemma {:induction false} NoProblemMeansRectangular(cost: Matrix, m: nat, k: nat)
    requires k <= |cost|
    ensures RowsProblem(cost, m, k) == Ok <==> Rectangular(cost[k..], m)
    decreases |cost| - k
  {
    if k < |cost| {
      NoProblemMeansRectangular(cost, m, k + 1);
      assert cost[k..][0] == cost[k] && cost[k..][1..] == cost[k + 1..];
    }
  }

  /** The verdict on the shape of the input. */
  function Diagnosis(cost: Matrix): Status {
    if cost == [] then EmptyInput
    else if cost[0] == [] then Ragged
    else if RowsProblem(cost, |cost[0]|, 0) != Ok then RowsProblem(cost, |cost[0]|, 0)
    else if |cost[0]| < |cost| then MoreRowsThanCols
    else Ok
  }

  /** Rows before i have the right length and finite entries only. */
  ghost predicate SoundBefore(cost: Matrix, m: nat, i: nat) {
    i <= |cost| && forall k :: 0 <= k < i ==> |cost[k]| == m && forall j :: 0 <= j < m ==> cost[k][j].Finite?
  }

  /** The first faulty row has another length. */
  ghost predicate FirstFaultIsLength(cost: Matrix, m: nat) {
    exists i: nat :: i < |cost| && SoundBefore(cost, m, i) && |cost[i]| != m
  }

  /** The first faulty row has the right length and an entry that is not finite. */
  ghost predicate FirstFaultIsEntry(cost: Matrix, m: nat) {
    exists i: nat :: i < |cost| && SoundBefore(cost, m, i) && |cost[i]| == m && exists j :: 0 <= j < m && cost[i][j].NotFinite?
  }

  lemma {:induction false} FirstFault(cost: Matrix, m: nat, k: nat)
    requires SoundBefore(cost, m, k)
    ensures RowsProblem(cost, m, k) == Ragged <==> FirstFaultIsLength(cost, m)
    ensures RowsProblem(cost, m, k) == NonFiniteCost <==> FirstFaultIsEntry(cost, m)
    ensures RowsProblem(cost, m, k) == Ok <==> SoundBefore(cost, m, |cost|)
    ensures RowsProblem(cost, m, k) in {Ragged, NonFiniteCost, Ok}
    decreases |cost| - k
  {
    if k < |cost| {
      if RowProblem(cost[k], m) == Ok {
        assert SoundBefore(cost, m, k + 1);
        FirstFault(cost, m, k + 1);
      } else {
        assert forall i: nat :: k < i <= |cost| ==> !SoundBefore(cost, m, i);
      }
    }
  }

  /** Each status by its own condition. */
  lemma DiagnosisExact(cost: Matrix)
    ensures Diagnosis(cost) == EmptyInput <==> cost == []
    ensures Diagnosis(cost) == Ragged <==> cost != [] && (cost[0] == [] || FirstFaultIsLength(cost, |cost[0]|))
    ensures Diagnosis(cost) == NonFiniteCost <==> cost != [] && cost[0] != [] && FirstFaultIsEntry(cost, |cost[0]|)
    ensures Diagnosis(cost) == MoreRowsThanCols <==>
            cost != [] && cost[0] != [] && Rectangular(cost, |cost[0]|) && |cost[0]| < |cost|
    ensures Diagnosis(cost) == Ok <==> cost != [] && Rectangular(cost, |cost[0]|) && |cost| <= |cost[0]|
  {
    hide RowsProblem, FirstFaultIsLength, FirstFaultIsEntry;
    if cost != [] {
      FirstFault(cost, |cost[0]|, 0);
    }
  }

  method Validate(cost: Matrix) returns (status: Status)
    ensures status == Diagnosis(cost)
    ensures status == Ok <==> cost != [] && |cost| <= |cost[0]| && Rectangular(cost, |cost[0]|)
    ensures status == Ragged <==> cost != [] && (cost[0] == [] || FirstFaultIsLength(cost, |cost[0]|))
    ensures status == NonFiniteCost <==> cost != [] && cost[0] != [] && FirstFaultIsEntry(cost, |cost[0]|)
  {
    DiagnosisExact(cost);
    hide FirstFaultIsLength, FirstFaultIsEntry;
    if |cost| == 0 { return EmptyInput; }
    var m := |cost[0]|;
    NoProblemMeansRectangular(cost, m, 0);
    assert cost[0..] == cost;
    if m == 0 { return Ragged; }
    for i := 0 to |cost|
      invariant RowsProblem(cost, m, 0) == RowsProblem(cost, m, i)
    {
      if |cost[i]| != m { return Ragged; }
      for j := 0 to m
        invariant forall k :: 0 <= k < j ==> cost[i][k].Finite?
      {
        if cost[i][j].NotFinite? { return NonFiniteCost; }
      }
    }
    if m < |cost| { return MoreRowsThanCols; }
    return Ok;
  }

  method CopyShifted(cost: Matrix, n: nat, m: nat) returns (a: seq<seq<real>>)
    requires |cost| == n && Rectangular(cost, m)
    ensures |a| == n + 1 && forall r :: 0 <= r <= n ==> |a[r]| == m + 1
    ensures forall r, j :: 0 <= r <= n && 0 <= j <= m ==>
              a[r][j] == if r > 0 && j > 0 then cost[r - 1][j - 1].value else 0.0
  {
    a := seq(n + 1, _ => seq(m + 1, _ => 0.0));
    for i := 1 to n + 1
      invariant |a| == n + 1 && forall r :: 0 <= r <= n ==> |a[r]| == m + 1
      invariant forall r, j :: 0 <= r <= n && 0 <= j <= m ==>
                  a[r][j] == if 0 < r < i && j > 0 then cost[r - 1][j - 1].value else 0.0
    {
      ghost var before := a;
      for j := 1 to m + 1
        invariant |a| == n + 1 && forall r :: 0 <= r <= n ==> |a[r]| == m + 1
        invariant forall r :: 0 <= r <= n && r != i ==> a[r] == before[r]
        invariant forall k :: 0 <= k <= m ==> a[i][k] == if 0 < k < j then cost[i - 1][k - 1].value else 0.0
      {
        a := a[i := a[i][j := cost[i - 1][j - 1].value]];
      }
    }
  }

  lemma PairedRows(s: State, i: nat)
    requires s.Sized() && i <= s.n && s.Paired(i, 1)
    ensures |s.q| == s.n + 1 && |s.p| == s.m + 1 && forall r :: 1 <= r <= i ==> 1 <= s.q[r] <= s.m && s.p[s.q[r]] == r
  {
  }

  lemma PairedColumn(s: State, i: nat, j: nat)
    requires s.Sized() && i <= s.n && s.Paired(i, 1) && 1 <= j <= s.m && |s.q| == s.n + 1 && |s.p| == s.m + 1
    ensures s.p[j] != 0 ==> s.p[j] <= i && s.q[s.p[j]] == j
    ensures forall r :: 1 <= r <= i && s.q[r] == j ==> s.p[j] == r
  {
  }

  lemma DistinctColumns(s: State, n: nat, cols: seq<int>)
    requires s.Sized() && n == s.n && s.Paired(n, 1) && |cols| == n && |s.q| == n + 1
    requires forall r :: 1 <= r <= n ==> cols[r - 1] == s.q[r] - 1
    ensures IsAssignment(cols, n, s.m)
  {
    hide State.Sized, State.Paired;
    PairedRows(s, n);
    forall i | 0 <= i < n ensures 0 <= cols[i] < s.m && s.p[cols[i] + 1] == i + 1 {
      assert cols[i + 1 - 1] == s.q[i + 1] - 1;
    }
  }

  // ------------------------------------------------------------------------------------- the answer

  /** The padded copy of a cost matrix. */
  function ProblemOf(cost: Matrix, inf: real): (t: Problem)
    requires Diagnosis(cost) == Ok
    ensures t.Sized() && t.n == |cost| && t.m == |cost[0]| && t.inf == inf
  {
    var m := |cost[0]|;
    OkMeans(cost);
    Problem(seq(|cost| + 1, r requires 0 <= r <= |cost| =>
                  seq(m + 1, j requires 0 <= j <= m => if r > 0 && j > 0 then cost[r - 1][j - 1].value else 0.0)),
            |cost|, m, inf)
  }

  lemma SamePadding(cost: Matrix, inf: real, a: seq<seq<real>>)
    requires Diagnosis(cost) == Ok && |a| == |cost| + 1 && forall r :: 0 <= r <= |cost| ==> |a[r]| == |cost[0]| + 1
    requires Rectangular(cost, |cost[0]|)
    requires forall r, j :: 0 <= r <= |cost| && 0 <= j <= |cost[0]| ==>
               a[r][j] == if r > 0 && j > 0 then cost[r - 1][j - 1].value else 0.0
    ensures a == ProblemOf(cost, inf).a
  {
    var b := ProblemOf(cost, inf).a;
    forall r | 0 <= r <= |cost| ensures a[r] == b[r] {
    }
  }

  lemma OkMeans(cost: Matrix)
    requires Diagnosis(cost) == Ok
    ensures cost != [] && |cost| <= |cost[0]| && Rectangular(cost, |cost[0]|)
  {
    NoProblemMeansRectangular(cost, |cost[0]|, 0);
    assert cost[0..] == cost;
  }

  /** The columns of the rows, read off the first k columns. */
  function ColumnsOf(p: seq<nat>, n: nat, k: nat): (cols: seq<int>)
    requires k < |p|
    ensures |cols| == n && forall i :: 0 <= i < n ==> -1 <= cols[i] < k
  {
    if k == 0 then seq(n, _ => -1)
    else
      var c := ColumnsOf(p, n, k - 1);
      if 1 <= p[k] <= n then c[p[k] - 1 := k - 1] else c
  }

  /** What the method answers, on every input. */
  function Answer(cost: Matrix, inf: real): Assignment {
    if Diagnosis(cost) != Ok then Assignment([], 0.0, Diagnosis(cost))
    else
      OkMeans(cost);
      var n, m := |cost|, |cost[0]|;
      var r := Rows(ProblemOf(cost, inf), n);
      if r.None? then Assignment([], 0.0, NonFiniteCost)
      else
        var cols := ColumnsOf(r.value.p, n, m);
        Assignment(cols, Total(cost, cols, n), Ok)
  }

  /** A result is right when every row has its own column and no other such assignment is cheaper. */
  ghost predicate RightAnswer(cost: Matrix, result: Assignment)
    requires Diagnosis(cost) == Ok
  {
    OkMeans(cost);
    && result.status == Ok && IsAssignment(result.rowToCol, |cost|, |cost[0]|)
    && result.totalCost == Total(cost, result.rowToCol, |cost|)
    && forall other :: IsAssignment(other, |cost|, |cost[0]|) ==> result.totalCost <= Total(cost, other, |cost|)
  }

  /** The entries of a row below inf and less than inf above every other. */
  ghost function CheapEntries(row: seq<Double>, inf: real): set<nat> {
    set j: nat | j < |row| && row[j].Finite? && row[j].value < inf
                 && forall k :: 0 <= k < |row| && row[k].Finite? ==> row[j].value - row[k].value < inf
  }

  /** Each row has a cheap entry more than there are rows before it. */
  ghost predicate Generous(cost: Matrix, inf: real) {
    forall i :: 0 <= i < |cost| ==> |CheapEntries(cost[i], inf)| > i
  }

  lemma GenerousRow(cost: Matrix, inf: real, i: nat)
    requires Diagnosis(cost) == Ok && Generous(cost, inf) && 1 <= i <= |cost|
    ensures AssignmentRows.Generous(ProblemOf(cost, inf), i)
  {
    OkMeans(cost);
    var t, row := ProblemOf(cost, inf), cost[i - 1];
    var cheap := CheapEntries(row, inf);
    forall j | j in cheap ensures j + 1 in Cheap(t, i) {
      forall k | 1 <= k <= t.m ensures t.a[i][j + 1] - t.a[i][k] < t.inf {
        assert row[k - 1].Finite?;
      }
    }
    InjectionSize(cheap, Cheap(t, i), map j | j in cheap :: j + 1);
  }

  /** The columns read off a pairing give each row its own. */
  lemma {:induction false} ColumnsRead(s: State, k: nat)
    requires s.Sized() && s.Paired(s.n, 1) && k <= s.m
    ensures var cols := ColumnsOf(s.p, s.n, k);
            forall r :: 1 <= r <= s.n ==> cols[r - 1] == if s.q[r] <= k then s.q[r] - 1 else -1
  {
    hide State.Paired, State.Sized;
    PairedRows(s, s.n);
    if k > 0 {
      ColumnsRead(s, k - 1);
      PairedColumn(s, s.n, k);
    }
  }

  /** On every input without a fault the method answers: it refuses, or gives each row its own column. */
  lemma AnswerIsAssignment(cost: Matrix, inf: real)
    requires Diagnosis(cost) == Ok && 0.0 < inf
    ensures var r := Answer(cost, inf);
            r == Assignment([], 0.0, NonFiniteCost) || (r.status == Ok && IsAssignment(r.rowToCol, |cost|, |cost[0]|))
  {
    hide Rows, IsAssignment;
    var t := ProblemOf(cost, inf);
    var q, depth := RowsKeep(t, t.n);
    var r := Rows(t, t.n);
    if r.Some? {
      var s := StateOf(t, r.value.u, r.value.v, r.value.p, q);
      ColumnsRead(s, t.m);
      PairedRows(s, t.n);
      DistinctColumns(s, t.n, ColumnsOf(s.p, t.n, t.m));
    }
  }

  /** Where every row has enough cheap entries the answer is right. */
  lemma AnswerIsRight(cost: Matrix, inf: real)
    requires Diagnosis(cost) == Ok && 0.0 < inf && Generous(cost, inf)
    ensures RightAnswer(cost, Answer(cost, inf))
  {
    hide Rows, IsAssignment, Total, Rectangular, Generous, AssignmentRows.Generous;
    OkMeans(cost);
    var t := ProblemOf(cost, inf);
    var q, depth := RowsKeep(t, t.n);
    forall i: nat | 1 <= i <= t.n ensures AssignmentRows.Generous(t, i) {
      GenerousRow(cost, inf, i);
    }
    var r := Rows(t, t.n).value;
    var s := StateOf(t, r.u, r.v, r.p, q);
    ColumnsRead(s, t.m);
    PairedRows(s, t.n);
    var cols := ColumnsOf(s.p, t.n, t.m);
    DistinctColumns(s, t.n, cols);
    ProblemCopies(cost, inf, s);
    OptimalAmongAll(s, cost, cols);
  }

  lemma ProblemCopies(cost: Matrix, inf: real, s: State)
    requires Diagnosis(cost) == Ok && s.Sized() && s.a == ProblemOf(cost, inf).a && s.n == |cost| && s.m == |cost[0]|
    ensures CopyOf(s, cost)
  {
    OkMeans(cost);
  }

  /** Reads the row of every matched column. */
  method ReadAssignment(n: nat, m: nat, p: seq<nat>) returns (cols: seq<int>)
    requires |p| == m + 1 && forall j :: 0 <= j <= m ==> p[j] <= n
    ensures cols == ColumnsOf(p, n, m)
  {
    cols := seq(n, _ => -1);
    for j := 1 to m + 1
      invariant cols == ColumnsOf(p, n, j - 1)
    {
      if p[j] != 0 {
        cols := cols[p[j] - 1 := j - 1];
      }
    }
  }

  method SumAssignment(cost: Matrix, cols: seq<int>, n: nat, m: nat) returns (total: real)
    requires |cost| == n == |cols| && Rectangular(cost, m) && forall i :: 0 <= i < n ==> cols[i] < m
    ensures total == Total(cost, cols, n)
  {
    total := 0.0;
    for i := 0 to n
      invariant total == Total(cost, cols, i)
    {
      if cols[i] >= 0 {
        total := total + cost[i][cols[i]].value;
      }
    }
  }

  /**
   Minimum-cost assignment. Malformed input is refused with its diagnosis. Otherwise the method refuses the costs as
   not finite, or gives every row its own column with the total; where every row has enough entries that are cheap
   against INF, it answers, and no other assignment is cheaper.
   */
  method Hungarian(cost: Matrix) returns (result: Assignment)
    ensures result == Answer(cost, INF)
    ensures Diagnosis(cost) != Ok ==> result == Assignment([], 0.0, Diagnosis(cost))
    ensures Diagnosis(cost) == Ok ==>
              result == Assignment([], 0.0, NonFiniteCost)
              || (result.status == Ok && IsAssignment(result.rowToCol, |cost|, |cost[0]|))
    ensures Diagnosis(cost) == Ok && Generous(cost, INF) ==> RightAnswer(cost, result)
  {
    hide Rectangular, Generous, Total, IsAssignment, Diagnosis, INF, Rows, ColumnsOf, RightAnswer, Fits;
    InfPositive();
    var status := Validate(cost);
    if status != Ok { return Assignment([], 0.0, status); }
    AnswerIsAssignment(cost, INF);
    if Generous(cost, INF) {
      AnswerIsRight(cost, INF);
    }
    var n, m := |cost|, |cost[0]|;
    var a := CopyShifted(cost, n, m);
    ghost var t := ProblemOf(cost, INF);
    SamePadding(cost, INF, a);
    var ok, p := AssignRows(t, n, m, a, INF);
    if !ok { return Assignment([], 0.0, NonFiniteCost); }
    FitsRange(t, Rows(t, n).value);
    var cols := ReadAssignment(n, m, p);
    var total := SumAssignment(cost, cols, n, m);
    return Assignment(cols, total, Ok);
  }

  lemma FitsRange(t: Problem, s: Search)
    requires Fits(t, s)
    ensures |s.p| == t.m + 1 && forall j :: 0 <= j <= t.m ==> s.p[j] <= t.n
  {
  }

  lemma InfPositive()
    ensures 0.0 < INF
  {
  }
}
