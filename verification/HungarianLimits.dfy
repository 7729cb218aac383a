/**
 How far the Hungarian method can be trusted when costs come near the value that stands for an unknown distance: the
 exact bound on the costs, and inputs beyond it that are answered wrongly or refused.
 */
module HungarianLimits {
  import opened AssignmentRows
  import opened Counting
  import opened Hungarian
  import opened PotentialSearch
  import opened Wrappers

  // -------------------------------------------------------------------------------------- single visits

  lemma {:induction false} OnlyFirstRaised(u: seq<real>, p: seq<nat>, used: seq<bool>, delta: real, k: nat)
    requires 1 <= k <= |p| == |used| && (forall j :: 0 <= j < |p| ==> p[j] < |u|) && used[0]
    requires forall j :: 1 <= j < |p| ==> !used[j]
    ensures Raised(u, p, used, delta, k) == u[p[0] := u[p[0]] + delta]
  {
    if k > 1 {
      OnlyFirstRaised(u, p, used, delta, k - 1);
    } else {
      assert Raised(u, p, used, delta, 0) == u;
    }
  }

  /** Nothing has lowered a price or raised row i yet. */
  ghost predicate Fresh(t: Problem, s: Search, i: nat) {
    Fits(t, s) && 1 <= i <= t.n && s.u[i] == 0.0 && s.p[0] == i && forall j :: 1 <= j <= t.m ==> s.v[j] == 0.0
  }

  /** The visit to the sentinel of a fresh row chooses its only cheapest column. */
  lemma FirstVisit(t: Problem, s: Search, i: nat, c: nat)
    requires Fresh(t, s, i) && 1 <= c <= t.m && t.a[i][c] < t.inf
    requires forall j :: 1 <= j <= t.m && j != c ==> t.a[i][c] < t.a[i][j]
    ensures Ready(t, s.p, Enter(t, s))
    ensures var r, x := Step(t, s.p, Enter(t, s)), t.a[i][c];
            && r.next == c && r.u == s.u[i := x] && |r.v| == |r.minv| == |r.way| == t.m + 1
            && r.used == seq(t.m + 1, _ => false)[0 := true]
            && forall j :: 1 <= j <= t.m ==>
                 && r.v[j] == 0.0 && r.way[j] == (if t.a[i][j] < t.inf then 0 else s.way[j])
                 && r.minv[j] == (if t.a[i][j] < t.inf then t.a[i][j] else t.inf) - x
  {
    hide Closest, Raised;
    var g := Enter(t, s);
    ScanEntries(t, s.p, g);
    StepParts(t, s.p, g);
    var used, minv := g.used[0 := true], ScanMinv(t, s.p, g);
    var nearest := Closest(used, minv, t.inf, t.m);
    assert nearest == (t.a[i][c], c) by {
      assert minv[c] == t.a[i][c] && !used[c];
    }
    OnlyFirstRaised(g.u, s.p, used, nearest.0, t.m + 1);
  }

  /** The visit to the sentinel of a fresh row without a cost below inf finds nothing. */
  lemma FirstVisitFails(t: Problem, s: Search, i: nat)
    requires Fresh(t, s, i) && forall j :: 1 <= j <= t.m ==> t.a[i][j] >= t.inf
    ensures Ready(t, s.p, Enter(t, s)) && Step(t, s.p, Enter(t, s)).next == -1
  {
    hide Closest, Raised;
    var g := Enter(t, s);
    ScanEntries(t, s.p, g);
    StepParts(t, s.p, g);
  }

  /** A row whose only cheapest column is free takes it. */
  lemma TakesFree(t: Problem, s: Search, i: nat, c: nat)
    requires Fresh(t, s, i) && 1 <= c <= t.m && t.a[i][c] < t.inf && s.p[c] == 0
    requires forall j :: 1 <= j <= t.m && j != c ==> t.a[i][c] < t.a[i][j]
    ensures var r := Augment(t, s, i);
            && r.Some? && r.value.p == s.p[c := i] && r.value.u == s.u[i := t.a[i][c]]
            && (forall j :: 1 <= j <= t.m ==> r.value.v[j] == 0.0)
            && forall j :: 1 <= j <= t.m ==> r.value.way[j] == if t.a[i][j] < t.inf then 0 else s.way[j]
  {
    hide Step;
    FirstVisit(t, s, i, c);
    assert s.p[0 := i] == s.p;
    var g := Step(t, s.p, Enter(t, s));
    assert Unwound(s.p, g.way, c, t.m + 1) == Unwound(s.p[c := s.p[0]], g.way, 0, t.m);
  }

  /** A visit that improves no distance. */
  lemma IdleVisit(t: Problem, p: seq<nat>, g: Growth)
    requires Ready(t, p, g)
    requires forall j :: 1 <= j <= t.m && j != g.next && !g.used[j] ==> t.a[p[g.next]][j] - g.u[p[g.next]] - g.v[j] >= g.minv[j]
    ensures var r, used := Step(t, p, g), g.used[g.next := true];
            && r.way == g.way && |used| == |g.minv| == t.m + 1
            && (r.next == -1 ==> forall j :: 1 <= j <= t.m && !used[j] ==> g.minv[j] >= t.inf)
            && (r.next != -1 ==> 1 <= r.next <= t.m && !used[r.next] && g.minv[r.next] < t.inf)
  {
    hide Closest, Raised;
    ScanEntries(t, p, g);
    StepParts(t, p, g);
    assert ScanMinv(t, p, g) == g.minv && ScanWay(t, p, g) == g.way;
  }

  lemma InitialFresh(t: Problem)
    requires t.Sized() && t.n >= 1
    ensures Rows(t, 0) == Some(Initial(t)) && Fits(t, Initial(t))
    ensures Fresh(t, Initial(t).(p := Initial(t).p[0 := 1]), 1)
  {
  }

  // ---------------------------------------------------------------------------------- a single row

  /** The first row is refused when none of its costs is below inf. */
  lemma FirstRowRefused(cost: Matrix, inf: real)
    requires Diagnosis(cost) == Ok && forall j :: 0 <= j < |cost[0]| && cost[0][j].Finite? ==> cost[0][j].value >= inf
    ensures Answer(cost, inf) == Assignment([], 0.0, NonFiniteCost)
  {
    hide Rows, Step;
    OkMeans(cost);
    var t := ProblemOf(cost, inf);
    InitialFresh(t);
    var s := Initial(t).(p := Initial(t).p[0 := 1]);
    FirstVisitFails(t, s, 1);
    assert Enter(t, Initial(t)) == Enter(t, s);
    assert Augment(t, Initial(t), 1).None?;
    RowsStep(t, 1);
    RefusedStays(t, 1, t.n);
  }

  lemma RowsStep(t: Problem, k: nat)
    requires t.Sized() && 1 <= k <= t.n
    ensures Rows(t, k) == if Rows(t, k - 1).None? then None else Augment(t, Rows(t, k - 1).value, k)
  {
    hide Augment;
  }

  lemma {:induction false} LeastEntry(row: seq<Double>, k: nat) returns (j: nat)
    requires 0 < k <= |row| && forall i :: 0 <= i < |row| ==> row[i].Finite?
    ensures j < k && forall i :: 0 <= i < k ==> row[j].value <= row[i].value
  {
    j := 0;
    if k > 1 {
      j := LeastEntry(row, k - 1);
      if row[k - 1].value < row[j].value {
        j := k - 1;
      }
    }
  }

  /** A matrix of one row is answered rightly exactly when some cost is below inf. */
  lemma SingleRow(cost: Matrix, inf: real)
    requires Diagnosis(cost) == Ok && |cost| == 1 && 0.0 < inf
    ensures RightAnswer(cost, Answer(cost, inf)) <==> exists j :: 0 <= j < |cost[0]| && cost[0][j].value < inf
  {
    hide Answer;
    OkMeans(cost);
    if exists j :: 0 <= j < |cost[0]| && cost[0][j].value < inf {
      var j := LeastEntry(cost[0], |cost[0]|);
      assert j in CheapEntries(cost[0], inf);
      AnswerIsRight(cost, inf);
    } else {
      FirstRowRefused(cost, inf);
    }
  }

  // ------------------------------------------------------------------------------- the exact bound

  /** All costs of an n by m matrix lie between lo and hi. */
  ghost predicate Within(cost: Matrix, n: nat, m: nat, lo: real, hi: real) {
    |cost| == n && Rectangular(cost, m) && forall i, j :: 0 <= i < n && 0 <= j < m ==> lo <= cost[i][j].value <= hi
  }

  lemma WithinIsOk(cost: Matrix, n: nat, m: nat, lo: real, hi: real)
    requires Within(cost, n, m, lo, hi) && 1 <= n <= m
    ensures Diagnosis(cost) == Ok && |cost[0]| == m
  {
    NoProblemMeansRectangular(cost, m, 0);
    assert cost[0..] == cost;
  }

  /** Every row is low in the first column and high in the others. */
  function Stripe(n: nat, m: nat, lo: real, hi: real): (cost: Matrix)
    ensures lo <= hi ==> Within(cost, n, m, lo, hi)
  {
    seq(n, _ => seq(m, j => Finite(if j == 0 then lo else hi)))
  }

  /** Rows one and two want the same column, and row one's way out is inf longer: row two is refused. */
  lemma StripeRefused(n: nat, m: nat, lo: real, hi: real, inf: real)
    requires 2 <= n <= m && lo < hi < inf <= hi - lo && 0.0 < inf
    ensures Diagnosis(Stripe(n, m, lo, hi)) == Ok
    ensures Answer(Stripe(n, m, lo, hi), inf) == Assignment([], 0.0, NonFiniteCost)
  {
    hide Rows, Step, Augment;
    var cost := Stripe(n, m, lo, hi);
    WithinIsOk(cost, n, m, lo, hi);
    var t := ProblemOf(cost, inf);
    InitialFresh(t);
    var s := Initial(t).(p := Initial(t).p[0 := 1]);
    TakesFree(t, s, 1, 1);
    SameEntry(t, Initial(t), 1);
    RowsStep(t, 1);
    var x := Rows(t, 1).value;
    var y := x.(p := x.p[0 := 2]);
    SecondRowBlocked(t, y, lo, hi);
    SameEntry(t, x, 2);
    BlockedMeansNone(t, y, 2);
    RowsStep(t, 2);
    RefusedStays(t, 2, t.n);
  }

  /** A row's search does not depend on what the sentinel held before. */
  lemma SameEntry(t: Problem, s: Search, i: nat)
    requires Fits(t, s) && 1 <= i <= t.n
    ensures Fits(t, s.(p := s.p[0 := i])) && Augment(t, s, i) == Augment(t, s.(p := s.p[0 := i]), i)
  {
    hide Grow, Unwound;
    assert s.p[0 := i][0 := i] == s.p[0 := i];
    assert Enter(t, s) == Enter(t, s.(p := s.p[0 := i]));
  }

  lemma SecondRowBlocked(t: Problem, y: Search, lo: real, hi: real)
    requires Fresh(t, y, 2) && t.m >= 2 && lo < hi < t.inf <= hi - lo && y.p[1] == 1 && y.u[1] == lo
    requires t.a[1][1] == lo && t.a[2][1] == lo && forall j :: 2 <= j <= t.m ==> t.a[1][j] == hi && t.a[2][j] == hi
    ensures var g := Enter(t, y);
            Ready(t, y.p, g) && Step(t, y.p, g).next == 1 && Step(t, y.p, Step(t, y.p, g)).next == -1
  {
    hide Step;
    FirstVisit(t, y, 2, 1);
    IdleVisit(t, y.p, Step(t, y.p, Enter(t, y)));
  }

  lemma BlockedMeansNone(t: Problem, y: Search, i: nat)
    requires Fits(t, y) && 1 <= i <= t.n && y.p[0] == i && t.m >= 1 && y.p[1] != 0
    requires var g := Enter(t, y);
             Ready(t, y.p, g) && Step(t, y.p, g).next == 1 && Step(t, y.p, Step(t, y.p, g)).next == -1
    ensures Augment(t, y, i).None?
  {
    hide Step, Unwound;
    assert y.p[0 := i] == y.p;
    var g := Step(t, y.p, Enter(t, y));
    assert Grow(t, y.p, Enter(t, y)) == Grow(t, y.p, g) == Step(t, y.p, g);
  }

  /** Between bounds below inf and less than inf apart, every entry is cheap. */
  lemma AllCheap(cost: Matrix, n: nat, m: nat, lo: real, hi: real, inf: real)
    requires 1 <= n <= m && Within(cost, n, m, lo, hi) && hi < inf && hi - lo < inf
    ensures Hungarian.Generous(cost, inf)
  {
    forall i | 0 <= i < n ensures |CheapEntries(cost[i], inf)| > i {
      assert CheapEntries(cost[i], inf) == Below(m) by {
        forall j: nat | j < m ensures j in CheapEntries(cost[i], inf) {
        }
      }
    }
  }

  /**
   The exact bound: all n by m matrices with costs between lo and hi are answered rightly if and only if hi is below
   inf and, when there are two rows or more, the bounds are less than inf apart.
   */
  lemma RightWithinBounds(n: nat, m: nat, lo: real, hi: real, inf: real)
    requires 1 <= n <= m && lo <= hi && 0.0 < inf
    ensures (forall cost :: Within(cost, n, m, lo, hi) ==> Diagnosis(cost) == Ok && RightAnswer(cost, Answer(cost, inf)))
            <==> hi < inf && (n == 1 || hi - lo < inf)
  {
    hide RightAnswer, Answer, Within, Diagnosis;
    if hi < inf && (n == 1 || hi - lo < inf) {
      forall cost | Within(cost, n, m, lo, hi) ensures Diagnosis(cost) == Ok && RightAnswer(cost, Answer(cost, inf)) {
        WithinIsOk(cost, n, m, lo, hi);
        WithinIsRight(cost, n, m, lo, hi, inf);
      }
    } else {
      var cost := if hi < inf then Stripe(n, m, lo, hi) else Stripe(n, m, hi, hi);
      StripeWithin(n, m, lo, hi);
      StripeWithin(n, m, hi, hi);
      WithinWider(cost, n, m, lo, hi);
      WithinIsOk(cost, n, m, lo, hi);
      StripeIsWrong(n, m, lo, hi, inf);
    }
  }

  lemma WithinIsRight(cost: Matrix, n: nat, m: nat, lo: real, hi: real, inf: real)
    requires 1 <= n <= m && Within(cost, n, m, lo, hi) && 0.0 < inf && hi < inf && (n == 1 || hi - lo < inf)
    requires Diagnosis(cost) == Ok
    ensures RightAnswer(cost, Answer(cost, inf))
  {
    hide RightAnswer, Answer, Diagnosis;
    if n == 1 {
      assert cost[0][0].value < inf && |cost[0]| == m;
      SingleRow(cost, inf);
    } else {
      AllCheap(cost, n, m, lo, hi, inf);
      AnswerIsRight(cost, inf);
    }
  }

  lemma StripeWithin(n: nat, m: nat, lo: real, hi: real)
    requires lo <= hi
    ensures Within(Stripe(n, m, lo, hi), n, m, lo, hi)
  {
  }

  lemma WithinWider(cost: Matrix, n: nat, m: nat, lo: real, hi: real)
    requires Within(cost, n, m, lo, hi) || (lo <= hi && Within(cost, n, m, hi, hi))
    ensures Within(cost, n, m, lo, hi)
  {
  }

  lemma StripeIsWrong(n: nat, m: nat, lo: real, hi: real, inf: real)
    requires 1 <= n <= m && lo <= hi && 0.0 < inf && !(hi < inf && (n == 1 || hi - lo < inf))
    ensures var cost := if hi < inf then Stripe(n, m, lo, hi) else Stripe(n, m, hi, hi);
            Diagnosis(cost) == Ok && !RightAnswer(cost, Answer(cost, inf))
  {
    hide Answer, Diagnosis;
    if hi < inf {
      StripeRefused(n, m, lo, hi, inf);
    } else {
      var cost := Stripe(n, m, hi, hi);
      WithinIsOk(cost, n, m, hi, hi);
      FirstRowRefused(cost, inf);
    }
  }

  // ------------------------------------------------------------------------------------ two inputs

  /** Half of inf is too much: this matrix of finite costs is refused as not finite. */
  lemma HalfIsRefused(inf: real)
    requires 0.0 < inf
    ensures var h := inf / 2.0;
            Answer([[Finite(-h), Finite(h)], [Finite(-h), Finite(h)]], inf) == Assignment([], 0.0, NonFiniteCost)
  {
    hide Answer;
    var h := inf / 2.0;
    StripeRefused(2, 2, -h, h, inf);
    var row := [Finite(-h), Finite(h)];
    var stripe := Stripe(2, 2, -h, h);
    assert stripe[0] == row && stripe[1] == row;
    assert Stripe(2, 2, -h, h) == [[Finite(-h), Finite(h)], [Finite(-h), Finite(h)]];
  }

  function DearMatrix(inf: real): Matrix {
    [[Finite(-0.4 * inf), Finite(-0.75 * inf)], [Finite(1.25 * inf), Finite(0.75 * inf)]]
  }

  /** The run on that matrix: row one takes column two, row two takes column one. */
  lemma DearRun(t: Problem, inf: real)
    requires t.Sized() && t.m == 2 == t.n && t.inf == inf > 0.0
    requires t.a[1][1] == -0.4 * inf && t.a[1][2] == -0.75 * inf && t.a[2][1] == 1.25 * inf && t.a[2][2] == 0.75 * inf
    ensures Rows(t, 2).Some? && Rows(t, 2).value.p == [2, 2, 1]
  {
    hide Rows, Step, Augment;
    InitialFresh(t);
    var s := Initial(t).(p := Initial(t).p[0 := 1]);
    TakesFree(t, s, 1, 2);
    SameEntry(t, Initial(t), 1);
    RowsStep(t, 1);
    var x := Rows(t, 1).value;
    var y := x.(p := x.p[0 := 2]);
    assert y.p == [2, 0, 1];
    StaleRow(t, y, inf);
    SameEntry(t, x, 2);
    RowsStep(t, 2);
  }

  /** An assignment of the rows and what it costs. */
  ghost predicate AssignmentCosts(cost: Matrix, cols: seq<int>, m: nat, x: real) {
    Rectangular(cost, m) && IsAssignment(cols, |cost|, m) && Total(cost, cols, |cost|) == x
  }

  /** A column that was never reached is taken with the parent an earlier row left it: the answer is a valid assignment
      that costs more than the other one. */
  lemma StaleAnswerIsWrong(inf: real)
    requires 0.0 < inf
    ensures Answer(DearMatrix(inf), inf) == Assignment([1, 0], 0.5 * inf, Ok)
    ensures AssignmentCosts(DearMatrix(inf), [1, 0], 2, 0.5 * inf)
    ensures AssignmentCosts(DearMatrix(inf), [0, 1], 2, 0.35 * inf)
    ensures Diagnosis(DearMatrix(inf)) == Ok && !RightAnswer(DearMatrix(inf), Answer(DearMatrix(inf), inf))
  {
    hide Rows, Total, ColumnsOf, Answer, Diagnosis;
    var cost := DearMatrix(inf);
    WithinIsOk(cost, 2, 2, -0.75 * inf, 1.25 * inf);
    DearRun(ProblemOf(cost, inf), inf);
    StaleColumns();
    TwoRows(cost, [0, 1]);
    TwoRows(cost, [1, 0]);
    AnswerRead(cost, inf, [2, 2, 1], [1, 0]);
  }

  lemma AnswerRead(cost: Matrix, inf: real, p: seq<nat>, cols: seq<int>)
    requires Diagnosis(cost) == Ok && |cost| == 2 && |cost[0]| == 2 && |p| == 3
    requires Rows(ProblemOf(cost, inf), 2).Some? && Rows(ProblemOf(cost, inf), 2).value.p == p
    requires ColumnsOf(p, 2, 2) == cols && Rectangular(cost, 2) && |cols| == 2 && forall i :: 0 <= i < 2 ==> cols[i] < 2
    ensures Answer(cost, inf) == Assignment(cols, Total(cost, cols, 2), Ok)
  {
    hide Rows, Total, ColumnsOf, Diagnosis, ProblemOf;
  }

  lemma TwoRows(cost: Matrix, cols: seq<int>)
    requires |cols| == |cost| == 2 && forall i :: 0 <= i < 2 ==> 0 <= cols[i] < |cost[i]| && cost[i][cols[i]].Finite?
    ensures Total(cost, cols, 2) == cost[0][cols[0]].value + cost[1][cols[1]].value
  {
    assert Total(cost, cols, 1) == Total(cost, cols, 0) + cost[0][cols[0]].value;
  }

  lemma StaleColumns()
    ensures ColumnsOf([2, 2, 1], 2, 2) == [1, 0]
  {
    var p := [2, 2, 1];
    assert ColumnsOf(p, 2, 0) == [-1, -1];
    assert ColumnsOf(p, 2, 1) == [-1, 0];
  }

  /** Row two visits the sentinel and column two, and then takes column one, which it never reached. */
  lemma StaleRow(t: Problem, y: Search, inf: real)
    requires Fresh(t, y, 2) && t.m == 2 == t.n && t.inf == inf > 0.0 && y.p == [2, 0, 1] && y.u[1] == -0.75 * inf && y.way[1] == 0
    requires t.a[1][1] == -0.4 * inf && t.a[2][1] == 1.25 * inf && t.a[2][2] == 0.75 * inf
    ensures Augment(t, y, 2).Some? && Augment(t, y, 2).value.p == [2, 2, 1]
  {
    hide Step, Closest;
    var p := y.p;
    FirstVisit(t, y, 2, 2);
    var g := Step(t, p, Enter(t, y));
    assert g.u[1] == -0.75 * inf && g.minv[1] == 0.25 * inf;
    IdleVisit(t, p, g);
    var h := Step(t, p, g);
    assert h.next == 1 && h.way[1] == 0;
    assert p[0 := 2] == p;
    assert Grow(t, p, Enter(t, y)) == Grow(t, p, g) == h;
    assert Unwound(p, h.way, 1, 3) == Unwound(p[1 := p[0]], h.way, 0, 2) == [2, 2, 1];
  }
}
