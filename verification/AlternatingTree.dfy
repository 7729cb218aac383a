/**
 What the search for one row keeps, on every input. Rows stay feasible, prices stay non-positive and zero on free
 columns, and the path back to the sentinel always ends, even when distances run into the value that stands for an
 unknown one. A column chosen at that value was never reached from the tree: such a search is called stale. Only
 stale searches lose tightness.
 */
module AlternatingTree {
  import opened Counting
  import opened PotentialSearch

  /** Costs, potentials, the row held by each column, and (for reasoning) the column of each row. */
  datatype State = State(a: seq<seq<real>>, n: nat, m: nat, u: seq<real>, v: seq<real>, p: seq<nat>, q: seq<nat>) {

    ghost predicate Sized() {
      && |a| == n + 1 && |u| == n + 1 && |q| == n + 1 && |v| == m + 1 && |p| == m + 1
      && (forall r :: 0 <= r <= n ==> |a[r]| == m + 1)
      && (forall j :: 0 <= j <= m ==> p[j] <= n)
    }

    /** The reduced cost of an edge. */
    ghost function Slack(r: nat, j: nat): real
      requires Sized() && r <= n && j <= m
    {
      a[r][j] - u[r] - v[j]
    }

    /** Rows 1..i sit in different columns from first on, and each column knows its row. */
    ghost predicate Paired(i: nat, first: nat)
      requires Sized() && i <= n
    {
      && (forall r :: 1 <= r <= i ==> first <= q[r] <= m && p[q[r]] == r)
      && (forall j :: first <= j <= m && p[j] != 0 ==> p[j] <= i && q[p[j]] == j)
    }

    ghost predicate Feasible(i: nat)
      requires Sized() && i <= n
    {
      forall r, j :: 1 <= r <= i && 1 <= j <= m ==> Slack(r, j) >= 0.0
    }

    ghost predicate Tight()
      requires Sized()
    {
      forall j :: 1 <= j <= m && p[j] != 0 ==> Slack(p[j], j) == 0.0
    }

    /** Column prices are never positive, and zero on free columns. */
    ghost predicate Priced()
      requires Sized()
    {
      forall j :: 1 <= j <= m ==> v[j] <= 0.0 && (p[j] == 0 ==> v[j] == 0.0)
    }

    ghost predicate FreshRows(i: nat)
      requires Sized()
    {
      forall r :: i < r <= n ==> u[r] == 0.0
    }

    /** The invariant between rows: rows 1..i are assigned and feasible. */
    ghost predicate Assigned(i: nat) {
      Sized() && i <= n && Paired(i, 1) && Feasible(i) && Priced() && FreshRows(i)
    }

    // ---------------------------------------------------------------- the alternating tree of one row

    ghost predicate Sizes(f: Reach) {
      |f.used| == |f.reached| == |f.way| == |f.rank| == |f.minv| == m + 1
    }

    /** The parent of column j is in the tree. */
    ghost predicate Hangs(f: Reach, j: nat)
      requires Sizes(f) && j <= m
    {
      f.way[j] <= m && f.used[f.way[j]] && (f.way[j] == 0 || f.reached[f.way[j]])
    }

    /** An unused column knows its distance from the tree, or inf less what the row has been raised by. */
    ghost predicate AtDistance(f: Reach, i: nat, inf: real, j: nat)
      requires Sized() && Sizes(f) && i <= n && j <= m
    {
      && (if f.reached[j] then Hangs(f, j) && f.minv[j] == Slack(p[f.way[j]], j) && f.minv[j] < inf - u[i]
          else f.minv[j] == inf - u[i])
      && forall k :: 0 <= k <= m && f.used[k] ==> f.minv[j] <= Slack(p[k], j)
    }

    ghost predicate Front(f: Reach, i: nat, inf: real)
      requires Sized() && Sizes(f) && i <= n
    {
      forall j :: 1 <= j <= m && !f.used[j] ==> AtDistance(f, i, inf, j)
    }

    /** Used columns hold rows; those that were reached hang from earlier ones by tight edges; the others have the
        parent that an earlier row left them. */
    ghost predicate Tree(f: Reach, way0: seq<nat>)
      requires Sized() && Sizes(f)
    {
      && f.used[0] && |way0| == m + 1
      && (forall j :: 0 <= j <= m && f.used[j] ==> p[j] != 0)
      && (forall j :: 1 <= j <= m && f.used[j] && f.reached[j] ==>
            Hangs(f, j) && f.rank[f.way[j]] < f.rank[j] && Slack(p[f.way[j]], j) == 0.0)
      && forall j :: 1 <= j <= m && !f.reached[j] ==> f.way[j] == way0[j]
    }

    /** Up to the first stale choice every used column was reached; from then on no unused column is. */
    ghost predicate Stage(f: Reach, i: nat, inf: real, stale: bool)
      requires Sized() && Sizes(f) && i <= n
    {
      if stale then u[i] == inf && forall j :: 1 <= j <= m && !f.used[j] ==> !f.reached[j]
      else u[i] < inf && forall j :: 1 <= j <= m && f.used[j] ==> f.reached[j]
    }

    /** What the phase for row i keeps: row i sits in the sentinel column, the other rows are feasible. */
    ghost predicate Phase(i: nat) {
      && Sized() && 1 <= i <= n && Paired(i, 0) && p[0] == i && Feasible(i - 1) && Priced() && FreshRows(i)
    }

    /** Row i has been raised at least to one of its costs. */
    ghost predicate Raised(i: nat)
      requires Sized() && i <= n
    {
      exists k :: 1 <= k <= m && a[i][k] <= u[i]
    }

    /** Row i joined the feasible rows, or only the sentinel has been visited yet. */
    ghost predicate Started(f: Reach, i: nat, stale: bool)
      requires Sized() && Sizes(f) && i <= n
    {
      (Feasible(i) && Raised(i)) || (u[i] == 0.0 && !stale && forall j :: 1 <= j <= m ==> !f.used[j])
    }
  }

  /** What is known of the columns during one search: visited, reached from the tree, parent, time of visit, distance. */
  datatype Reach = Reach(used: seq<bool>, reached: seq<bool>, way: seq<nat>, rank: seq<nat>, minv: seq<real>)

  /** After a visit: every unused column is at its distance from the tree. */
  ghost predicate Visited(s: State, f: Reach, i: nat, inf: real, way0: seq<nat>, stale: bool) {
    s.Phase(i) && s.Sizes(f) && s.Tree(f, way0) && s.Front(f, i, inf) && s.Stage(f, i, inf, stale) && s.Started(f, i, stale)
  }

  /** Before a visit: column j0 is the nearest, at distance zero. */
  ghost predicate Chosen(s: State, f: Reach, i: nat, inf: real, way0: seq<nat>, stale: bool, j0: nat) {
    && Visited(s, f, i, inf, way0, stale) && s.Feasible(i) && s.Raised(i)
    && 1 <= j0 <= s.m && !f.used[j0] && f.minv[j0] == 0.0 && f.reached[j0] == !stale
  }

  // ----------------------------------------------------------------------------------------- one visit

  ghost predicate Improved(s: State, f: Reach, j0: nat, j: nat)
    requires s.Sized() && s.Sizes(f) && j0 <= s.m && j <= s.m
  {
    1 <= j && j != j0 && !f.used[j] && s.Slack(s.p[j0], j) < f.minv[j]
  }

  /** The columns after a visit to j0. */
  ghost function Visit(s: State, f: Reach, j0: nat, step: nat): (r: Reach)
    requires s.Sized() && s.Sizes(f) && j0 <= s.m
    ensures s.Sizes(r)
  {
    Reach(f.used[j0 := true],
          seq(s.m + 1, j requires 0 <= j <= s.m => f.reached[j] || Improved(s, f, j0, j)),
          seq(s.m + 1, j requires 0 <= j <= s.m => if Improved(s, f, j0, j) then j0 else f.way[j]),
          f.rank[j0 := step],
          seq(s.m + 1, j requires 0 <= j <= s.m => if Improved(s, f, j0, j) then s.Slack(s.p[j0], j) else f.minv[j]))
  }

  /** Visiting the nearest column extends the tree. After a stale choice nothing more is reached. */
  lemma VisitKeeps(s: State, f: Reach, i: nat, inf: real, way0: seq<nat>, stale: bool, j0: nat, step: nat)
    requires Chosen(s, f, i, inf, way0, stale, j0) && s.p[j0] != 0
    requires forall j :: 0 <= j <= s.m ==> f.rank[j] < step
    ensures Visited(s, Visit(s, f, j0, step), i, inf, way0, stale)
  {
    hide State.Paired, State.Priced, State.FreshRows, State.Feasible, State.Tree, State.Front, State.Raised;
    var r := Visit(s, f, j0, step);
    VisitTree(s, f, i, inf, way0, stale, j0, step);
    NothingNew(s, f, i, inf, way0, stale, j0);
    VisitFront(s, f, i, inf, j0, step);
  }

  /** Once the search is stale, all distances are zero and feasible rows do not get below. */
  lemma NothingNew(s: State, f: Reach, i: nat, inf: real, way0: seq<nat>, stale: bool, j0: nat)
    requires Chosen(s, f, i, inf, way0, stale, j0) && s.p[j0] != 0
    ensures stale ==> forall j :: 0 <= j <= s.m ==> !Improved(s, f, j0, j)
  {
    hide State.Priced, State.FreshRows, State.Raised;
    if stale {
      forall j | 0 <= j <= s.m ensures !Improved(s, f, j0, j) {
        if 1 <= j && !f.used[j] {
          assert s.AtDistance(f, i, inf, j);
          assert s.p[j0] <= i && s.Slack(s.p[j0], j) >= 0.0;
        }
      }
    }
  }

  lemma VisitTree(s: State, f: Reach, i: nat, inf: real, way0: seq<nat>, stale: bool, j0: nat, step: nat)
    requires Chosen(s, f, i, inf, way0, stale, j0) && s.p[j0] != 0
    requires forall j :: 0 <= j <= s.m ==> f.rank[j] < step
    ensures s.Tree(Visit(s, f, j0, step), way0)
  {
    hide State.Paired, State.Priced, State.FreshRows, State.Feasible, State.Raised;
    var r := Visit(s, f, j0, step);
    assert s.AtDistance(f, i, inf, j0);
    forall j | 1 <= j <= s.m && r.used[j] && r.reached[j]
      ensures s.Hangs(r, j) && r.rank[r.way[j]] < r.rank[j] && s.Slack(s.p[r.way[j]], j) == 0.0
    {
      assert !Improved(s, f, j0, j);
      assert s.Hangs(f, j);
    }
  }

  lemma VisitFront(s: State, f: Reach, i: nat, inf: real, j0: nat, step: nat)
    requires s.Sized() && s.Sizes(f) && i <= s.n && j0 <= s.m && s.Front(f, i, inf)
    requires (j0 == 0 || f.reached[j0]) || forall j :: 0 <= j <= s.m ==> !Improved(s, f, j0, j)
    ensures s.Front(Visit(s, f, j0, step), i, inf)
  {
    var r := Visit(s, f, j0, step);
    forall j | 1 <= j <= s.m && !r.used[j] ensures s.AtDistance(r, i, inf, j) {
      assert s.AtDistance(f, i, inf, j);
    }
  }

  /** Nothing is known before the first visit. */
  ghost function Nothing(m: nat, inf: real, way: seq<nat>): Reach {
    Reach(seq(m + 1, _ => false), seq(m + 1, _ => false), way, seq(m + 1, _ => 0), seq(m + 1, _ => inf))
  }

  /** The first visit is to the sentinel. */
  lemma VisitSentinel(s: State, i: nat, inf: real, way0: seq<nat>)
    requires s.Phase(i) && |way0| == s.m + 1 && s.u[i] == 0.0 && 0.0 < inf
    ensures s.Sizes(Nothing(s.m, inf, way0)) && Visited(s, Visit(s, Nothing(s.m, inf, way0), 0, 0), i, inf, way0, false)
  {
    hide State.Paired, State.Priced, State.FreshRows, State.Feasible;
    var f := Nothing(s.m, inf, way0);
    assert s.Front(f, i, inf);
    VisitFront(s, f, i, inf, 0, 0);
    var r := Visit(s, f, 0, 0);
    assert s.Tree(r, way0);
  }

  // -------------------------------------------------------------------------------- potential update

  /** Row r is in the tree: its column is used. */
  ghost predicate RowUsed(i: nat, used: seq<bool>, q: seq<nat>, r: nat) {
    1 <= r <= i && r < |q| && q[r] < |used| && used[q[r]]
  }

  /** Rows and prices of the tree move by delta in opposite directions, so that its edges keep their slack. */
  ghost predicate Shifted(s: State, i: nat, used: seq<bool>, delta: real, t: State)
    requires s.Sized() && |used| == s.m + 1
  {
    && t == s.(u := t.u, v := t.v) && |t.u| == s.n + 1 && |t.v| == s.m + 1
    && (forall r :: 0 <= r <= s.n ==> t.u[r] == if RowUsed(i, used, s.q, r) then s.u[r] + delta else s.u[r])
    && (forall j :: 0 <= j <= s.m ==> t.v[j] == if used[j] then s.v[j] - delta else s.v[j])
  }

  /** The loop over the used columns raises exactly the rows of the tree. */
  lemma {:induction false} RaisedRows(s: State, i: nat, used: seq<bool>, delta: real, k: nat)
    requires s.Sized() && i <= s.n && s.Paired(i, 0) && |used| == s.m + 1 && k <= s.m + 1
    requires forall j :: 0 <= j <= s.m && used[j] ==> s.p[j] != 0
    ensures var u := PotentialSearch.Raised(s.u, s.p, used, delta, k);
            forall r :: 0 <= r <= s.n ==> u[r] == if RowUsed(i, used, s.q, r) && s.q[r] < k then s.u[r] + delta else s.u[r]
  {
    if k > 0 {
      RaisedRows(s, i, used, delta, k - 1);
    }
  }

  /** How the slack of an edge changes. */
  lemma SlackShifts(s: State, i: nat, used: seq<bool>, delta: real, t: State, r: nat, j: nat)
    requires s.Sized() && |used| == s.m + 1 && Shifted(s, i, used, delta, t) && r <= s.n && j <= s.m && t.Sized()
    ensures t.Slack(r, j) == s.Slack(r, j) - (if RowUsed(i, used, s.q, r) then delta else 0.0)
                             + if used[j] then delta else 0.0
  {
  }

  lemma ShiftFeasible(s: State, f: Reach, i: nat, inf: real, way0: seq<nat>, stale: bool, delta: real, t: State)
    requires Visited(s, f, i, inf, way0, stale) && Shifted(s, i, f.used, delta, t) && t.Sized()
    requires s.Feasible(i) ==> delta >= 0.0
    requires forall j :: 1 <= j <= s.m && !f.used[j] ==> delta <= f.minv[j]
    ensures t.Feasible(i)
  {
    hide State.Priced, State.FreshRows, State.Raised;
    forall r, j | 1 <= r <= i && 1 <= j <= s.m ensures t.Slack(r, j) >= 0.0 {
      SlackShifts(s, i, f.used, delta, t, r, j);
      assert s.p[s.q[r]] == r;
      if RowUsed(i, f.used, s.q, r) && !f.used[j] {
        assert s.AtDistance(f, i, inf, j);
      } else if r < i || s.Feasible(i) {
        assert s.Slack(r, j) >= 0.0;
      }
    }
  }

  lemma ShiftPhase(s: State, f: Reach, i: nat, inf: real, way0: seq<nat>, stale: bool, delta: real, t: State)
    requires Visited(s, f, i, inf, way0, stale) && Shifted(s, i, f.used, delta, t)
    requires s.Feasible(i) ==> delta >= 0.0
    requires forall j :: 1 <= j <= s.m && !f.used[j] ==> delta <= f.minv[j]
    ensures t.Phase(i) && t.Feasible(i) && t.u[i] == s.u[i] + delta
    ensures s.Tight() ==> t.Tight()
  {
    hide State.Raised, State.Front, State.Stage;
    assert t.Sized();
    ShiftFeasible(s, f, i, inf, way0, stale, delta, t);
    assert RowUsed(i, f.used, s.q, i);
    if s.Tight() {
      forall j | 1 <= j <= s.m && s.p[j] != 0 ensures t.Slack(t.p[j], j) == 0.0 {
        SlackShifts(s, i, f.used, delta, t, s.p[j], j);
        assert s.q[s.p[j]] == j;
      }
    }
  }

  lemma ShiftTree(s: State, f: Reach, i: nat, inf: real, way0: seq<nat>, stale: bool, delta: real, t: State, minv: seq<real>)
    requires Visited(s, f, i, inf, way0, stale) && Shifted(s, i, f.used, delta, t) && t.Sized()
    requires |minv| == s.m + 1 && t.u[i] == s.u[i] + delta
    requires forall j :: 0 <= j <= s.m ==> minv[j] == if f.used[j] then f.minv[j] else f.minv[j] - delta
    ensures t.Tree(f.(minv := minv), way0) && t.Front(f.(minv := minv), i, inf)
  {
    hide State.Priced, State.FreshRows, State.Feasible, State.Stage, State.Raised;
    var g := f.(minv := minv);
    forall k, j | 0 <= k <= s.m && f.used[k] && 1 <= j <= s.m
      ensures t.Slack(s.p[k], j) == if f.used[j] then s.Slack(s.p[k], j) else s.Slack(s.p[k], j) - delta
    {
      assert s.q[s.p[k]] == k && RowUsed(i, f.used, s.q, s.p[k]);
      SlackShifts(s, i, f.used, delta, t, s.p[k], j);
    }
    forall j | 1 <= j <= s.m && !f.used[j] ensures t.AtDistance(g, i, inf, j) {
      assert s.AtDistance(f, i, inf, j);
    }
    forall j | 1 <= j <= s.m && f.used[j] && f.reached[j] ensures t.Hangs(g, j) && t.Slack(t.p[g.way[j]], j) == 0.0 {
      assert s.Hangs(f, j);
    }
  }

  /** The nearest unused column, if one is nearer than inf. */
  ghost predicate Nearest(m: nat, f: Reach, inf: real, delta: real, j1: int)
    requires |f.used| == |f.minv| == m + 1
  {
    && (j1 == -1 ==> delta == inf && forall j :: 1 <= j <= m && !f.used[j] ==> f.minv[j] >= inf)
    && (j1 != -1 ==> 1 <= j1 <= m && !f.used[j1] && delta == f.minv[j1] < inf
                     && forall j :: 1 <= j <= m && !f.used[j] ==> delta <= f.minv[j])
  }

  /** The chosen distance: not negative once row i is feasible; if it is stale, nothing else is nearer. */
  lemma ChosenDistance(s: State, f: Reach, i: nat, inf: real, way0: seq<nat>, stale: bool, delta: real, j1: int)
    requires Visited(s, f, i, inf, way0, stale) && Nearest(s.m, f, inf, delta, j1) && j1 != -1
    ensures s.Feasible(i) ==> delta >= 0.0
    ensures !f.reached[j1] ==> s.Feasible(i) && s.Raised(i) && s.u[i] + delta == inf
    ensures !f.reached[j1] ==> forall j :: 1 <= j <= s.m && !f.used[j] ==> !f.reached[j]
    ensures f.reached[j1] ==> !stale && s.u[i] + delta < inf
    ensures exists k :: 1 <= k <= s.m && s.a[i][k] <= s.u[i] + delta
  {
    hide State.FreshRows;
    assert s.AtDistance(f, i, inf, j1);
    if f.reached[j1] {
      var w := f.way[j1];
      assert s.p[w] != 0 && s.p[w] <= i;
      if s.Feasible(i) {
        assert s.Slack(s.p[w], j1) >= 0.0;
      }
      if !(s.Feasible(i) && s.Raised(i)) {
        assert w == 0 && s.a[i][j1] <= s.u[i] + delta;
      }
    } else {
      forall j | 1 <= j <= s.m && !f.used[j] ensures !f.reached[j] {
        assert s.AtDistance(f, i, inf, j);
      }
    }
  }

  /** From a visit to the choice of the next column. */
  lemma Advance(s: State, f: Reach, i: nat, inf: real, way0: seq<nat>, stale: bool, delta: real, j1: int, t: State,
                minv: seq<real>)
    requires Visited(s, f, i, inf, way0, stale) && Nearest(s.m, f, inf, delta, j1) && j1 != -1
    requires Shifted(s, i, f.used, delta, t) && |minv| == s.m + 1
    requires forall j :: 0 <= j <= s.m ==> minv[j] == if f.used[j] then f.minv[j] else f.minv[j] - delta
    ensures Chosen(t, f.(minv := minv), i, inf, way0, !f.reached[j1], j1)
    ensures s.Tight() ==> t.Tight()
    ensures stale ==> !f.reached[j1]
  {
    hide State.Paired, State.Priced, State.FreshRows, State.Feasible, State.Tight, State.Tree, State.Front;
    ChosenDistance(s, f, i, inf, way0, stale, delta, j1);
    ShiftPhase(s, f, i, inf, way0, stale, delta, t);
    ShiftTree(s, f, i, inf, way0, stale, delta, t, minv);
    assert t.a == s.a;
    assert t.Raised(i);
  }
}
