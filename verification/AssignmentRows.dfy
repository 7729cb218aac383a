/**
 One row after the other, on every input: the search for a row ends, the path back to the sentinel ends, and the rows
 stay assigned to different columns under feasible potentials. Where each row has enough cheap columns no search is
 stale, and the pairs stay tight.
 */
module AssignmentRows {
  import opened AlternatingTree
  import opened Counting
  import opened PotentialSearch
  import opened Wrappers

  ghost function StateOf(t: Problem, u: seq<real>, v: seq<real>, p: seq<nat>, q: seq<nat>): State {
    State(t.a, t.n, t.m, u, v, p, q)
  }

  // ------------------------------------------------------------------------------ a step of the search

  /** A step is a visit, the choice of the nearest column and an update of the potentials. */
  lemma StepIs(t: Problem, p: seq<nat>, q: seq<nat>, i: nat, g: Growth, f: Reach, step: nat)
    requires Ready(t, p, g) && |q| == t.n + 1 && i <= t.n && StateOf(t, g.u, g.v, p, q).Sized()
    requires var s := StateOf(t, g.u, g.v, p, q);
             && s.Paired(i, 0) && s.Sizes(f) && f.used == g.used && f.way == g.way && f.minv == g.minv
             && p[g.next] != 0 && forall j :: 0 <= j <= t.m && f.used[j] ==> p[j] != 0
    ensures var s, r := StateOf(t, g.u, g.v, p, q), Step(t, p, g);
            var w := Visit(s, f, g.next, step);
            var delta := Closest(w.used, w.minv, t.inf, t.m).0;
            && r.used == w.used && r.way == w.way && Nearest(t.m, w, t.inf, delta, r.next)
            && Shifted(s, i, w.used, delta, StateOf(t, r.u, r.v, p, q)) && |r.minv| == t.m + 1
            && forall j :: 0 <= j <= t.m ==> r.minv[j] == if w.used[j] then w.minv[j] else w.minv[j] - delta
  {
    hide State.Paired, Improves, Improved, ScanMinv, ScanWay, Visit, RowUsed, PotentialSearch.Raised, Closest, Ready;
    var s, r := StateOf(t, g.u, g.v, p, q), Step(t, p, g);
    var w := Visit(s, f, g.next, step);
    ScanIsVisit(t, p, q, g, f, step);
    var delta := Closest(w.used, w.minv, t.inf, t.m).0;
    StepParts(t, p, g);
    RaisedRows(s, i, w.used, delta, t.m + 1);
    RowsAreBelow(s, i, w.used);
  }

  lemma StepParts(t: Problem, p: seq<nat>, g: Growth)
    requires Ready(t, p, g)
    ensures var used, minv, r := g.used[g.next := true], ScanMinv(t, p, g), Step(t, p, g);
            var delta := Closest(used, minv, t.inf, t.m).0;
            && |g.used| == |p| == t.m + 1 && |g.u| == t.n + 1 && |minv| == t.m + 1
            && r.used == used && r.way == ScanWay(t, p, g)
            && r.next == Closest(used, minv, t.inf, t.m).1 && r.u == PotentialSearch.Raised(g.u, p, used, delta, t.m + 1)
            && |r.u| == t.n + 1 && |r.v| == |r.minv| == t.m + 1 && (forall j :: 0 <= j <= t.m ==> p[j] <= t.n)
            && (forall j :: 0 <= j <= t.m ==> r.v[j] == if used[j] then g.v[j] - delta else g.v[j])
            && forall j :: 0 <= j <= t.m ==> r.minv[j] == if used[j] then minv[j] else minv[j] - delta
  {
    hide Improves, Look, PotentialSearch.Raised, Closest;
  }

  lemma ScanIsVisit(t: Problem, p: seq<nat>, q: seq<nat>, g: Growth, f: Reach, step: nat)
    requires Ready(t, p, g) && |q| == t.n + 1 && StateOf(t, g.u, g.v, p, q).Sized()
    requires var s := StateOf(t, g.u, g.v, p, q);
             s.Sizes(f) && f.used == g.used && f.way == g.way && f.minv == g.minv
    ensures var w := Visit(StateOf(t, g.u, g.v, p, q), f, g.next, step);
            && |g.used| == t.m + 1 && w.used == g.used[g.next := true]
            && w.way == ScanWay(t, p, g) && w.minv == ScanMinv(t, p, g)
  {
    var s := StateOf(t, g.u, g.v, p, q);
    forall j | 0 <= j <= t.m ensures Improves(t, p, g, j) == Improved(s, f, g.next, j) {
    }
  }

  lemma RowsAreBelow(s: State, i: nat, used: seq<bool>)
    requires s.Sized() && i <= s.n && s.Paired(i, 0) && |used| == s.m + 1
    ensures forall r :: 0 <= r <= s.n && RowUsed(i, used, s.q, r) ==> s.q[r] < s.m + 1
  {
  }

  // --------------------------------------------------------------------------------- enough cheap columns

  /** The columns of row i that cost less than inf, and less than inf more than any other. */
  ghost function Cheap(t: Problem, i: nat): set<nat>
    requires t.Sized() && i <= t.n
  {
    set j: nat | 1 <= j <= t.m && t.a[i][j] < t.inf && forall k :: 1 <= k <= t.m ==> t.a[i][j] - t.a[i][k] < t.inf
  }

  /** Row i has a cheap column more than there are rows before it. */
  ghost predicate Generous(t: Problem, i: nat) {
    t.Sized() && i <= t.n && |Cheap(t, i)| >= i
  }

  lemma FreeCheapColumn(t: Problem, s: State, i: nat) returns (c: nat)
    requires Generous(t, i) && s.Phase(i) && s.a == t.a && s.n == t.n && s.m == t.m
    ensures c in Cheap(t, i) && s.p[c] == 0
  {
    hide State.Feasible, State.Priced, State.FreshRows;
    if forall j :: j in Cheap(t, i) ==> s.p[j] != 0 {
      InjectionSize(Cheap(t, i), Below(i) - {0}, map j | j in Cheap(t, i) :: s.p[j]);
    }
    c :| c in Cheap(t, i) && s.p[c] == 0;
  }

  /** A free cheap column is near enough: the scan finds a nearest column, and one that was reached. */
  lemma CheapIsNear(t: Problem, s: State, f: Reach, i: nat, way0: seq<nat>, delta: real, j1: int)
    requires Generous(t, i) && s.a == t.a && s.n == t.n && s.m == t.m
    requires Visited(s, f, i, t.inf, way0, false) && Nearest(s.m, f, t.inf, delta, j1)
    ensures j1 != -1 && f.reached[j1]
  {
    hide State.Paired, State.Feasible, State.FreshRows;
    var c := FreeCheapColumn(t, s, i);
    assert s.AtDistance(f, i, t.inf, c);
    assert f.minv[c] <= s.Slack(s.p[0], c);
    assert f.minv[c] < t.inf && f.minv[c] < t.inf - s.u[i];
    assert s.AtDistance(f, i, t.inf, j1);
  }

  /** From a visit to the next choice: what the rest of a step keeps. */
  lemma StepKeeps(t: Problem, p: seq<nat>, q: seq<nat>, i: nat, g: Growth, f: Reach, step: nat, way0: seq<nat>, stale: bool)
    returns (w: Reach, late: bool)
    requires Ready(t, p, g) && |q| == t.n + 1 && i <= t.n && StateOf(t, g.u, g.v, p, q).Sized()
    requires var s := StateOf(t, g.u, g.v, p, q);
             && s.Sizes(f) && f.used == g.used && f.way == g.way && f.minv == g.minv && p[g.next] != 0
             && Visited(s, Visit(s, f, g.next, step), i, t.inf, way0, stale)
    ensures var s, r := StateOf(t, g.u, g.v, p, q), Step(t, p, g);
            var s' := StateOf(t, r.u, r.v, p, q);
            && (r.next != -1 ==> Chosen(s', w, i, t.inf, way0, late, r.next) && (s.Tight() ==> s'.Tight()))
            && s'.Sized() && s.Sizes(w) && w.rank == f.rank[g.next := step]
            && w.used == r.used && w.way == r.way && w.minv == r.minv
            && (Generous(t, i) && !stale ==> r.next != -1 && !late)
  {
    hide State.Paired, State.Priced, State.FreshRows, State.Feasible, State.Tight, State.Tree, State.Front, State.Stage,
      State.Started, Generous, Chosen, Visit, Step, Nearest;
    var s, r := StateOf(t, g.u, g.v, p, q), Step(t, p, g);
    var v := Visit(s, f, g.next, step);
    VisitMarks(s, f, g.next, step);
    VisitedHoldRows(s, v, i, t.inf, way0, stale);
    StepIs(t, p, q, i, g, f, step);
    var delta := Closest(v.used, v.minv, t.inf, t.m).0;
    var s' := StateOf(t, r.u, r.v, p, q);
    w, late := v.(minv := r.minv), r.next != -1 && !v.reached[Clamp(r.next, t.m)];
    if Generous(t, i) && !stale {
      CheapIsNear(t, s, v, i, way0, delta, r.next);
    }
    if r.next != -1 {
      Advance(s, v, i, t.inf, way0, stale, delta, r.next, s', r.minv);
    }
  }

  ghost function Clamp(j: int, m: nat): (k: nat)
    ensures k <= m && (0 <= j <= m ==> k == j)
  {
    if 0 <= j <= m then j else 0
  }

  lemma VisitMarks(s: State, f: Reach, j0: nat, step: nat)
    requires s.Sized() && s.Sizes(f) && j0 <= s.m
    ensures var w := Visit(s, f, j0, step); w.used == f.used[j0 := true] && w.rank == f.rank[j0 := step]
  {
  }

  lemma VisitedHoldRows(s: State, f: Reach, i: nat, inf: real, way0: seq<nat>, stale: bool)
    requires Visited(s, f, i, inf, way0, stale)
    ensures s.Sized() && s.Sizes(f) && 1 <= i <= s.n && s.Paired(i, 0) && forall j :: 0 <= j <= s.m && f.used[j] ==> s.p[j] != 0
  {
    hide State.Paired;
  }

  /** Until the search ends. With enough cheap columns it ends at a column that was reached. */
  lemma {:induction false} GrowKeeps(t: Problem, p: seq<nat>, q: seq<nat>, i: nat, g: Growth, f: Reach, step: nat,
                                     way0: seq<nat>, stale: bool)
    returns (w: Reach, late: bool, top: nat)
    requires Ready(t, p, g) && |q| == t.n + 1 && i <= t.n && StateOf(t, g.u, g.v, p, q).Sized()
    requires var s := StateOf(t, g.u, g.v, p, q);
             && s.Sizes(f) && f.used == g.used && f.way == g.way && f.minv == g.minv && p[g.next] != 0
             && Visited(s, Visit(s, f, g.next, step), i, t.inf, way0, stale)
             && (forall j :: 0 <= j <= t.m ==> f.rank[j] <= step)
    ensures var s, r := StateOf(t, g.u, g.v, p, q), Grow(t, p, g);
            var s' := StateOf(t, r.u, r.v, p, q);
            && (r.next != -1 ==> Chosen(s', w, i, t.inf, way0, late, r.next) && (s.Tight() ==> s'.Tight())
                                 && w.way == r.way && forall j :: 0 <= j <= t.m ==> w.rank[j] < top)
            && (Generous(t, i) && !stale ==> r.next != -1 && !late)
    decreases Unseen(g.used)
  {
    hide State.Paired, State.Priced, State.FreshRows, State.Feasible, State.Tight, State.Tree, State.Front, State.Stage,
      State.Started, State.Phase, Generous, Chosen, Visited, Visit, Step;
    var h := Step(t, p, g);
    w, late := StepKeeps(t, p, q, i, g, f, step, way0, stale);
    top := step + 1;
    if h.next != -1 && p[h.next] != 0 {
      var s' := StateOf(t, h.u, h.v, p, q);
      VisitKeeps(s', w, i, t.inf, way0, late, h.next, step + 1);
      w, late, top := GrowKeeps(t, p, q, i, h, w, step + 1, way0, late);
    }
  }

  // ------------------------------------------------------------------------------------------ unwind

  /** Every path along the parents ends in the sentinel, through columns that hold rows. */
  ghost predicate Rooted(way: seq<nat>, p: seq<nat>, depth: seq<nat>, m: nat) {
    && |way| == |p| == |depth| == m + 1
    && forall j :: 1 <= j <= m ==> way[j] <= m && depth[way[j]] < depth[j] && (way[j] == 0 || p[way[j]] != 0)
  }

  /** Reached columns hang from the tree, the others from where an earlier row left them: no path closes. */
  lemma StaysRooted(s: State, f: Reach, i: nat, inf: real, way0: seq<nat>, stale: bool, j0: nat, depth: seq<nat>, top: nat)
    returns (depth': seq<nat>)
    requires Chosen(s, f, i, inf, way0, stale, j0) && Rooted(way0, s.p, depth, s.m)
    requires forall j :: 0 <= j <= s.m ==> f.rank[j] < top
    ensures Rooted(f.way, s.p, depth', s.m) && |depth'| == s.m + 1
  {
    hide State.Paired, State.Priced, State.FreshRows, State.Feasible, State.Raised, State.Stage;
    depth' := seq(s.m + 1, j requires 0 <= j <= s.m =>
                    if j == 0 then 0 else if !f.reached[j] then top + 2 + depth[j]
                    else if f.used[j] then 1 + f.rank[j] else 1 + top);
    forall j | 1 <= j <= s.m
      ensures f.way[j] <= s.m && depth'[f.way[j]] < depth'[j] && (f.way[j] == 0 || s.p[f.way[j]] != 0)
    {
      if f.reached[j] {
        if !f.used[j] {
          assert s.AtDistance(f, i, inf, j);
        }
        assert s.Hangs(f, j);
      } else {
        assert f.way[j] == way0[j];
      }
    }
  }

  ghost function Lower(depth: seq<nat>, j: nat): set<nat>
    requires j < |depth|
  {
    set k: nat | k < |depth| && depth[k] < depth[j]
  }

  lemma LowerShrinks(depth: seq<nat>, j: nat, k: nat)
    requires j < |depth| && k < |depth| && depth[k] < depth[j]
    ensures |Lower(depth, k)| < |Lower(depth, j)|
  {
    assert k in Lower(depth, j) && k !in Lower(depth, k);
    SubsetSize(Lower(depth, k), Lower(depth, j) - {k});
  }

  lemma LowerBounded(depth: seq<nat>, j: nat)
    requires j < |depth|
    ensures |Lower(depth, j)| < |depth|
  {
    SubsetSize(Lower(depth, j), Below(|depth|) - {j});
  }

  /** While the path unwinds, one column is a hole and every row sits in another one. */
  ghost predicate PairedExcept(i: nat, m: nat, p: seq<nat>, q: seq<nat>, hole: nat)
    requires |p| == m + 1 && i < |q|
  {
    && (forall r :: 1 <= r <= i ==> q[r] <= m && q[r] != hole && p[q[r]] == r)
    && (forall j :: 0 <= j <= m && j != hole && p[j] != 0 ==> p[j] <= i && q[p[j]] == j)
  }

  ghost predicate TightExcept(s: State, p: seq<nat>, hole: nat)
    requires s.Sized() && |p| == s.m + 1
  {
    forall j :: 1 <= j <= s.m && j != hole && p[j] != 0 ==> p[j] <= s.n && s.Slack(p[j], j) == 0.0
  }

  /** Columns nearer the sentinel than the hole still hold their old rows, and no column loses its row. */
  ghost predicate Untouched(p0: seq<nat>, p: seq<nat>, depth: seq<nat>, hole: nat)
    requires |p0| == |p| == |depth| && hole < |p|
  {
    && (forall j :: 0 <= j < |p| && depth[j] < depth[hole] ==> p[j] == p0[j])
    && (forall j :: 0 <= j < |p| && j != hole && p[j] == 0 ==> p0[j] == 0)
  }

  /** On the path of a search that is not stale, every edge is tight. */
  ghost predicate OnTightPath(s: State, f: Reach, j0: nat, start: nat)
    requires s.Sized() && s.Sizes(f) && j0 <= s.m
  {
    j0 == 0 || (f.reached[j0] && (f.used[j0] || j0 == start))
  }

  ghost predicate Unwinding(s: State, f: Reach, i: nat, depth: seq<nat>, start: nat, tight: bool, p: seq<nat>,
                            q: seq<nat>, hole: nat)
  {
    && s.Sized() && s.Sizes(f) && |p| == |depth| == s.m + 1 && |q| == s.n + 1 && 1 <= i <= s.n && hole <= s.m
    && PairedExcept(i, s.m, p, q, hole) && Untouched(s.p, p, depth, hole) && p[0] == s.p[0]
    && (tight ==> OnTightPath(s, f, hole, start) && TightExcept(s, p, hole))
  }

  /** The parent of a column on the path, and the edge between them. */
  lemma PathStep(s: State, f: Reach, i: nat, inf: real, way0: seq<nat>, stale: bool, start: nat, j0: nat)
    requires Chosen(s, f, i, inf, way0, stale, start) && 1 <= j0 <= s.m && OnTightPath(s, f, j0, start)
    ensures f.way[j0] <= s.m && OnTightPath(s, f, f.way[j0], start) && s.Slack(s.p[f.way[j0]], j0) == 0.0
  {
    hide State.Paired, State.Priced, State.FreshRows, State.Feasible, State.Raised;
    if !f.used[j0] {
      assert s.AtDistance(f, i, inf, j0);
    }
    assert s.Hangs(f, j0);
  }

  lemma UnwindStep(s: State, f: Reach, i: nat, inf: real, way0: seq<nat>, stale: bool, depth: seq<nat>, start: nat,
                   tight: bool, p: seq<nat>, q: seq<nat>, j0: nat)
    returns (q': seq<nat>)
    requires Chosen(s, f, i, inf, way0, stale, start) && Rooted(f.way, s.p, depth, s.m) && 1 <= j0
    requires Unwinding(s, f, i, depth, start, tight, p, q, j0)
    ensures f.way[j0] <= s.m && Unwinding(s, f, i, depth, start, tight, p[j0 := p[f.way[j0]]], q', f.way[j0])
    ensures |Lower(depth, f.way[j0])| < |Lower(depth, j0)|
  {
    hide State.Priced, State.FreshRows, State.Feasible, State.Raised, State.Tree, State.Front, State.Stage, State.Paired,
      State.Slack, OnTightPath, PairedExcept, TightExcept, Untouched;
    var j1 := f.way[j0];
    LowerShrinks(depth, j0, j1);
    UnwindReads(s.p, p, depth, j0, j1);
    assert s.p[j1] != 0;
    q' := q[p[j1] := j0];
    if tight {
      PathStep(s, f, i, inf, way0, stale, start, j0);
      UnwindTight(s, p, j0, j1);
    }
    UnwindPairs(i, s.m, p, q, j0, j1);
  }

  lemma UnwindReads(p0: seq<nat>, p: seq<nat>, depth: seq<nat>, j0: nat, j1: nat)
    requires |p0| == |p| == |depth| && j0 < |p| && j1 < |p| && depth[j1] < depth[j0] && Untouched(p0, p, depth, j0)
    ensures p[j1] == p0[j1] && (p0[j1] != 0 ==> Untouched(p0, p[j0 := p[j1]], depth, j1))
  {
  }

  lemma UnwindPairs(i: nat, m: nat, p: seq<nat>, q: seq<nat>, j0: nat, j1: nat)
    requires |p| == m + 1 && i < |q| && j0 <= m && j1 <= m && j0 != j1 && p[j1] != 0 && PairedExcept(i, m, p, q, j0)
    ensures p[j1] <= i && PairedExcept(i, m, p[j0 := p[j1]], q[p[j1] := j0], j1)
  {
  }

  lemma UnwindTight(s: State, p: seq<nat>, j0: nat, j1: nat)
    requires s.Sized() && |p| == s.m + 1 && 1 <= j0 <= s.m && j1 <= s.m && j0 != j1
    requires p[j1] == s.p[j1] && p[j1] <= s.n && s.Slack(s.p[j1], j0) == 0.0 && TightExcept(s, p, j0)
    ensures TightExcept(s, p[j0 := p[j1]], j1)
  {
    hide State.Slack;
  }

  /** The unwinding reaches the sentinel in at most m steps, having moved every row on the path one column on. */
  lemma {:induction false} UnwoundKeeps(s: State, f: Reach, i: nat, inf: real, way0: seq<nat>, stale: bool,
                                        depth: seq<nat>, start: nat, tight: bool, p: seq<nat>, q: seq<nat>, j0: nat,
                                        steps: nat)
    returns (q': seq<nat>)
    requires Chosen(s, f, i, inf, way0, stale, start) && Rooted(f.way, s.p, depth, s.m)
    requires Unwinding(s, f, i, depth, start, tight, p, q, j0) && |Lower(depth, j0)| <= steps
    requires forall k :: 0 <= k < |f.way| ==> f.way[k] < |p|
    ensures Unwinding(s, f, i, depth, start, tight, Unwound(p, f.way, j0, steps), q', 0)
    decreases steps
  {
    hide State.Priced, State.FreshRows, State.Feasible, State.Raised, State.Tree, State.Front, State.Stage, State.Paired,
      State.Slack, OnTightPath, PairedExcept, TightExcept, Untouched, Chosen, Lower;
    if j0 == 0 {
      q' := q;
    } else {
      q' := UnwindStep(s, f, i, inf, way0, stale, depth, start, tight, p, q, j0);
      q' := UnwoundKeeps(s, f, i, inf, way0, stale, depth, start, tight, p[j0 := p[f.way[j0]]], q', f.way[j0], steps - 1);
    }
  }

  // ------------------------------------------------------------------------------------------ rows

  /** After i rows: they sit in different columns under feasible potentials, and every path leads to the sentinel. */
  ghost predicate Kept(t: Problem, s: Search, q: seq<nat>, depth: seq<nat>, i: nat) {
    Fits(t, s) && StateOf(t, s.u, s.v, s.p, q).Assigned(i) && Rooted(s.way, s.p, depth, t.m)
  }

  /** Every pair is tight. */
  ghost predicate AllTight(t: Problem, u: seq<real>, v: seq<real>, p: seq<nat>, q: seq<nat>) {
    StateOf(t, u, v, p, q).Sized() && StateOf(t, u, v, p, q).Tight()
  }

  lemma EnterRow(t: Problem, s: Search, q: seq<nat>, depth: seq<nat>, i: nat)
    requires 1 <= i <= t.n && 0.0 < t.inf && Kept(t, s, q, depth, i - 1)
    ensures var p := s.p[0 := i]; var g := Enter(t, s); var f := Nothing(t.m, t.inf, s.way);
            var x := StateOf(t, s.u, s.v, p, q[i := 0]);
            && Ready(t, p, g) && x.Sizes(f) && f.used == g.used && f.way == g.way && f.minv == g.minv
            && Rooted(s.way, p, depth, t.m) && x.Phase(i) && x.u[i] == 0.0
            && (StateOf(t, s.u, s.v, s.p, q).Tight() ==> x.Tight())
  {
    var p := s.p[0 := i];
    var y, x := StateOf(t, s.u, s.v, s.p, q), StateOf(t, s.u, s.v, p, q[i := 0]);
    forall r, j | 1 <= r <= t.n && 1 <= j <= t.m ensures x.Slack(r, j) == y.Slack(r, j) {
    }
  }

  lemma PathStarts(s: State, f: Reach, i: nat, inf: real, way0: seq<nat>, stale: bool, start: nat, depth: seq<nat>)
    requires Chosen(s, f, i, inf, way0, stale, start) && s.p[start] == 0 && |depth| == s.m + 1
    ensures Unwinding(s, f, i, depth, start, s.Tight() && !stale, s.p, s.q, start)
  {
    hide State.Priced, State.FreshRows, State.Feasible, State.Raised, State.Front, State.Stage;
  }

  lemma NoneLost(s: State, f: Reach, i: nat, depth: seq<nat>, start: nat, tight: bool, p: seq<nat>, q: seq<nat>)
    requires Unwinding(s, f, i, depth, start, tight, p, q, 0)
    ensures |p| == |s.p| == s.m + 1 && forall j :: 1 <= j <= s.m && p[j] == 0 ==> s.p[j] == 0
  {
    hide OnTightPath, PairedExcept, TightExcept;
  }

  lemma RootedStays(way: seq<nat>, p: seq<nat>, p': seq<nat>, depth: seq<nat>, m: nat)
    requires Rooted(way, p, depth, m) && |p'| == m + 1 && forall j :: 1 <= j <= m && p'[j] == 0 ==> p[j] == 0
    ensures Rooted(way, p', depth, m)
  {
  }

  lemma FinishRow(t: Problem, g: Growth, p: seq<nat>, q: seq<nat>, f: Reach, i: nat, way0: seq<nat>, stale: bool,
                  depth: seq<nat>, p': seq<nat>, q': seq<nat>, tight: bool)
    requires var s := StateOf(t, g.u, g.v, p, q);
             && g.next >= 0 && Chosen(s, f, i, t.inf, way0, stale, g.next) && Unwinding(s, f, i, depth, g.next, tight, p', q', 0)
             && Rooted(f.way, p, depth, t.m) && f.way == g.way
    requires Fits(t, Search(g.u, g.v, p', g.way))
    ensures Kept(t, Search(g.u, g.v, p', g.way), q', depth, i)
    ensures tight ==> StateOf(t, g.u, g.v, p', q').Tight()
  {
    hide State.Raised, State.Front, State.Stage, State.Tree, OnTightPath, Rooted, Untouched;
    NoneLost(StateOf(t, g.u, g.v, p, q), f, i, depth, g.next, tight, p', q');
    RootedStays(f.way, p, p', depth, t.m);
    var s, x := StateOf(t, g.u, g.v, p, q), StateOf(t, g.u, g.v, p', q');
    forall r, j | 1 <= r <= t.n && 1 <= j <= t.m ensures x.Slack(r, j) == s.Slack(r, j) {
    }
    assert x.Paired(i, 1);
  }

  /** The search for row i, from the state the rows before it left. */
  lemma SearchKeeps(t: Problem, s: Search, q: seq<nat>, depth: seq<nat>, i: nat) returns (w: Reach, late: bool, top: nat)
    requires 1 <= i <= t.n && 0.0 < t.inf && Kept(t, s, q, depth, i - 1)
    ensures var p, q1 := s.p[0 := i], q[i := 0];
            && Ready(t, p, Enter(t, s))
            && var h := Grow(t, p, Enter(t, s));
            var y := StateOf(t, h.u, h.v, p, q1);
            && Fits(t, Search(h.u, h.v, p, h.way))
            && (h.next != -1 ==> Chosen(y, w, i, t.inf, s.way, late, h.next) && w.way == h.way
                                 && (AllTight(t, s.u, s.v, s.p, q) ==> AllTight(t, h.u, h.v, p, q1))
                                 && forall j :: 0 <= j <= t.m ==> w.rank[j] < top)
            && (Generous(t, i) ==> h.next != -1 && !late)
  {
    hide State.Paired, State.Priced, State.FreshRows, State.Feasible, State.Tight, State.Tree, State.Front, State.Stage,
      State.Phase, Generous, Chosen, Visited, Visit, Grow, Rooted, Enter, Nothing, Ready;
    var p, g, f := s.p[0 := i], Enter(t, s), Nothing(t.m, t.inf, s.way);
    EnterRow(t, s, q, depth, i);
    StartsUnvisited(t, s);
    VisitSentinel(StateOf(t, s.u, s.v, p, q[i := 0]), i, t.inf, s.way);
    w, late, top := GrowKeeps(t, p, q[i := 0], i, g, f, 0, s.way, false);
  }

  /** The path that the search found, unwound. */
  lemma PathKeeps(t: Problem, h: Growth, p: seq<nat>, q: seq<nat>, w: Reach, i: nat, way0: seq<nat>, late: bool, top: nat,
                  depth: seq<nat>)
    returns (q': seq<nat>, depth': seq<nat>)
    requires h.next >= 0 && Fits(t, Search(h.u, h.v, p, h.way)) && w.way == h.way && h.next <= t.m && p[h.next] == 0
    requires Chosen(StateOf(t, h.u, h.v, p, q), w, i, t.inf, way0, late, h.next) && Rooted(way0, p, depth, t.m)
    requires forall j :: 0 <= j <= t.m ==> w.rank[j] < top
    ensures var p' := Unwound(p, h.way, h.next, t.m + 1);
            && Kept(t, Search(h.u, h.v, p', h.way), q', depth', i)
            && (AllTight(t, h.u, h.v, p, q) && !late ==> AllTight(t, h.u, h.v, p', q'))
  {
    hide State.Paired, State.Priced, State.FreshRows, State.Feasible, State.Tight, State.Tree, State.Front, State.Stage,
      State.Phase, Chosen, Rooted, Unwound, Lower, Unwinding;
    var y := StateOf(t, h.u, h.v, p, q);
    ChosenSized(y, w, i, t.inf, way0, late, h.next);
    var tight := y.Tight() && !late;
    depth' := StaysRooted(y, w, i, t.inf, way0, late, h.next, depth, top);
    PathStarts(y, w, i, t.inf, way0, late, h.next, depth');
    LowerBounded(depth', h.next);
    q' := UnwoundKeeps(y, w, i, t.inf, way0, late, depth', h.next, tight, p, q, h.next, t.m + 1);
    UnwoundFits(t, Search(h.u, h.v, p, h.way), h.next, t.m + 1);
    FinishRow(t, h, p, q, w, i, way0, late, depth', Unwound(p, h.way, h.next, t.m + 1), q', tight);
  }

  lemma ChosenSized(s: State, f: Reach, i: nat, inf: real, way0: seq<nat>, stale: bool, j0: nat)
    requires Chosen(s, f, i, inf, way0, stale, j0)
    ensures s.Sized() && s.Sizes(f)
  {
  }

  lemma UnwoundFits(t: Problem, s: Search, j: nat, steps: nat)
    requires Fits(t, s) && j <= t.m
    ensures Fits(t, s.(p := Unwound(s.p, s.way, j, steps)))
  {
  }

  /** One row more. With enough cheap columns a column is found and tightness is kept. */
  lemma AugmentKeeps(t: Problem, s: Search, q: seq<nat>, depth: seq<nat>, i: nat) returns (q': seq<nat>, depth': seq<nat>)
    requires 1 <= i <= t.n && 0.0 < t.inf && Kept(t, s, q, depth, i - 1)
    ensures var r := Augment(t, s, i);
            && (r.Some? ==> Kept(t, r.value, q', depth', i))
            && (Generous(t, i) ==>
                  && r.Some? && (AllTight(t, s.u, s.v, s.p, q) ==> AllTight(t, r.value.u, r.value.v, r.value.p, q')))
  {
    hide AllTight, Generous, Chosen, Grow, Rooted, Unwound, Enter, Ready, State.Assigned, Kept, Fits, Columns;
    EnterFits(t, s, q, depth, i);
    var w, late, top := SearchKeeps(t, s, q, depth, i);
    var h := Grow(t, s.p[0 := i], Enter(t, s));
    q', depth' := q, depth;
    if h.next != -1 {
      q', depth' := PathKeeps(t, h, s.p[0 := i], q[i := 0], w, i, s.way, late, top, depth);
    }
  }

  lemma EnterFits(t: Problem, s: Search, q: seq<nat>, depth: seq<nat>, i: nat)
    requires 1 <= i <= t.n && Kept(t, s, q, depth, i - 1)
    ensures Fits(t, s.(p := s.p[0 := i])) && Rooted(s.way, s.p[0 := i], depth, t.m) && |q| == t.n + 1
    ensures Fits(t, s) && |s.p| == t.m + 1
  {
  }

  lemma StartsUnvisited(t: Problem, s: Search)
    ensures var g, f := Enter(t, s), Nothing(t.m, t.inf, s.way);
            && g.next == 0 && g.u == s.u && g.v == s.v && f.way == s.way && |f.rank| == t.m + 1
            && forall j :: 0 <= j <= t.m ==> f.rank[j] == 0
  {
  }

  lemma InitialKept(t: Problem) returns (q: seq<nat>, depth: seq<nat>)
    requires t.Sized()
    ensures var s := Initial(t); Kept(t, s, q, depth, 0) && AllTight(t, s.u, s.v, s.p, q)
  {
    q, depth := seq(t.n + 1, _ => 0), seq(t.m + 1, j => if j == 0 then 0 else 1);
  }

  /** On every input: after k rows, if none was refused, they sit in different columns under feasible potentials. When
      each of them has enough cheap columns, none is refused and the pairs are tight. */
  lemma {:induction false} RowsKeep(t: Problem, k: nat) returns (q: seq<nat>, depth: seq<nat>)
    requires t.Sized() && k <= t.n && 0.0 < t.inf
    ensures var r := Rows(t, k);
            && (r.Some? ==> Kept(t, r.value, q, depth, k))
            && ((forall i :: 1 <= i <= k ==> Generous(t, i)) ==>
                  r.Some? && AllTight(t, r.value.u, r.value.v, r.value.p, q))
  {
    hide Kept, Generous, AllTight, Augment, Initial;
    if k == 0 {
      q, depth := InitialKept(t);
    } else {
      q, depth := RowsKeep(t, k - 1);
      var before := Rows(t, k - 1);
      if before.Some? {
        q, depth := AugmentKeeps(t, before.value, q, depth, k);
      }
    }
  }
}
