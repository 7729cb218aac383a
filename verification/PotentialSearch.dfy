/**
 The run of the Hungarian method as functions of its state: one scan, one potential update, the growth of the
 alternating tree, the unwinding of the path, one row, all rows. Rows and columns are 1-indexed, as in the source:
 column 0 is the sentinel that carries the row being added. The sentinel value for an unknown distance is a number,
 inf, so the model also says what happens when costs come near it.
 */
module PotentialSearch {
  import opened Counting
  import opened Wrappers

  /** A padded cost matrix and the value that stands for an unknown distance. */
  datatype Problem = Problem(a: seq<seq<real>>, n: nat, m: nat, inf: real) {
    ghost predicate Sized() {
      |a| == n + 1 && forall r :: 0 <= r <= n ==> |a[r]| == m + 1
    }
  }

  /** What one row hands to the next: potentials, the row of each column, and the parents of the last searches. */
  datatype Search = Search(u: seq<real>, v: seq<real>, p: seq<nat>, way: seq<nat>)

  /** The state of the search for one row: next is the column to visit next, -1 when none is nearer than inf. */
  datatype Growth = Growth(u: seq<real>, v: seq<real>, way: seq<nat>, minv: seq<real>, used: seq<bool>, next: int)

  ghost predicate Columns(t: Problem, p: seq<nat>, way: seq<nat>) {
    |p| == |way| == t.m + 1 && forall j :: 0 <= j <= t.m ==> p[j] <= t.n && way[j] <= t.m
  }

  ghost predicate Fits(t: Problem, s: Search) {
    t.Sized() && |s.u| == t.n + 1 && |s.v| == t.m + 1 && Columns(t, s.p, s.way)
  }

  ghost predicate Ready(t: Problem, p: seq<nat>, g: Growth) {
    && t.Sized() && |g.u| == t.n + 1 && |g.v| == |g.minv| == |g.used| == t.m + 1 && Columns(t, p, g.way)
    && 0 <= g.next <= t.m && !g.used[g.next]
  }

  // ------------------------------------------------------------------------------------------- one step

  /** The reduced cost of column j for the row in the visited column. */
  function Look(t: Problem, p: seq<nat>, g: Growth, j: nat): real
    requires Ready(t, p, g) && j <= t.m
  {
    t.a[p[g.next]][j] - g.u[p[g.next]] - g.v[j]
  }

  predicate Improves(t: Problem, p: seq<nat>, g: Growth, j: nat)
    requires Ready(t, p, g) && j <= t.m
  {
    1 <= j && j != g.next && !g.used[j] && Look(t, p, g, j) < g.minv[j]
  }

  function ScanWay(t: Problem, p: seq<nat>, g: Growth): seq<nat>
    requires Ready(t, p, g)
  {
    seq(t.m + 1, j requires 0 <= j <= t.m => if Improves(t, p, g, j) then g.next else g.way[j])
  }

  function ScanMinv(t: Problem, p: seq<nat>, g: Growth): seq<real>
    requires Ready(t, p, g)
  {
    seq(t.m + 1, j requires 0 <= j <= t.m => if Improves(t, p, g, j) then Look(t, p, g, j) else g.minv[j])
  }

  /** The nearest unused column among 1..k, the first among equals, if one is nearer than inf. */
  function Closest(used: seq<bool>, minv: seq<real>, inf: real, k: nat): (r: (real, int))
    requires |used| == |minv| && k < |used|
    ensures r.1 == -1 ==> r.0 == inf && forall j :: 1 <= j <= k && !used[j] ==> minv[j] >= inf
    ensures r.1 != -1 ==> 1 <= r.1 <= k && !used[r.1] && r.0 == minv[r.1] < inf
                          && forall j :: 1 <= j <= k && !used[j] ==> r.0 <= minv[j]
  {
    if k == 0 then (inf, -1)
    else
      var best := Closest(used, minv, inf, k - 1);
      if !used[k] && minv[k] < best.0 then (minv[k], k) else best
  }

  /** The potentials of the rows in the used columns among the first k, raised by delta. */
  function Raised(u: seq<real>, p: seq<nat>, used: seq<bool>, delta: real, k: nat): (r: seq<real>)
    requires k <= |p| == |used| && forall j :: 0 <= j < |p| ==> p[j] < |u|
    ensures |r| == |u|
  {
    if k == 0 then u
    else
      var w := Raised(u, p, used, delta, k - 1);
      if used[k - 1] then w[p[k - 1] := w[p[k - 1]] + delta] else w
  }

  function Lowered(v: seq<real>, used: seq<bool>, delta: real): seq<real>
    requires |v| == |used|
  {
    seq(|v|, j requires 0 <= j < |v| => if used[j] then v[j] - delta else v[j])
  }

  function Nearer(minv: seq<real>, used: seq<bool>, delta: real): seq<real>
    requires |minv| == |used|
  {
    seq(|minv|, j requires 0 <= j < |minv| => if used[j] then minv[j] else minv[j] - delta)
  }

  /** Visits the next column: scan, choose the nearest unused column, update the potentials. */
  function Step(t: Problem, p: seq<nat>, g: Growth): (r: Growth)
    requires Ready(t, p, g)
    ensures r.next == -1 || Ready(t, p, r)
    ensures |r.u| == t.n + 1 && |r.v| == t.m + 1 && Columns(t, p, r.way) && |r.used| == t.m + 1
    ensures r.used == g.used[g.next := true] && Unseen(r.used) < Unseen(g.used)
  {
    Mark(g.used, g.next);
    var used, minv := g.used[g.next := true], ScanMinv(t, p, g);
    var nearest := Closest(used, minv, t.inf, t.m);
    Growth(Raised(g.u, p, used, nearest.0, t.m + 1), Lowered(g.v, used, nearest.0), ScanWay(t, p, g),
           Nearer(minv, used, nearest.0), used, nearest.1)
  }

  /** Visits columns until the nearest one is free, or none is nearer than inf. */
  function Grow(t: Problem, p: seq<nat>, g: Growth): (r: Growth)
    requires Ready(t, p, g)
    ensures |r.u| == t.n + 1 && |r.v| == t.m + 1 && Columns(t, p, r.way)
    ensures r.next == -1 || (1 <= r.next <= t.m && p[r.next] == 0)
    decreases Unseen(g.used)
  {
    var h := Step(t, p, g);
    if h.next == -1 || p[h.next] == 0 then h else Grow(t, p, h)
  }

  // ------------------------------------------------------------------------------------------- one row

  /** Moves rows along the parents from column j for at most so many steps, until the sentinel. */
  function Unwound(p: seq<nat>, way: seq<nat>, j: nat, steps: nat): (r: seq<nat>)
    requires |p| == |way| && j < |p| && forall k :: 0 <= k < |way| ==> way[k] < |p|
    ensures |r| == |p| && forall k :: 0 <= k < |r| ==> r[k] in p
    decreases steps
  {
    if j == 0 || steps == 0 then p else Unwound(p[j := p[way[j]]], way, way[j], steps - 1)
  }

  function Enter(t: Problem, s: Search): Growth {
    Growth(s.u, s.v, s.way, seq(t.m + 1, _ => t.inf), seq(t.m + 1, _ => false), 0)
  }

  /** One row joins the assignment, unless no column is nearer than inf. */
  function Augment(t: Problem, s: Search, i: nat): (r: Option<Search>)
    requires Fits(t, s) && 1 <= i <= t.n
    ensures r.Some? ==> Fits(t, r.value)
  {
    var p := s.p[0 := i];
    var g := Grow(t, p, Enter(t, s));
    if g.next == -1 then None else Some(Search(g.u, g.v, Unwound(p, g.way, g.next, t.m + 1), g.way))
  }

  function Initial(t: Problem): Search {
    Search(seq(t.n + 1, _ => 0.0), seq(t.m + 1, _ => 0.0), seq(t.m + 1, _ => 0), seq(t.m + 1, _ => 0))
  }

  /** The state after k rows; nothing if one of them found no column. */
  function Rows(t: Problem, k: nat): (r: Option<Search>)
    requires t.Sized() && k <= t.n
    ensures r.Some? ==> Fits(t, r.value)
  {
    if k == 0 then Some(Initial(t))
    else
      var before := Rows(t, k - 1);
      if before.None? then None else Augment(t, before.value, k)
  }
}
