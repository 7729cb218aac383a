/** Runs of unions and rollbacks: whatever happens after a snapshot, rolling back to it restores the structure. */
module RollbackRuns {
  import opened Connectivity
  import opened RollbackDSU

  datatype Op = Join(x: nat, y: nat) | Back(mark: nat)

  /** What determines the structure: the undo stack, and with it the edges of the unions it holds. */
  datatype Session = Session(log: seq<Undo>, edges: seq<Edge>)

  ghost predicate Good(n: nat, s: Session) {
    History(n, s.log, s.edges) && LogOk(n, s.log)
  }

  ghost predicate InRange(n: nat, op: Op) {
    op.Join? ==> op.x < n && op.y < n
  }

  /** A union of two classes adds its record; a rollback keeps the records before the mark. */
  ghost function Perform(n: nat, s: Session, op: Op): (r: Session)
    requires Good(n, s) && InRange(n, op)
    ensures Good(n, r)
  {
    match op
    case Join(x, y) =>
      HistoryNow(n, s.log, s.edges);
      var f := Built(n, s.log);
      if Root(f, n, x) == Root(f, n, y) then s
      else
        JoinIsGood(n, s, x, y);
        Session(s.log + [UnionOf(f, n, x, y)], s.edges + [(x, y)])
    case Back(mark) =>
      if |s.log| <= mark then s
      else
        CutIsGood(n, s, mark);
        Session(s.log[..mark], s.edges[..mark])
  }

  lemma JoinIsGood(n: nat, s: Session, x: nat, y: nat)
    requires Good(n, s) && x < n && y < n && Ranked(Built(n, s.log), n)
    requires Root(Built(n, s.log), n, x) != Root(Built(n, s.log), n, y)
    ensures Good(n, Session(s.log + [UnionOf(Built(n, s.log), n, x, y)], s.edges + [(x, y)]))
  {
    hide Root, Members, Connected, Reflects, Sized, History, Link, Built, LogOk;
    HistoryNow(n, s.log, s.edges);
    var f := Built(n, s.log);
    var u := UnionOf(f, n, x, y);
    RootIsRoot(f, n, x);
    RootIsRoot(f, n, y);
    RootsJoin(f, n, u);
    LinkSound(f, n, u, s.edges, x, y);
    LogGrows(n, s.log, u);
    HistoryGrows(n, s.log, s.edges, u, (x, y));
  }

  lemma LogGrows(n: nat, log: seq<Undo>, u: Undo)
    requires LogOk(n, log) && Joins(Built(n, log), n, u)
    ensures LogOk(n, log + [u])
  {
    assert (log + [u])[..|log|] == log;
  }

  lemma CutIsGood(n: nat, s: Session, mark: nat)
    requires Good(n, s) && mark <= |s.log|
    ensures |s.edges| == |s.log| && Good(n, Session(s.log[..mark], s.edges[..mark]))
  {
    hide Sound, Built, LogOk;
    assert LogOk(n, s.log[..mark]);
    forall k | 0 <= k <= mark ensures s.log[..mark][..k] == s.log[..k] && s.edges[..mark][..k] == s.edges[..k] {
    }
  }

  ghost function Performed(n: nat, s: Session, ops: seq<Op>): (r: Session)
    requires Good(n, s) && forall k :: 0 <= k < |ops| ==> InRange(n, ops[k])
    ensures Good(n, r)
  {
    if ops == [] then s else Perform(n, Performed(n, s, ops[..|ops| - 1]), ops[|ops| - 1])
  }

  /** No operation rolls back beyond the mark. */
  ghost predicate StaysAbove(ops: seq<Op>, mark: nat) {
    forall k :: 0 <= k < |ops| && ops[k].Back? ==> mark <= ops[k].mark
  }

  /** The records below the mark survive every run that stays above it. */
  lemma {:induction false} PrefixSurvives(n: nat, s: Session, ops: seq<Op>, mark: nat)
    requires Good(n, s) && (forall k :: 0 <= k < |ops| ==> InRange(n, ops[k])) && mark <= |s.log| && StaysAbove(ops, mark)
    ensures var r := Performed(n, s, ops);
            && mark <= |r.log| == |r.edges| && |s.edges| == |s.log|
            && r.log[..mark] == s.log[..mark] && r.edges[..mark] == s.edges[..mark]
  {
    hide Sound, Built, LogOk, Root, UnionOf;
    if ops != [] {
      PrefixSurvives(n, s, ops[..|ops| - 1], mark);
    }
  }

  /**
   Whatever unions and nested rollbacks happen after a snapshot, rolling back to it restores the undo stack, the edges,
   and with them every parent, rank, size and the number of components.
   */
  lemma RollbackRestores(n: nat, s: Session, ops: seq<Op>)
    requires Good(n, s) && (forall k :: 0 <= k < |ops| ==> InRange(n, ops[k])) && StaysAbove(ops, |s.log|)
    ensures var r := Perform(n, Performed(n, s, ops), Back(|s.log|));
            r == s && Built(n, r.log) == Built(n, s.log)
  {
    hide Sound, Built, LogOk;
    PrefixSurvives(n, s, ops, |s.log|);
    assert s.log[..|s.log|] == s.log && s.edges[..|s.edges|] == s.edges;
  }

  /** Performs a run on the structure. */
  method Execute(d: Sets, ops: seq<Op>)
    requires d.Valid() && forall k :: 0 <= k < |ops| ==> InRange(d.n, ops[k])
    modifies d
    ensures d.Valid() && Good(d.n, old(Session(d.undo, d.edges)))
    ensures Session(d.undo, d.edges) == Performed(d.n, old(Session(d.undo, d.edges)), ops)
  {
    hide History, LogOk, Built, UnionOf, Root, Connected;
    ghost var start := Session(d.undo, d.edges);
    for i := 0 to |ops|
      invariant d.Valid() && Session(d.undo, d.edges) == Performed(d.n, start, ops[..i])
    {
      assert ops[..i + 1][..i] == ops[..i];
      match ops[i]
      case Join(x, y) =>
        var joined := d.Unite(x, y);
      case Back(mark) =>
        d.RollbackTo(mark);
    }
    assert ops[..|ops|] == ops;
  }

  /** A snapshot, a run that stays above it, and the rollback: the structure is what it was. */
  method ExecuteAndRollBack(d: Sets, ops: seq<Op>)
    requires d.Valid() && (forall k :: 0 <= k < |ops| ==> InRange(d.n, ops[k])) && StaysAbove(ops, d.Snapshot())
    modifies d
    ensures d.Valid() && d.View() == old(d.View()) && d.undo == old(d.undo) && d.edges == old(d.edges)
  {
    hide History, LogOk, Built;
    ghost var start := Session(d.undo, d.edges);
    var mark := d.Snapshot();
    Execute(d, ops);
    PrefixSurvives(d.n, start, ops, mark);
    d.RollbackTo(mark);
    assert start.log[..mark] == start.log && start.edges[..mark] == start.edges;
  }
}
