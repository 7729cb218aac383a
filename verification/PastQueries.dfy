/** Time in the versioned index: when a call takes effect, and that later calls do not change answers about the past. */
module PastQueries {
  import opened Geometry
  import opened VersionedIndex

  /** The clock never goes back. */
  lemma {:induction false} ClockGrows(calls: seq<Call>, more: seq<Call>)
    ensures Clock(calls) <= Clock(calls + more)
  {
    if more == [] {
      assert calls + more == calls;
    } else {
      var init, c := more[..|more| - 1], more[|more| - 1];
      ClockGrows(calls, init);
      ReplayExtend(calls + init, c, 0);
      assert calls + more == (calls + init) + [c];
    }
  }

  /** A time before the last change shows the same zones after any further calls. */
  lemma {:induction false} PastIsFixed(calls: seq<Call>, more: seq<Call>, t: int)
    requires t < Clock(calls)
    ensures Replay(calls + more, t) == Replay(calls, t)
  {
    if more == [] {
      assert calls + more == calls;
    } else {
      var init, c := more[..|more| - 1], more[|more| - 1];
      PastIsFixed(calls, init, t);
      ClockGrows(calls, init);
      ReplayExtend(calls + init, c, t);
      assert calls + more == (calls + init) + [c];
    }
  }

  /** Makes the calls, one after the other. */
  method Perform(x: Index, more: seq<Call>)
    requires x.Valid()
    modifies x
    ensures x.Valid() && x.calls == old(x.calls) + more
  {
    hide Final, Clock, Replay, Index.Valid, OthersSame, Later;
    for i := 0 to |more|
      invariant x.Valid() && x.calls == old(x.calls) + more[..i]
    {
      assert more[..i + 1] == more[..i] + [more[i]];
      var ver;
      match more[i]
      case AddZone(id, box, validity, at) => ver := x.AddZone(id, box, validity, at);
      case RemoveZone(id, at) => ver := x.RemoveZone(id, at);
      case UpdateValidity(id, validity, at) => ver := x.UpdateValidity(id, validity, at);
    }
    assert more[..|more|] == more;
  }

  /** Two lists of the same elements, each once. */
  ghost predicate SameElements(a: seq<nat>, b: seq<nat>) {
    Distinct(a) && Distinct(b) && forall id :: id in a <==> id in b
  }

  /** What the index answered about a time before its last change, it answers again after any further calls: the zones
      in a box, the zones in force, and the validity of a zone. */
  method AskTwice(x: Index, t: int, box: Box, id: nat, more: seq<Call>)
    returns (before: seq<nat>, activeBefore: seq<nat>, after: seq<nat>, activeAfter: seq<nat>, sameValidity: bool)
    requires x.Valid() && t < Clock(x.calls)
    modifies x
    ensures SameElements(before, after) && SameElements(activeBefore, activeAfter) && sameValidity
  {
    hide Replay, Clock, Index.Valid;
    ghost var calls := x.calls;
    before := x.QueryAt(t, box);
    activeBefore := x.ActiveZonesAt(t);
    var v := x.ValidityAt(id, t);
    Perform(x, more);
    PastIsFixed(calls, more, t);
    after := x.QueryAt(t, box);
    activeAfter := x.ActiveZonesAt(t);
    var w := x.ValidityAt(id, t);
    sameValidity := v == w;
  }

  // -------------------------------------------------------------------------- when calls take effect

  /** The call at position k changed something. */
  ghost predicate TookEffect(calls: seq<Call>, k: nat)
    requires k < |calls|
  {
    Effective(Final(calls[..k]), calls[k])
  }

  /** The clock is the latest time of a call that took effect, or zero. */
  lemma {:induction false} ClockIsLatest(calls: seq<Call>)
    ensures Clock(calls) >= 0 && forall k :: 0 <= k < |calls| && TookEffect(calls, k) ==> calls[k].at <= Clock(calls)
    ensures Clock(calls) == 0 || exists k :: 0 <= k < |calls| && TookEffect(calls, k) && calls[k].at == Clock(calls)
  {
    hide Final;
    if calls != [] {
      var n := |calls| - 1;
      var before := calls[..n];
      ClockIsLatest(before);
      assert forall k :: 0 <= k < n ==> before[..k] == calls[..k];
      assert forall k :: 0 <= k < n ==> (TookEffect(before, k) <==> TookEffect(calls, k));
      if Clock(calls) == Clock(before) && Clock(before) != 0 {
        var k :| 0 <= k < n && TookEffect(before, k) && before[k].at == Clock(before);
        assert TookEffect(calls, k) && calls[k].at == Clock(calls);
      }
      assert calls[..n] == before;
      if TookEffect(calls, n) && Clock(calls) != Clock(before) {
        assert calls[n].at == Clock(calls);
      }
    }
  }

  /** A call takes effect at its own time or, when something was committed later than that, at the time of the last
      commit; before, nothing changes. */
  lemma TakesEffect(calls: seq<Call>, c: Call, t: int)
    ensures c.at >= Clock(calls) ==> Replay(calls + [c], t) == if c.at <= t then Final(calls + [c]) else Replay(calls, t)
    ensures c.at < Clock(calls) ==> Replay(calls + [c], t) == if Clock(calls) <= t then Final(calls + [c]) else Replay(calls, t)
  {
    hide Final, Replay, Clock;
    ReplayExtend(calls, c, t);
    ClockIsLatest(calls);
    if Clock(calls) <= t {
      ReplayCaughtUp(calls, t);
    }
  }

  /** A zone added no earlier than the last commit is found from its own time on, where it is in force and meets the box,
      and not before that unless it was there already. */
  method AddThenAsk(x: Index, id: nat, box: Box, validity: Validity, at: int, t: int, q: Box) returns (before: seq<nat>, after: seq<nat>)
    requires x.Valid() && at >= Clock(x.calls)
    modifies x
    ensures at <= t ==> (id in after <==> validity.ActiveAt(t) && Intersects(box, q))
    ensures t < at ==> SameElements(before, after)
  {
    hide Replay, Clock, Final, Index.Valid, Intersects;
    ghost var calls := x.calls;
    before := x.QueryAt(t, q);
    var ver := x.AddZone(id, box, validity, at);
    TakesEffect(calls, Call.AddZone(id, box, validity, at), t);
    after := x.QueryAt(t, q);
  }
}
