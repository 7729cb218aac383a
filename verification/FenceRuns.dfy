/** Whole runs of fixes for one tourist: what the events say about each zone, whatever the index and the other zones. */
module FenceRuns {
  import opened Evaluator
  import opened Hysteresis
  import opened Sorting
  import opened Wrappers

  // ------------------------------------------------------------------------------- one zone at a time

  /** How one fix sees one zone. */
  datatype Sight = Returned(z: ZoneView) | Missed(z: ZoneView) | Closed

  function SightOf(fix: Fix, zone: nat): Sight {
    if !InForce(fix, zone) then Closed
    else if zone in fix.candidates then Returned(fix.zones[zone])
    else Missed(fix.zones[zone])
  }

  /** What a fix does to the state of one zone, and the events it raises about it. */
  function StepZone(s: Option<ZoneState>, zone: nat, sight: Sight, at: int, cfg: Config, epoch: nat)
    : (Option<ZoneState>, seq<Event>)
  {
    match sight
    case Closed =>
      (None, if s.Some? && s.value.confirmed == Inside then [Event(ZoneExit, zone, at, 0.0, Outside)] else [])
    case Returned(z) =>
      var (st, es) := Examine(OrFresh(s, zone), z, at, cfg, epoch);
      (Some(st), es)
    case Missed(z) =>
      if s.None? then (None, [])
      else
        var (st, es) := Observe(s.value, Observation(Outside, z.boxDistance, at, Margins(cfg, z)));
        (if st.confirmed == Outside && st.hyst.phase == AtOutside then None else Some(st), es)
  }

  ghost predicate DistinctZones(states: seq<ZoneState>) {
    forall i, j :: 0 <= i < j < |states| ==> states[i].zone != states[j].zone
  }

  /** One state per zone, all seen before the epoch. */
  ghost predicate Tidy(states: seq<ZoneState>, epoch: nat) {
    DistinctZones(states) && forall i :: 0 <= i < |states| ==> states[i].seenEpoch < epoch
  }

  function EventsOf(events: seq<Event>, zone: nat): seq<Event> {
    if events == [] then []
    else
      var rest, e := EventsOf(events[..|events| - 1], zone), events[|events| - 1];
      if e.zone == zone then rest + [e] else rest
  }

  ghost predicate About(events: seq<Event>, zone: nat) {
    forall i :: 0 <= i < |events| ==> events[i].zone == zone
  }

  lemma {:induction false} EventsOfJoin(a: seq<Event>, b: seq<Event>, zone: nat)
    ensures EventsOf(a + b, zone) == EventsOf(a, zone) + EventsOf(b, zone)
  {
    if b == [] {
      assert a + b == a;
    } else {
      var init := b[..|b| - 1];
      EventsOfJoin(a, init, zone);
      assert (a + b)[..|a + b| - 1] == a + init;
    }
  }

  lemma {:induction false} EventsAbout(events: seq<Event>, mine: nat, zone: nat)
    requires About(events, mine)
    ensures EventsOf(events, zone) == if mine == zone then events else []
  {
    if events != [] {
      EventsAbout(events[..|events| - 1], mine, zone);
    }
  }

  lemma StepsAreAbout(st: ZoneState, fix: Fix, z: ZoneView, cfg: Config, epoch: nat)
    ensures About(Examine(st, z, fix.at, cfg, epoch).1, st.zone) && About(ReconcileOne(st, fix, cfg, epoch).1, st.zone)
    ensures ReconcileOne(st, fix, cfg, epoch).0.Some? ==>
              ReconcileOne(st, fix, cfg, epoch).0.value.zone == st.zone
              && ReconcileOne(st, fix, cfg, epoch).0.value.seenEpoch == st.seenEpoch
  {
    hide Next;
  }

  lemma StateOfMeans(states: seq<ZoneState>, zone: nat)
    ensures StateOf(states, zone).Some? ==> StateOf(states, zone).value in states && StateOf(states, zone).value.zone == zone
    ensures StateOf(states, zone).None? <==> forall i :: 0 <= i < |states| ==> states[i].zone != zone
  {
    var k := Find(states, zone);
    if k < |states| {
      assert states[k] in states;
    }
  }

  lemma StateOfIs(states: seq<ZoneState>, st: ZoneState)
    requires DistinctZones(states) && st in states
    ensures StateOf(states, st.zone) == Some(st)
  {
    hide Find;
    StateOfMeans(states, st.zone);
  }

  lemma PutFinds(states: seq<ZoneState>, st: ZoneState, zone: nat)
    requires DistinctZones(states)
    ensures DistinctZones(Put(states, st))
    ensures StateOf(Put(states, st), zone) == if zone == st.zone then Some(st) else StateOf(states, zone)
  {
    hide Find;
    var after := Put(states, st);
    var k := Find(states, st.zone);
    assert after[k] == st;
    StateOfIs(after, st);
    StateOfMeans(after, zone);
    StateOfMeans(states, zone);
    if zone != st.zone && StateOf(states, zone).Some? {
      var v := StateOf(states, zone).value;
      var i :| 0 <= i < |states| && states[i] == v;
      assert after[i] == v;
      StateOfIs(after, v);
    }
  }

  ghost predicate DistinctIds(ids: seq<nat>) {
    forall i, j :: 0 <= i < j < |ids| ==> ids[i] != ids[j]
  }

  lemma {:induction false} ExaminedZone(states: seq<ZoneState>, ids: seq<nat>, fix: Fix, cfg: Config, epoch: nat, zone: nat)
    requires DistinctZones(states) && DistinctIds(ids)
    ensures var o := Examined(states, ids, fix, cfg, epoch);
            var step := if InForce(fix, zone) then Examine(OrFresh(StateOf(states, zone), zone), fix.zones[zone], fix.at, cfg, epoch) else (FreshState(zone), []);
            && DistinctZones(o.states)
            && StateOf(o.states, zone) == (if zone in ids && InForce(fix, zone) then Some(step.0) else StateOf(states, zone))
            && EventsOf(o.events, zone) == if zone in ids && InForce(fix, zone) then step.1 else []
  {
    hide Examine, Put, StateOf;
    if ids != [] {
      var init, id := ids[..|ids| - 1], ids[|ids| - 1];
      ExaminedZone(states, init, fix, cfg, epoch, zone);
      if InForce(fix, id) {
        var o := Examined(states, init, fix, cfg, epoch);
        var was := OrFresh(StateOf(o.states, id), id);
        OrFreshZone(o.states, id);
        ExamineKeepsZone(was, fix.zones[id], fix.at, cfg, epoch);
        StepsAreAbout(was, fix, fix.zones[id], cfg, epoch);
        var (st, es) := Examine(was, fix.zones[id], fix.at, cfg, epoch);
        PutFinds(o.states, st, zone);
        EventsOfJoin(o.events, es, zone);
        EventsAbout(es, id, zone);
      }
      assert ids == init + [id];
    }
  }

  lemma OrFreshZone(states: seq<ZoneState>, zone: nat)
    ensures OrFresh(StateOf(states, zone), zone).zone == zone
  {
    hide Find;
  }

  /** A zone without a state has none afterwards. */
  lemma {:induction false} ReconciledZone(states: seq<ZoneState>, fix: Fix, cfg: Config, epoch: nat, zone: nat)
    requires DistinctZones(states)
    ensures var o := Reconciled(states, fix, cfg, epoch);
            && DistinctZones(o.states) && (forall st :: st in o.states ==> exists i :: 0 <= i < |states| && states[i].zone == st.zone && states[i].seenEpoch == st.seenEpoch)
            && (StateOf(states, zone).None? ==> StateOf(o.states, zone).None? && EventsOf(o.events, zone) == [])
            && (StateOf(states, zone).Some? ==>
                  var step := ReconcileOne(StateOf(states, zone).value, fix, cfg, epoch);
                  StateOf(o.states, zone) == step.0 && EventsOf(o.events, zone) == step.1)
  {
    hide ReconcileOne, StateOf, Find;
    if states == [] {
      StateOfMeans([], zone);
    } else {
      var init, last := states[..|states| - 1], states[|states| - 1];
      ReconciledZone(init, fix, cfg, epoch, zone);
      var o := Reconciled(init, fix, cfg, epoch);
      var (s, es) := ReconcileOne(last, fix, cfg, epoch);
      StepsAreAbout(last, fix, ZoneView(false, Outside, 0.0, 0.0, 0.0, 0.0, 0, false), cfg, epoch);
      EventsOfJoin(o.events, es, zone);
      EventsAbout(es, last.zone, zone);
      ReconciledOneMore(states, o, s, zone);
    }
  }

  /** The last state kept or dropped, for one zone. */
  lemma ReconciledOneMore(states: seq<ZoneState>, o: Outcome, s: Option<ZoneState>, zone: nat)
    requires states != [] && DistinctZones(states) && DistinctZones(o.states)
    requires s.Some? ==> s.value.zone == states[|states| - 1].zone
    requires forall st :: st in o.states ==>
               exists i :: 0 <= i < |states| - 1 && states[i].zone == st.zone && states[i].seenEpoch == st.seenEpoch
    ensures var after := if s.Some? then o.states + [s.value] else o.states;
            var init, last := states[..|states| - 1], states[|states| - 1];
            && DistinctZones(after)
            && StateOf(after, zone) == (if zone == last.zone then s else StateOf(o.states, zone))
            && StateOf(states, zone) == (if zone == last.zone then Some(last) else StateOf(init, zone))
            && (zone == last.zone ==> StateOf(init, zone).None?)
  {
    hide Find, StateOf;
    var after := if s.Some? then o.states + [s.value] else o.states;
    var init, last := states[..|states| - 1], states[|states| - 1];
    assert states == init + [last];
    assert DistinctZones(after) by {
      forall i | 0 <= i < |o.states| ensures o.states[i].zone != last.zone {
        assert o.states[i] in o.states;
      }
    }
    LastState(o.states, s, zone, last.zone);
    LastState(init, Some(last), zone, last.zone);
    StateOfMeans(init, zone);
  }

  lemma LastState(states: seq<ZoneState>, s: Option<ZoneState>, zone: nat, mine: nat)
    requires DistinctZones(states) && (s.Some? ==> s.value.zone == mine) && forall i :: 0 <= i < |states| ==> states[i].zone != mine
    ensures var after := if s.Some? then states + [s.value] else states;
            StateOf(after, zone) == if zone == mine then s else StateOf(states, zone)
  {
    hide Find, StateOf;
    var after := if s.Some? then states + [s.value] else states;
    StateOfMeans(after, zone);
    StateOfMeans(states, zone);
    if zone == mine {
      if s.Some? { assert s.value in after; StateOfIs(after, s.value); }
    } else if StateOf(states, zone).Some? {
      assert StateOf(states, zone).value in after;
      StateOfIs(after, StateOf(states, zone).value);
    }
  }

  lemma SortedCandidates(fix: Fix)
    requires DistinctIds(fix.candidates)
    ensures var ids := Sort(fix.candidates, AtMost);
            DistinctIds(ids) && forall x :: x in ids <==> x in fix.candidates
  {
    hide Sort;
    SortPermutes(fix.candidates, AtMost);
    DistinctPermuted(fix.candidates, Sort(fix.candidates, AtMost));
  }

  lemma DistinctPermuted(a: seq<nat>, b: seq<nat>)
    requires multiset(a) == multiset(b) && DistinctIds(a)
    ensures DistinctIds(b)
  {
    forall i, j | 0 <= i < j < |b| ensures b[i] != b[j] {
      if b[i] == b[j] {
        OftenIn(b, i, j);
        OnceIn(a, b[i]);
      }
    }
  }

  lemma OftenIn(b: seq<nat>, i: nat, j: nat)
    requires i < j < |b| && b[i] == b[j]
    ensures multiset(b)[b[i]] >= 2
  {
    assert b == b[..j] + b[j..];
    assert b[i] in b[..j] && b[j] in b[j..];
  }

  lemma {:induction false} OnceIn(a: seq<nat>, x: nat)
    requires DistinctIds(a)
    ensures multiset(a)[x] <= 1
  {
    if a != [] {
      var init := a[..|a| - 1];
      OnceIn(init, x);
      assert a == init + [a[|a| - 1]];
      assert a[|a| - 1] !in init;
    }
  }

  /** The projection on one zone: what happens to it depends on nothing else. */
  lemma EvaluatedZone(states: seq<ZoneState>, fix: Fix, cfg: Config, epoch: nat, zone: nat)
    requires fix.usable && DistinctIds(fix.candidates) && Tidy(states, epoch)
    ensures var o := Evaluated(states, fix, cfg, epoch);
            var step := StepZone(StateOf(states, zone), zone, SightOf(fix, zone), fix.at, cfg, epoch);
            StateOf(o.states, zone) == step.0 && EventsOf(o.events, zone) == step.1
  {
    hide Examine, Observe, Find, StateOf, Sort, Examined, Reconciled;
    SortedCandidates(fix);
    var ids := Sort(fix.candidates, AtMost);
    ExaminedZone(states, ids, fix, cfg, epoch, zone);
    var c := Examined(states, ids, fix, cfg, epoch);
    ReconciledZone(c.states, fix, cfg, epoch, zone);
    EventsOfJoin(c.events, Reconciled(c.states, fix, cfg, epoch).events, zone);
    StateOfMeans(states, zone);
    if InForce(fix, zone) {
      ExamineKeepsZone(OrFresh(StateOf(states, zone), zone), fix.zones[zone], fix.at, cfg, epoch);
    }
    assert StateOf(states, zone).Some? ==> StateOf(states, zone).value.seenEpoch < epoch;
  }

  /** After a fix there is still one state per zone, and all of them have been seen. */
  lemma EvaluatedTidy(states: seq<ZoneState>, fix: Fix, cfg: Config, epoch: nat)
    requires fix.usable && DistinctIds(fix.candidates) && Tidy(states, epoch)
    ensures Tidy(Evaluated(states, fix, cfg, epoch).states, epoch + 1)
  {
    hide Examine, Find, StateOf, Sort, Examined, Reconciled;
    SortedCandidates(fix);
    var ids := Sort(fix.candidates, AtMost);
    var c := Examined(states, ids, fix, cfg, epoch);
    ExaminedZone(states, ids, fix, cfg, epoch, 0);
    assert SeenBy(states, epoch);
    ExaminedSeen(states, ids, fix, cfg, epoch);
    ReconciledZone(c.states, fix, cfg, epoch, 0);
    var r := Reconciled(c.states, fix, cfg, epoch);
    forall i | 0 <= i < |r.states| ensures r.states[i].seenEpoch < epoch + 1 {
      assert r.states[i] in r.states;
    }
  }

  ghost predicate SeenBy(states: seq<ZoneState>, epoch: nat) {
    forall i :: 0 <= i < |states| ==> states[i].seenEpoch <= epoch
  }

  lemma PutSeen(states: seq<ZoneState>, st: ZoneState, epoch: nat)
    requires st.seenEpoch <= epoch && SeenBy(states, epoch)
    ensures SeenBy(Put(states, st), epoch)
  {
    hide Find;
  }

  lemma {:induction false} ExaminedSeen(states: seq<ZoneState>, ids: seq<nat>, fix: Fix, cfg: Config, epoch: nat)
    requires SeenBy(states, epoch)
    ensures SeenBy(Examined(states, ids, fix, cfg, epoch).states, epoch)
  {
    hide Examine, StateOf, Find, Put, SeenBy;
    if ids != [] {
      var init, id := ids[..|ids| - 1], ids[|ids| - 1];
      ExaminedSeen(states, init, fix, cfg, epoch);
      if InForce(fix, id) {
        var o := Examined(states, init, fix, cfg, epoch);
        var was := OrFresh(StateOf(o.states, id), id);
        ExamineKeepsZone(was, fix.zones[id], fix.at, cfg, epoch);
        PutSeen(o.states, Examine(was, fix.zones[id], fix.at, cfg, epoch).0, epoch);
      }
    }
  }

  // --------------------------------------------------------------------------------------------- runs

  /** The open states, the epoch and all events after a run of fixes: what repeated evaluation computes. */
  datatype Track = Track(states: seq<ZoneState>, epoch: nat, events: seq<Event>)

  function Tracked(fixes: seq<Fix>, cfg: Config): Track {
    if fixes == [] then Track([], 0, [])
    else
      var t, fix := Tracked(fixes[..|fixes| - 1], cfg), fixes[|fixes| - 1];
      var o := Evaluated(t.states, fix, cfg, t.epoch + 1);
      Track(o.states, if fix.usable then t.epoch + 1 else t.epoch, t.events + o.events)
  }

  ghost predicate GoodFixes(fixes: seq<Fix>) {
    forall i :: 0 <= i < |fixes| ==> DistinctIds(fixes[i].candidates)
  }

  lemma NothingOpen()
    ensures Tidy([], 1)
  {
  }

  lemma {:induction false} TrackTidy(fixes: seq<Fix>, cfg: Config)
    requires GoodFixes(fixes)
    ensures Tidy(Tracked(fixes, cfg).states, Tracked(fixes, cfg).epoch + 1)
  {
    hide DistinctIds, Evaluated, Tidy;
    NothingOpen();
    if fixes != [] {
      var before, fix := fixes[..|fixes| - 1], fixes[|fixes| - 1];
      TrackTidy(before, cfg);
      if fix.usable {
        EvaluatedTidy(Tracked(before, cfg).states, fix, cfg, Tracked(before, cfg).epoch + 1);
      } else {
        UnusableFix(Tracked(before, cfg).states, fix, cfg, Tracked(before, cfg).epoch + 1);
      }
    }
  }

  /** The engine, run over the fixes, computes the track. */
  method EvaluateRun(engine: Engine, fixes: seq<Fix>) returns (t: Tourist, events: seq<Event>)
    ensures t.zoneStates == Tracked(fixes, engine.cfg).states && events == Tracked(fixes, engine.cfg).events
  {
    hide Evaluated;
    t := new Tourist();
    events := [];
    for i := 0 to |fixes|
      invariant Track(t.zoneStates, t.evalEpoch, events) == Tracked(fixes[..i], engine.cfg)
    {
      assert fixes[..i + 1][..i] == fixes[..i];
      events := engine.Evaluate(t, fixes[i], events);
    }
    assert fixes[..|fixes|] == fixes;
  }

  /** One more fix, seen from one zone. */
  lemma TrackStep(fixes: seq<Fix>, cfg: Config, zone: nat)
    requires GoodFixes(fixes) && fixes != []
    ensures var before, fix := fixes[..|fixes| - 1], fixes[|fixes| - 1];
            var t, t' := Tracked(before, cfg), Tracked(fixes, cfg);
            var step := StepZone(StateOf(t.states, zone), zone, SightOf(fix, zone), fix.at, cfg, t.epoch + 1);
            && (fix.usable ==> StateOf(t'.states, zone) == step.0 && EventsOf(t'.events, zone) == EventsOf(t.events, zone) + step.1)
            && (!fix.usable ==> t' == t)
  {
    hide DistinctIds, StepZone, StateOf, Evaluated, SightOf, Tidy;
    var before, fix := fixes[..|fixes| - 1], fixes[|fixes| - 1];
    var t := Tracked(before, cfg);
    TrackTidy(before, cfg);
    if fix.usable {
      EvaluatedZone(t.states, fix, cfg, t.epoch + 1, zone);
      EventsOfJoin(t.events, Evaluated(t.states, fix, cfg, t.epoch + 1).events, zone);
    } else {
      UnusableFix(t.states, fix, cfg, t.epoch + 1);
      assert t.events + [] == t.events;
    }
  }

  lemma UnusableFix(states: seq<ZoneState>, fix: Fix, cfg: Config, epoch: nat)
    requires !fix.usable
    ensures Evaluated(states, fix, cfg, epoch) == Outcome(states, [])
  {
  }
}
