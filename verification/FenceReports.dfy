/**
 When events are raised, exactly, over every run of fixes: entries and exits told from what the fixes saw of the zone, and
 the dwell limit told from the events already raised.
 */
module FenceReports {
  import opened Evaluator
  import opened FenceGuarantees
  import opened FenceRuns
  import opened FilterReports
  import opened Hysteresis
  import opened Sorting
  import opened Wrappers

  // ----------------------------------------------------------------------------------- entries and exits

  /** What one usable fix adds to the observations of a zone; a zone that was never returned, or that has settled outside,
      starts afresh. */
  ghost function Extended(before: seq<Observation>, sight: Sight, at: int, cfg: Config): seq<Observation> {
    match sight
    case Closed => []
    case Returned(z) => before + [SeenAs(sight, at, cfg).value]
    case Missed(z) =>
      var obs := before + [SeenAs(sight, at, cfg).value];
      if before == [] || (Verdict(obs) == Outside && !HasPending(obs)) then [] else obs
  }

  /** The observations the zone's present state has been through. */
  ghost function Observed(fixes: seq<Fix>, cfg: Config, zone: nat): seq<Observation> {
    if fixes == [] then []
    else
      var before, fix := Observed(fixes[..|fixes| - 1], cfg, zone), fixes[|fixes| - 1];
      if fix.usable then Extended(before, SightOf(fix, zone), fix.at, cfg) else before
  }

  /** A state's filter is what the observations make of a fresh one. */
  ghost predicate Made(s: Option<ZoneState>, obs: seq<Observation>) {
    && (s.None? <==> obs == [])
    && (s.Some? ==> s.value.hyst == Run(obs) && s.value.confirmed == Verdict(obs))
  }

  lemma SettledPhase(obs: seq<Observation>, confirm: Byte)
    requires Filtering(obs, confirm)
    ensures Verdict(obs) == Outside ==> (Run(obs).phase == AtOutside <==> !HasPending(obs))
  {
    hide Run, Verdict, HasPending, LeaveTail, ClearTail, DeepTail, BeganAt;
    AlwaysRemembers(obs, confirm);
  }

  lemma StepMakes(s: Option<ZoneState>, before: seq<Observation>, zone: nat, sight: Sight, at: int, cfg: Config, epoch: nat)
    requires Made(s, before) && FromConfig(before, cfg) && cfg.enabled
    ensures var after := Extended(before, sight, at, cfg);
            Made(StepZone(s, zone, sight, at, cfg, epoch).0, after) && FromConfig(after, cfg)
  {
    hide Next, Run, Verdict, HasPending;
    if !sight.Closed? {
      var o := SeenAs(sight, at, cfg).value;
      var obs := before + [o];
      StartsFresh(s, zone, before);
      RunOneMore(before, o);
      SettledPhase(obs, cfg.confirm);
    }
  }

  lemma StartsFresh(s: Option<ZoneState>, zone: nat, obs: seq<Observation>)
    requires Made(s, obs)
    ensures OrFresh(s, zone).hyst == Run(obs) && OrFresh(s, zone).confirmed == Verdict(obs)
  {
  }

  lemma {:induction false} ObservedMakes(fixes: seq<Fix>, cfg: Config, zone: nat)
    requires GoodFixes(fixes) && cfg.enabled
    ensures Made(StateOf(Tracked(fixes, cfg).states, zone), Observed(fixes, cfg, zone))
    ensures FromConfig(Observed(fixes, cfg, zone), cfg)
  {
    hide StepZone, StateOf, Evaluated, SightOf, Extended, Made;
    if fixes == [] {
      NothingYet(zone);
      NothingMade();
    } else {
      var before, fix := fixes[..|fixes| - 1], fixes[|fixes| - 1];
      var t := Tracked(before, cfg);
      ObservedMakes(before, cfg, zone);
      TrackStep(fixes, cfg, zone);
      if fix.usable {
        StepMakes(StateOf(t.states, zone), Observed(before, cfg, zone), zone, SightOf(fix, zone), fix.at, cfg, t.epoch + 1);
      }
    }
  }

  lemma NothingMade()
    ensures Made(None, [])
  {
  }

  lemma InsideMade(s: Option<ZoneState>, obs: seq<Observation>)
    requires Made(s, obs)
    ensures IsInside(s) <==> Verdict(obs) == Inside
  {
  }

  /** The last fix confirms a pending entry to the zone. */
  ghost predicate EntryConfirmed(before: seq<Observation>, fix: Fix, cfg: Config, zone: nat) {
    var sight := SightOf(fix, zone);
    && fix.usable && !sight.Closed? && (sight.Missed? ==> before != [])
    && Verdict(before) != Inside && Confirms(before + [SeenAs(sight, fix.at, cfg).value], cfg.confirm)
  }

  /** The last fix closes the zone, or completes a run of clearly outside observations. */
  ghost predicate ExitConfirmed(before: seq<Observation>, fix: Fix, cfg: Config, zone: nat) {
    var sight := SightOf(fix, zone);
    && fix.usable && Verdict(before) == Inside
    && (sight.Closed? || LeaveTail(before + [SeenAs(sight, fix.at, cfg).value]) >= Most(2, cfg.confirm))
  }

  lemma ExtendedInside(before: seq<Observation>, fix: Fix, cfg: Config, zone: nat)
    requires cfg.enabled && FromConfig(before, cfg) && fix.usable
    ensures var after := Extended(before, SightOf(fix, zone), fix.at, cfg);
            && (Verdict(before) != Inside ==> (Verdict(after) == Inside <==> EntryConfirmed(before, fix, cfg, zone)))
            && (Verdict(before) == Inside ==> (Verdict(after) != Inside <==> ExitConfirmed(before, fix, cfg, zone)))
  {
    hide Verdict, HasPending, Confirms, LeaveTail, SightOf;
    var sight := SightOf(fix, zone);
    StartsOutsideReport();
    if !sight.Closed? {
      var o := SeenAs(sight, fix.at, cfg).value;
      var obs := before + [o];
      assert obs[..|obs| - 1] == before;
      ReportExact(obs, cfg.confirm);
    }
  }

  lemma StartsOutsideReport()
    ensures Verdict([]) == Outside
  {
  }

  /**
   Entry and exit events, exactly: a fix raises ZoneEnter if and only if it confirms the pending entry, and ZoneExit if and
   only if it closes the zone or confirms the exit. No other fix does.
   */
  lemma CrossingsExact(fixes: seq<Fix>, cfg: Config, zone: nat)
    requires GoodFixes(fixes) && fixes != [] && cfg.enabled
    ensures var before, fix := fixes[..|fixes| - 1], fixes[|fixes| - 1];
            var obs := Observed(before, cfg, zone);
            var kinds, kinds' := Crossings(EventsOf(Tracked(before, cfg).events, zone)), Crossings(EventsOf(Tracked(fixes, cfg).events, zone));
            && (kinds' == kinds + [ZoneEnter] <==> EntryConfirmed(obs, fix, cfg, zone))
            && (kinds' == kinds + [ZoneExit] <==> ExitConfirmed(obs, fix, cfg, zone))
            && (kinds' == kinds <==> !EntryConfirmed(obs, fix, cfg, zone) && !ExitConfirmed(obs, fix, cfg, zone))
  {
    hide StateOf, Tracked, SightOf, Verdict, StepZone, EventsOf, Crossings, Made, EntryConfirmed, ExitConfirmed, Extended;
    var before, fix := fixes[..|fixes| - 1], fixes[|fixes| - 1];
    var t, t' := Tracked(before, cfg), Tracked(fixes, cfg);
    var obs := Observed(before, cfg, zone);
    CrossingsStep(fixes, cfg, zone);
    TrackStep(fixes, cfg, zone);
    ObservedMakes(before, cfg, zone);
    ObservedMakes(fixes, cfg, zone);
    InsideMade(StateOf(t.states, zone), obs);
    InsideMade(StateOf(t'.states, zone), Observed(fixes, cfg, zone));
    if fix.usable {
      ExtendedInside(obs, fix, cfg, zone);
    }
    OnlyOne(obs, fix, cfg, zone);
    KindsDiffer(Crossings(EventsOf(t.events, zone)), IsInside(StateOf(t.states, zone)), IsInside(StateOf(t'.states, zone)));
  }

  lemma OnlyOne(obs: seq<Observation>, fix: Fix, cfg: Config, zone: nat)
    ensures EntryConfirmed(obs, fix, cfg, zone) ==> fix.usable && Verdict(obs) != Inside
    ensures ExitConfirmed(obs, fix, cfg, zone) ==> fix.usable && Verdict(obs) == Inside
  {
    hide Verdict, Confirms, LeaveTail, SightOf;
  }

  lemma KindsDiffer(kinds: seq<EventKind>, before: bool, after: bool)
    ensures var more := kinds + CrossingBetween(before, after);
            && (more == kinds + [ZoneEnter] <==> !before && after) && (more == kinds + [ZoneExit] <==> before && !after)
            && (more == kinds <==> before == after)
  {
    var more := kinds + CrossingBetween(before, after);
    assert more[|kinds|..] == CrossingBetween(before, after);
    assert (kinds + [ZoneEnter])[|kinds|..] == [ZoneEnter] && (kinds + [ZoneExit])[|kinds|..] == [ZoneExit];
    assert kinds + [] == kinds;
  }

  // -------------------------------------------------------------------------------------- whose margins

  /** A positive margin of the zone decides what deep inside and clearly outside mean; otherwise the general one does. */
  lemma ZoneMarginDecides(z: ZoneView, sd: real, raw: Containment, at: int, cfg: Config)
    ensures var o := Observation(raw, sd, at, Margins(cfg, z));
            && (z.enterMargin > 0.0 ==> (DeepIn(o) <==> raw != Uncertain && sd < -z.enterMargin))
            && (z.enterMargin <= 0.0 ==> (DeepIn(o) <==> raw != Uncertain && sd < -cfg.enterMargin))
            && (z.exitMargin > 0.0 ==> (ClearOut(o) <==> raw != Uncertain && sd > z.exitMargin))
            && (z.exitMargin <= 0.0 ==> (ClearOut(o) <==> raw != Uncertain && sd > cfg.exitMargin))
            && o.cfg.enabled == cfg.enabled && o.cfg.confirm == cfg.confirm && o.cfg.minDwell == cfg.minDwell
  {
  }

  // ---------------------------------------------------------------------------------------- dwell limit

  /** What the events of a zone tell: whether the tourist is inside, since when, and whether the limit was reported since. */
  datatype Story = Story(inside: bool, since: int, reported: bool)

  function Told(events: seq<Event>): Story {
    if events == [] then Story(false, 0, false)
    else
      var before, e := Told(events[..|events| - 1]), events[|events| - 1];
      match e.kind
      case ZoneEnter => Story(true, e.at, false)
      case ZoneExit => before.(inside := false)
      case DwellExceeded => before.(reported := true)
      case _ => before
  }

  /** The limit is reported only inside, and only once between an entry and its exit. */
  ghost predicate OncePerStay(events: seq<Event>) {
    forall i :: 0 <= i < |events| && events[i].kind == DwellExceeded ==> Told(events[..i]).inside && !Told(events[..i]).reported
  }

  ghost predicate Reports(events: seq<Event>, kind: EventKind) {
    exists i :: 0 <= i < |events| && events[i].kind == kind
  }

  lemma ToldOneMore(events: seq<Event>, e: Event)
    ensures Told(events + [e]) ==
              match e.kind
              case ZoneEnter => Story(true, e.at, false)
              case ZoneExit => Told(events).(inside := false)
              case DwellExceeded => Told(events).(reported := true)
              case _ => Told(events)
    ensures OncePerStay(events + [e]) <==>
              OncePerStay(events) && (e.kind == DwellExceeded ==> Told(events).inside && !Told(events).reported)
  {
    var more := events + [e];
    assert more[..|events|] == events && more[|events|] == e;
    assert forall i :: 0 <= i < |events| ==> more[i] == events[i] && more[..i] == events[..i];
    if OncePerStay(more) {
      forall i | 0 <= i < |events| && events[i].kind == DwellExceeded
        ensures Told(events[..i]).inside && !Told(events[..i]).reported
      {
        assert more[i].kind == DwellExceeded;
      }
    }
  }

  /** A state remembers what the events tell. */
  ghost predicate Tells(s: Option<ZoneState>, events: seq<Event>) {
    && (IsInside(s) <==> Told(events).inside) && OncePerStay(events)
    && (IsInside(s) ==> s.value.enteredAt == Told(events).since && s.value.dwellReported == Told(events).reported)
  }

  /** What observing the zone does to the story. */
  lemma ObserveTells(st: ZoneState, o: Observation, events: seq<Event>)
    requires Tells(Some(st), events)
    ensures var (after, es) := Observe(st, o);
            && Tells(Some(after), events + es) && !Reports(es, DwellExceeded)
            && Told(events + es).reported == (if !Told(events).inside && after.confirmed == Inside then false else Told(events).reported)
  {
    hide Next, Told, OncePerStay;
    var (after, es) := Observe(st, o);
    assert events + [] == events;
    if es != [] {
      ToldOneMore(events, es[0]);
      assert es == [es[0]];
    }
  }

  lemma DwellTells(st: ZoneState, z: ZoneView, at: int, events: seq<Event>)
    requires Tells(Some(st), events)
    ensures var (after, es) := Dwell(st, z, at);
            && Tells(Some(after), events + es) && Told(events + es).inside == Told(events).inside && Told(events + es).since == Told(events).since
            && (Reports(es, DwellExceeded) <==>
                  Told(events).inside && z.maxDwell > 0 && at - Told(events).since > z.maxDwell && !Told(events).reported)
  {
    hide Told, OncePerStay;
    var (after, es) := Dwell(st, z, at);
    assert events + [] == events;
    if es != [] {
      ToldOneMore(events, es[0]);
      assert es == [es[0]] && es[0].kind == DwellExceeded;
    }
  }

  lemma ApproachTells(st: ZoneState, z: ZoneView, at: int, events: seq<Event>)
    requires Tells(Some(st), events)
    ensures var (after, es) := Approaching(st, z, at);
            Tells(Some(after), events + es) && Told(events + es) == Told(events) && !Reports(es, DwellExceeded)
  {
    hide Told, OncePerStay;
    var (after, es) := Approaching(st, z, at);
    assert events + [] == events;
    if es != [] {
      ToldOneMore(events, es[0]);
      assert es == [es[0]];
    }
  }

  /** The zone is seen past its limit, and the limit was not reported since the entry. */
  ghost predicate PastLimit(before: Story, after: Story, sight: Sight, at: int) {
    && sight.Returned? && after.inside && sight.z.maxDwell > 0 && at - after.since > sight.z.maxDwell
    && !(before.inside && before.reported)
  }

  lemma ReportsJoin(a: seq<Event>, b: seq<Event>, kind: EventKind)
    ensures Reports(a + b, kind) <==> Reports(a, kind) || Reports(b, kind)
  {
    forall i | 0 <= i < |a| ensures (a + b)[i] == a[i] {
    }
    forall i | 0 <= i < |b| ensures (a + b)[|a| + i] == b[i] {
    }
  }

  lemma ExamineTells(st: ZoneState, z: ZoneView, at: int, cfg: Config, epoch: nat, events: seq<Event>)
    requires Tells(Some(st), events)
    ensures var (after, es) := Examine(st, z, at, cfg, epoch);
            && Tells(Some(after), events + es)
            && (Reports(es, DwellExceeded) <==> PastLimit(Told(events), Told(events + es), Returned(z), at))
  {
    hide Observe, Dwell, Approaching, Told, OncePerStay, Reports;
    var o := Observation(z.raw, z.sd, at, Margins(cfg, z));
    var (s0, e0) := Observe(st.(seenEpoch := epoch), o);
    var (s1, e1) := Dwell(s0, z, at);
    var (s2, e2) := Approaching(s1, z, at);
    ObserveTells(st.(seenEpoch := epoch), o, events);
    DwellTells(s0, z, at, events + e0);
    ApproachTells(s1, z, at, events + e0 + e1);
    ReportsJoin(e0 + e1, e2, DwellExceeded);
    ReportsJoin(e0, e1, DwellExceeded);
    assert events + (e0 + e1 + e2) == events + e0 + e1 + e2;
  }

  lemma StepTells(s: Option<ZoneState>, zone: nat, sight: Sight, at: int, cfg: Config, epoch: nat, events: seq<Event>)
    requires Tells(s, events)
    ensures var step := StepZone(s, zone, sight, at, cfg, epoch);
            && Tells(step.0, events + step.1)
            && (Reports(step.1, DwellExceeded) <==> PastLimit(Told(events), Told(events + step.1), sight, at))
  {
    hide Observe, Examine, Told, OncePerStay;
    assert events + [] == events;
    match sight
    case Closed =>
      ToldOneMore(events, Event(ZoneExit, zone, at, 0.0, Outside));
    case Missed(z) =>
      if s.Some? { ObserveTells(s.value, Observation(Outside, z.boxDistance, at, Margins(cfg, z)), events); }
    case Returned(z) =>
      ExamineTells(OrFresh(s, zone), z, at, cfg, epoch, events);
  }

  lemma NothingTold()
    ensures Tells(None, [])
  {
  }

  lemma {:induction false} RunTells(fixes: seq<Fix>, cfg: Config, zone: nat)
    requires GoodFixes(fixes)
    ensures Tells(StateOf(Tracked(fixes, cfg).states, zone), EventsOf(Tracked(fixes, cfg).events, zone))
  {
    hide StepZone, StateOf, Tracked, EventsOf, SightOf, Tells;
    if fixes == [] {
      NothingTracked(cfg);
      NothingYet(zone);
      NoEvents(zone);
      NothingTold();
    } else {
      var before, fix := fixes[..|fixes| - 1], fixes[|fixes| - 1];
      var t := Tracked(before, cfg);
      RunTells(before, cfg, zone);
      TrackStep(fixes, cfg, zone);
      StepTells(StateOf(t.states, zone), zone, SightOf(fix, zone), fix.at, cfg, t.epoch + 1, EventsOf(t.events, zone));
    }
  }

  lemma NoEvents(zone: nat)
    ensures EventsOf([], zone) == []
  {
  }

  /**
   The dwell limit over every run, told from the events alone: DwellExceeded is raised only inside and at most once
   between an entry and its exit, namely by the first usable fix that returns the zone past its limit since the entry.
   */
  lemma DwellExact(fixes: seq<Fix>, cfg: Config, zone: nat) returns (raised: seq<Event>)
    requires GoodFixes(fixes) && fixes != []
    ensures var before, fix := fixes[..|fixes| - 1], fixes[|fixes| - 1];
            var past, now := EventsOf(Tracked(before, cfg).events, zone), EventsOf(Tracked(fixes, cfg).events, zone);
            && now == past + raised && OncePerStay(now)
            && (Reports(raised, DwellExceeded) <==> fix.usable && PastLimit(Told(past), Told(now), SightOf(fix, zone), fix.at))
  {
    hide StepZone, StateOf, Tracked, EventsOf, SightOf, Told, OncePerStay;
    var before, fix := fixes[..|fixes| - 1], fixes[|fixes| - 1];
    var t := Tracked(before, cfg);
    var s, sight := StateOf(t.states, zone), SightOf(fix, zone);
    RunTells(before, cfg, zone);
    RunTells(fixes, cfg, zone);
    TrackStep(fixes, cfg, zone);
    StepTells(s, zone, sight, fix.at, cfg, t.epoch + 1, EventsOf(t.events, zone));
    raised := if fix.usable then StepZone(s, zone, sight, fix.at, cfg, t.epoch + 1).1 else [];
    assert EventsOf(t.events, zone) + [] == EventsOf(t.events, zone);
  }

  // -------------------------------------------------------------------------------------- order of events

  /** Zones do not go down along the events. */
  ghost predicate ByZone(events: seq<Event>) {
    forall i, j :: 0 <= i < j < |events| ==> events[i].zone <= events[j].zone
  }

  ghost predicate UpTo(events: seq<Event>, zone: nat) {
    forall i :: 0 <= i < |events| ==> events[i].zone <= zone
  }

  lemma JoinByZone(a: seq<Event>, b: seq<Event>, zone: nat)
    requires ByZone(a) && UpTo(a, zone) && About(b, zone)
    ensures ByZone(a + b) && UpTo(a + b, zone)
  {
  }

  lemma {:induction false} ExaminedByZone(states: seq<ZoneState>, ids: seq<nat>, fix: Fix, cfg: Config, epoch: nat)
    requires forall i, j :: 0 <= i < j < |ids| ==> ids[i] <= ids[j]
    ensures var o := Examined(states, ids, fix, cfg, epoch);
            ByZone(o.events) && (ids != [] ==> UpTo(o.events, ids[|ids| - 1])) && (ids == [] ==> o.events == [])
  {
    hide Examine, Put, StateOf;
    if ids != [] {
      var init, id := ids[..|ids| - 1], ids[|ids| - 1];
      ExaminedByZone(states, init, fix, cfg, epoch);
      var o := Examined(states, init, fix, cfg, epoch);
      assert UpTo(o.events, id);
      if InForce(fix, id) {
        var was := OrFresh(StateOf(o.states, id), id);
        OrFreshZone(o.states, id);
        StepsAreAbout(was, fix, fix.zones[id], cfg, epoch);
        JoinByZone(o.events, Examine(was, fix.zones[id], fix.at, cfg, epoch).1, id);
      }
    }
  }

  /** Events about returned zones come in the order of the zone ids, before all events of the reconciliation. */
  lemma CandidatesInIdOrder(states: seq<ZoneState>, fix: Fix, cfg: Config, epoch: nat) returns (c: Outcome, r: Outcome)
    requires fix.usable
    ensures Evaluated(states, fix, cfg, epoch) == Outcome(r.states, c.events + r.events)
    ensures ByZone(c.events) && r == Reconciled(c.states, fix, cfg, epoch)
  {
    hide Sort, Examined, Reconciled, Preorder;
    NumbersOrder();
    var ids := Sort(fix.candidates, AtMost);
    SortSorts(fix.candidates, AtMost);
    c := Examined(states, ids, fix, cfg, epoch);
    r := Reconciled(c.states, fix, cfg, epoch);
    ExaminedByZone(states, ids, fix, cfg, epoch);
  }
}
