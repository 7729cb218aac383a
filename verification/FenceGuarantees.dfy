/** What an operator may rely on, over every run of fixes: paired transitions, confirmed entries, states that close. */
module FenceGuarantees {
  import opened Evaluator
  import opened FenceRuns
  import opened Hysteresis
  import opened Sorting
  import opened Wrappers

  // ------------------------------------------------------------------------------------- alternation

  /** The entries and exits among the events. */
  function Crossings(events: seq<Event>): seq<EventKind> {
    if events == [] then []
    else
      var rest, kind := Crossings(events[..|events| - 1]), events[|events| - 1].kind;
      if kind == ZoneEnter || kind == ZoneExit then rest + [kind] else rest
  }

  lemma {:induction false} CrossingsJoin(a: seq<Event>, b: seq<Event>)
    ensures Crossings(a + b) == Crossings(a) + Crossings(b)
  {
    if b == [] {
      assert a + b == a;
    } else {
      var init := b[..|b| - 1];
      CrossingsJoin(a, init);
      assert (a + b)[..|a + b| - 1] == a + init;
    }
  }

  predicate IsInside(s: Option<ZoneState>) {
    s.Some? && s.value.confirmed == Inside
  }

  function CrossingBetween(before: bool, after: bool): seq<EventKind> {
    if before == after then [] else if after then [ZoneEnter] else [ZoneExit]
  }

  lemma ObserveCrosses(st: ZoneState, o: Observation)
    ensures Crossings(Observe(st, o).1) == CrossingBetween(st.confirmed == Inside, Observe(st, o).0.confirmed == Inside)
  {
    hide Next;
    assert forall e: Event :: [e][..0] == [];
    assert Crossings([]) == [];
  }

  /** A step raises an entry or an exit exactly when the zone becomes, or stops being, one the tourist is inside. */
  lemma StepCrosses(s: Option<ZoneState>, zone: nat, sight: Sight, at: int, cfg: Config, epoch: nat)
    ensures var step := StepZone(s, zone, sight, at, cfg, epoch);
            Crossings(step.1) == CrossingBetween(IsInside(s), IsInside(step.0))
  {
    match sight
    case Closed => OneCrossing(Event(ZoneExit, zone, at, 0.0, Outside));
    case Missed(z) =>
      if s.Some? { ObserveCrosses(s.value, Observation(Outside, z.boxDistance, at, Margins(cfg, z))); }
    case Returned(z) => ExamineCrosses(OrFresh(s, zone), z, at, cfg, epoch);
  }

  lemma OneCrossing(e: Event)
    ensures Crossings([]) == []
    ensures Crossings([e]) == if e.kind == ZoneEnter || e.kind == ZoneExit then [e.kind] else []
  {
    assert [e][..0] == [];
  }

  lemma ExamineCrosses(st: ZoneState, z: ZoneView, at: int, cfg: Config, epoch: nat)
    ensures var (after, es) := Examine(st, z, at, cfg, epoch);
            Crossings(es) == CrossingBetween(st.confirmed == Inside, after.confirmed == Inside)
  {
    hide Observe;
    var o := Observation(z.raw, z.sd, at, Margins(cfg, z));
    var (s0, e0) := Observe(st.(seenEpoch := epoch), o);
    var (s1, e1) := Dwell(s0, z, at);
    var (s2, e2) := Approaching(s1, z, at);
    ObserveCrosses(st.(seenEpoch := epoch), o);
    CrossingsJoin(e0 + e1, e2);
    CrossingsJoin(e0, e1);
    OneCrossing(Event(DwellExceeded, s0.zone, at, z.sd, s0.confirmed));
    OneCrossing(Event(ZoneApproaching, s1.zone, at, z.sd, Outside));
  }

  /** Enter, exit, enter, exit, and so on. */
  ghost predicate Alternate(kinds: seq<EventKind>) {
    forall i :: 0 <= i < |kinds| ==> kinds[i] == if i % 2 == 0 then ZoneEnter else ZoneExit
  }

  /**
   For every zone, entries and exits alternate starting with an entry, and the last one is an entry exactly while the
   tourist has an open state that says inside: through candidate changes, closing, deletion and dropped states.
   */
  lemma {:induction false} CrossingsAlternate(fixes: seq<Fix>, cfg: Config, zone: nat)
    requires GoodFixes(fixes)
    ensures var t := Tracked(fixes, cfg);
            var kinds := Crossings(EventsOf(t.events, zone));
            Alternate(kinds) && (|kinds| % 2 == 1 <==> IsInside(StateOf(t.states, zone)))
  {
    hide EventsOf, Crossings, StateOf, Tracked, Alternate;
    if fixes == [] {
      NothingTracked(cfg);
      NothingYet(zone);
    } else {
      var t, t' := Tracked(fixes[..|fixes| - 1], cfg), Tracked(fixes, cfg);
      CrossingsAlternate(fixes[..|fixes| - 1], cfg, zone);
      CrossingsStep(fixes, cfg, zone);
      AlternateStep(Crossings(EventsOf(t.events, zone)), IsInside(StateOf(t.states, zone)), IsInside(StateOf(t'.states, zone)));
    }
  }

  lemma AlternateStep(kinds: seq<EventKind>, before: bool, after: bool)
    requires Alternate(kinds) && (|kinds| % 2 == 1 <==> before)
    ensures var more := kinds + CrossingBetween(before, after); Alternate(more) && (|more| % 2 == 1 <==> after)
  {
  }

  lemma NothingTracked(cfg: Config)
    ensures Tracked([], cfg) == Track([], 0, []) && Alternate([])
  {
  }

  lemma NothingYet(zone: nat)
    ensures Crossings(EventsOf([], zone)) == [] && StateOf([], zone) == None
  {
  }

  /** What one more fix adds to the entries and exits of a zone. */
  lemma CrossingsStep(fixes: seq<Fix>, cfg: Config, zone: nat)
    requires GoodFixes(fixes) && fixes != []
    ensures var t, t' := Tracked(fixes[..|fixes| - 1], cfg), Tracked(fixes, cfg);
            Crossings(EventsOf(t'.events, zone)) ==
            Crossings(EventsOf(t.events, zone)) + CrossingBetween(IsInside(StateOf(t.states, zone)), IsInside(StateOf(t'.states, zone)))
  {
    hide StepZone, EventsOf, Crossings, StateOf, Tracked, SightOf;
    var before, fix := fixes[..|fixes| - 1], fixes[|fixes| - 1];
    var t, t' := Tracked(before, cfg), Tracked(fixes, cfg);
    TrackStep(fixes, cfg, zone);
    if fix.usable {
      var s, sight := StateOf(t.states, zone), SightOf(fix, zone);
      StepCrosses(s, zone, sight, fix.at, cfg, t.epoch + 1);
      CrossingsJoin(EventsOf(t.events, zone), StepZone(s, zone, sight, fix.at, cfg, t.epoch + 1).1);
    }
  }

  // ------------------------------------------------------------------------- what the filter has seen

  /** What the filter of the zone is told about a fix. */
  function SeenAs(sight: Sight, at: int, cfg: Config): Option<Observation> {
    match sight
    case Closed => None
    case Returned(z) => Some(Observation(z.raw, z.sd, at, Margins(cfg, z)))
    case Missed(z) => Some(Observation(Outside, z.boxDistance, at, Margins(cfg, z)))
  }

  /** The zone over all usable fixes. */
  function Sightings(fixes: seq<Fix>, cfg: Config, zone: nat): seq<Option<Observation>> {
    if fixes == [] then []
    else
      var before, fix := Sightings(fixes[..|fixes| - 1], cfg, zone), fixes[|fixes| - 1];
      if fix.usable then before + [SeenAs(SightOf(fix, zone), fix.at, cfg)] else before
  }

  /** A state's filter has seen exactly the last observations of the zone. */
  ghost predicate Explains(s: Option<ZoneState>, obs: seq<Observation>, all: seq<Option<Observation>>) {
    && (if s.None? then obs == [] else s.value.hyst == Run(obs) && s.value.confirmed == Verdict(obs))
    && |obs| <= |all| && forall k :: 0 <= k < |obs| ==> all[|all| - |obs| + k] == Some(obs[k])
  }

  ghost predicate FromConfig(obs: seq<Observation>, cfg: Config) {
    forall i :: 0 <= i < |obs| ==> obs[i].cfg.enabled == cfg.enabled && obs[i].cfg.confirm == cfg.confirm
                                   && obs[i].cfg.minDwell == cfg.minDwell
  }

  lemma StepFilters(s: Option<ZoneState>, zone: nat, sight: Sight, at: int, cfg: Config, epoch: nat)
    requires StepZone(s, zone, sight, at, cfg, epoch).0.Some?
    ensures SeenAs(sight, at, cfg).Some?
    ensures var after, o := StepZone(s, zone, sight, at, cfg, epoch).0.value, SeenAs(sight, at, cfg).value;
            (after.hyst, after.confirmed) == Next(OrFresh(s, zone).hyst, o)
  {
    hide Next;
  }

  lemma RunOneMore(obs: seq<Observation>, o: Observation)
    ensures (Run(obs + [o]), Verdict(obs + [o])) == Next(Run(obs), o)
  {
    hide Next;
    assert (obs + [o])[..|obs|] == obs;
  }

  /** The observations the zone's present state has been through. */
  lemma {:induction false} StateExplained(fixes: seq<Fix>, cfg: Config, zone: nat) returns (obs: seq<Observation>)
    requires GoodFixes(fixes)
    ensures Explains(StateOf(Tracked(fixes, cfg).states, zone), obs, Sightings(fixes, cfg, zone)) && FromConfig(obs, cfg)
  {
    hide StepZone, StateOf, Evaluated, SightOf, SeenAs, Run, Verdict;
    if fixes == [] {
      obs := [];
      NothingYet(zone);
    } else {
      var before, fix := fixes[..|fixes| - 1], fixes[|fixes| - 1];
      var t := Tracked(before, cfg);
      obs := StateExplained(before, cfg, zone);
      TrackStep(fixes, cfg, zone);
      if fix.usable {
        var s, sight := StateOf(t.states, zone), SightOf(fix, zone);
        var after := StepZone(s, zone, sight, fix.at, cfg, t.epoch + 1).0;
        if after.None? {
          obs := [];
        } else {
          StepFilters(s, zone, sight, fix.at, cfg, t.epoch + 1);
          var o := SeenAs(sight, fix.at, cfg).value;
          RunOneMore(obs, o);
          FreshRun(s, zone, obs);
          SeenConfig(sight, fix.at, cfg);
          obs := obs + [o];
        }
      }
    }
  }

  lemma FreshRun(s: Option<ZoneState>, zone: nat, obs: seq<Observation>)
    requires s.None? ==> obs == []
    requires s.Some? ==> s.value.hyst == Run(obs)
    ensures OrFresh(s, zone).hyst == Run(obs)
  {
  }

  lemma SeenConfig(sight: Sight, at: int, cfg: Config)
    ensures SeenAs(sight, at, cfg).Some? ==> FromConfig([SeenAs(sight, at, cfg).value], cfg)
  {
  }

  // --------------------------------------------------------------------------------- confirmed entries

  /** The last n usable fixes all saw the tourist deep inside the zone. */
  ghost predicate DeepLately(all: seq<Option<Observation>>, n: nat) {
    n <= |all| && forall k :: |all| - n <= k < |all| ==> all[k].Some? && DeepIn(all[k].value)
  }

  /** Since usable fix j, which was deep inside, no fix saw the tourist anywhere but deep inside or uncertain. */
  ghost predicate StayedSince(all: seq<Option<Observation>>, j: nat) {
    && j < |all| && all[j].Some? && DeepIn(all[j].value)
    && forall k :: j <= k < |all| ==> all[k].Some? && (DeepIn(all[k].value) || all[k].value.raw == Uncertain)
  }

  /**
   An entry event needs evidence: as many usable fixes in a row as the confirmation count (and at least one) deep inside
   the zone, the last of them this one; and a stay of at least the minimum dwell.
   */
  lemma EntriesAreConfirmed(fixes: seq<Fix>, cfg: Config, zone: nat)
    requires GoodFixes(fixes) && fixes != [] && cfg.enabled
    requires Crossings(EventsOf(Tracked(fixes, cfg).events, zone)) ==
             Crossings(EventsOf(Tracked(fixes[..|fixes| - 1], cfg).events, zone)) + [ZoneEnter]
    ensures var all := Sightings(fixes, cfg, zone);
            && fixes[|fixes| - 1].usable && DeepLately(all, if cfg.confirm == 0 then 1 else cfg.confirm)
            && exists j: nat :: StayedSince(all, j) && fixes[|fixes| - 1].at - all[j].value.at >= cfg.minDwell
  {
    hide StateOf, Tracked, Sightings, SightOf, Run, Verdict, StepZone, EventsOf, Crossings, DeepIn, DeepRun;
    hide StayedSince, DeepLately;
    var before, fix := fixes[..|fixes| - 1], fixes[|fixes| - 1];
    CrossingsStep(fixes, cfg, zone);
    TrackStep(fixes, cfg, zone);
    var t, t' := Tracked(before, cfg), Tracked(fixes, cfg);
    EntryBetween(Crossings(EventsOf(t.events, zone)), IsInside(StateOf(t.states, zone)), IsInside(StateOf(t'.states, zone)));
    var obs := EntryObservations(fixes, cfg, zone);
    var n: nat := if cfg.confirm == 0 then 1 else cfg.confirm;
    EntryIsConfirmed(obs, cfg.confirm);
    var all := Sightings(fixes, cfg, zone);
    var j: nat :| Approach(obs, j) && obs[|obs| - 1].at - obs[j].at >= obs[|obs| - 1].cfg.minDwell;
    Aligned(obs, all, n, j);
    assert StayedSince(all, |all| - |obs| + j);
  }

  lemma EntryBetween(kinds: seq<EventKind>, before: bool, after: bool)
    requires kinds + CrossingBetween(before, after) == kinds + [ZoneEnter]
    ensures !before && after
  {
    assert (kinds + CrossingBetween(before, after))[|kinds|..] == CrossingBetween(before, after);
    assert (kinds + [ZoneEnter])[|kinds|..] == [ZoneEnter];
  }

  lemma Aligned(obs: seq<Observation>, all: seq<Option<Observation>>, n: nat, j: nat)
    requires |obs| <= |all| && forall k :: 0 <= k < |obs| ==> all[|all| - |obs| + k] == Some(obs[k])
    requires DeepRun(obs, n) && Approach(obs, j)
    ensures DeepLately(all, n) && StayedSince(all, |all| - |obs| + j) && all[|all| - |obs| + j] == Some(obs[j])
  {
    hide DeepIn;
    var shift := |all| - |obs|;
    forall k | shift <= k < |all| ensures all[k] == Some(obs[k - shift]) {
      assert all[shift + (k - shift)] == Some(obs[k - shift]);
    }
  }

  /** The observations behind a state that has just become inside: the last one made it so. */
  lemma EntryObservations(fixes: seq<Fix>, cfg: Config, zone: nat) returns (obs: seq<Observation>)
    requires GoodFixes(fixes) && fixes != [] && cfg.enabled
    requires !IsInside(StateOf(Tracked(fixes[..|fixes| - 1], cfg).states, zone)) && IsInside(StateOf(Tracked(fixes, cfg).states, zone))
    ensures fixes[|fixes| - 1].usable && obs != [] && Filtering(obs, cfg.confirm)
    ensures Verdict(obs) == Inside && Verdict(obs[..|obs| - 1]) != Inside
    ensures obs[|obs| - 1].at == fixes[|fixes| - 1].at && obs[|obs| - 1].cfg.minDwell == cfg.minDwell
    ensures var all := Sightings(fixes, cfg, zone);
            |obs| <= |all| && forall k :: 0 <= k < |obs| ==> all[|all| - |obs| + k] == Some(obs[k])
  {
    hide StateOf, Evaluated, SightOf, Run, Verdict, StepZone, SeenAs;
    var before, fix := fixes[..|fixes| - 1], fixes[|fixes| - 1];
    var t := Tracked(before, cfg);
    TrackStep(fixes, cfg, zone);
    var past := StateExplained(before, cfg, zone);
    var s, sight := StateOf(t.states, zone), SightOf(fix, zone);
    StepFilters(s, zone, sight, fix.at, cfg, t.epoch + 1);
    SeenConfig(sight, fix.at, cfg);
    SeenAt(sight, fix.at, cfg);
    var o := SeenAs(sight, fix.at, cfg).value;
    FreshRun(s, zone, past);
    RunOneMore(past, o);
    NotYetInside(s, past);
    obs := past + [o];
    assert obs[..|obs| - 1] == past;
  }

  lemma NotYetInside(s: Option<ZoneState>, past: seq<Observation>)
    requires !IsInside(s) && (s.None? ==> past == []) && (s.Some? ==> s.value.confirmed == Verdict(past))
    ensures Verdict(past) != Inside
  {
  }

  lemma SeenAt(sight: Sight, at: int, cfg: Config)
    ensures SeenAs(sight, at, cfg).Some? ==> SeenAs(sight, at, cfg).value.at == at
  {
  }

  // ----------------------------------------------------------------------------------- states that close

  /** A zone in force that the index did not return, further away than its exit margin. */
  predicate ClearlyMissed(fix: Fix, cfg: Config, zone: nat) {
    && SightOf(fix, zone).Missed?
    && var o := Observation(Outside, SightOf(fix, zone).z.boxDistance, fix.at, Margins(cfg, SightOf(fix, zone).z));
    ClearOut(o) && !DeepIn(o)
  }

  /** How many of the latest usable fixes, without interruption, clearly missed the zone. */
  function MissedLately(fixes: seq<Fix>, cfg: Config, zone: nat): nat {
    if fixes == [] then 0
    else
      var before, fix := MissedLately(fixes[..|fixes| - 1], cfg, zone), fixes[|fixes| - 1];
      if !fix.usable then before else if ClearlyMissed(fix, cfg, zone) then 1 + before else 0
  }

  lemma {:induction false} SettlesMeanwhile(fixes: seq<Fix>, cfg: Config, zone: nat)
    requires GoodFixes(fixes) && cfg.enabled && cfg.confirm >= 1
    ensures var s := StateOf(Tracked(fixes, cfg).states, zone);
            s.Some? ==> Settles(s.value.hyst, cfg.confirm) + MissedLately(fixes, cfg, zone) <= cfg.confirm + 1
  {
    hide StateOf, Evaluated, SightOf, StepZone, Settles, ClearlyMissed;
    if fixes == [] {
      NothingYet(zone);
    } else {
      var before, fix := fixes[..|fixes| - 1], fixes[|fixes| - 1];
      var t := Tracked(before, cfg);
      SettlesMeanwhile(before, cfg, zone);
      TrackStep(fixes, cfg, zone);
      SettlesSoon(cfg.confirm);
      if fix.usable && ClearlyMissed(fix, cfg, zone) && StateOf(t.states, zone).Some? {
        StateCounts(before, cfg, zone);
        MissedStep(StateOf(t.states, zone).value, zone, fix, cfg, t.epoch + 1);
      } else if fix.usable && ClearlyMissed(fix, cfg, zone) {
        MissedStaysClosed(zone, fix, cfg, t.epoch + 1);
      }
    }
  }

  lemma StateCounts(fixes: seq<Fix>, cfg: Config, zone: nat)
    requires GoodFixes(fixes) && cfg.enabled && StateOf(Tracked(fixes, cfg).states, zone).Some?
    ensures Counting(StateOf(Tracked(fixes, cfg).states, zone).value.hyst, cfg.confirm)
  {
    hide StateOf, Evaluated, Run, Verdict, Tracked, Sightings;
    var obs := StateExplained(fixes, cfg, zone);
    RunCounting(obs, cfg.confirm);
  }

  lemma MissedStep(s: ZoneState, zone: nat, fix: Fix, cfg: Config, epoch: nat)
    requires ClearlyMissed(fix, cfg, zone) && cfg.enabled && Counting(s.hyst, cfg.confirm)
    ensures var after := StepZone(Some(s), zone, SightOf(fix, zone), fix.at, cfg, epoch).0;
            after.Some? ==> Settles(after.value.hyst, cfg.confirm) == Settles(s.hyst, cfg.confirm) - 1
  {
    hide Next, Settles, SightOf, DeepIn, ClearOut;
    var z := SightOf(fix, zone).z;
    SettleStep(s.hyst, Observation(Outside, z.boxDistance, fix.at, Margins(cfg, z)));
  }

  lemma MissedStaysClosed(zone: nat, fix: Fix, cfg: Config, epoch: nat)
    requires ClearlyMissed(fix, cfg, zone)
    ensures StepZone(None, zone, SightOf(fix, zone), fix.at, cfg, epoch).0 == None
  {
    hide SightOf;
  }

  /**
   A zone in force that the index stops returning is closed and dropped after at most confirm + 1 usable fixes, when the
   confirmation count is positive; every entry has by then been followed by its exit.
   */
  lemma MissedZonesClose(fixes: seq<Fix>, cfg: Config, zone: nat)
    requires GoodFixes(fixes) && cfg.enabled && cfg.confirm >= 1 && MissedLately(fixes, cfg, zone) > cfg.confirm
    ensures var t := Tracked(fixes, cfg);
            && StateOf(t.states, zone).None? && Alternate(Crossings(EventsOf(t.events, zone)))
            && |Crossings(EventsOf(t.events, zone))| % 2 == 0
  {
    hide StateOf, Tracked, Settles, MissedLately, Crossings;
    SettlesMeanwhile(fixes, cfg, zone);
    CrossingsAlternate(fixes, cfg, zone);
  }

  /** A zone that leaves force, or is deleted, is closed by the next usable fix. */
  lemma GoneZonesClose(fixes: seq<Fix>, cfg: Config, zone: nat)
    requires GoodFixes(fixes) && fixes != [] && fixes[|fixes| - 1].usable && !InForce(fixes[|fixes| - 1], zone)
    ensures var t := Tracked(fixes, cfg);
            StateOf(t.states, zone).None? && |Crossings(EventsOf(t.events, zone))| % 2 == 0
  {
    hide StateOf, Tracked, Crossings;
    TrackStep(fixes, cfg, zone);
    CrossingsAlternate(fixes, cfg, zone);
  }

  // -------------------------------------------------------------------------------- index independence

  /** Two runs that differ only in the order in which the index returned the candidates. */
  ghost predicate SameButOrder(a: seq<Fix>, b: seq<Fix>) {
    && |a| == |b|
    && forall i :: 0 <= i < |a| ==>
         multiset(a[i].candidates) == multiset(b[i].candidates) && a[i].(candidates := []) == b[i].(candidates := [])
  }

  lemma ExaminedIgnoresOrder(states: seq<ZoneState>, ids: seq<nat>, a: Fix, b: Fix, cfg: Config, epoch: nat)
    requires a.(candidates := []) == b.(candidates := [])
    ensures Examined(states, ids, a, cfg, epoch) == Examined(states, ids, b, cfg, epoch)
  {
    hide Examine, Find;
    if ids != [] {
      ExaminedIgnoresOrder(states, ids[..|ids| - 1], a, b, cfg, epoch);
    }
  }

  lemma ReconciledIgnoresOrder(states: seq<ZoneState>, a: Fix, b: Fix, cfg: Config, epoch: nat)
    requires a.(candidates := []) == b.(candidates := [])
    ensures Reconciled(states, a, cfg, epoch) == Reconciled(states, b, cfg, epoch)
  {
    hide Observe;
    if states != [] {
      ReconciledIgnoresOrder(states[..|states| - 1], a, b, cfg, epoch);
    }
  }

  /** Any index that returns the same candidates, in any order, leads to the same states and the same events. */
  lemma {:induction false} IndexIndependent(a: seq<Fix>, b: seq<Fix>, cfg: Config)
    requires SameButOrder(a, b)
    ensures Tracked(a, cfg) == Tracked(b, cfg)
  {
    hide Sort, Examined, Reconciled, Preorder;
    if a != [] {
      var n := |a| - 1;
      assert SameButOrder(a[..n], b[..n]);
      IndexIndependent(a[..n], b[..n], cfg);
      var t := Tracked(a[..n], cfg);
      NumbersOrder();
      SortForgetsOrder(a[n].candidates, b[n].candidates, AtMost);
      var ids := Sort(a[n].candidates, AtMost);
      ExaminedIgnoresOrder(t.states, ids, a[n], b[n], cfg, t.epoch + 1);
      ReconciledIgnoresOrder(Examined(t.states, ids, a[n], cfg, t.epoch + 1).states, a[n], b[n], cfg, t.epoch + 1);
    }
  }

  lemma NumbersOrder()
    ensures Preorder(AtMost) && forall s :: Antisymmetric(s, AtMost)
  {
  }
}
