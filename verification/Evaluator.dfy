/**
 One evaluation per fix: candidate zones in id order through the boundary filter, transitions turned into events, and
 every other open state reconciled. Geometry is an oracle: per fix it says, for every stored zone, whether it is in
 force, what containment and signed distance were measured, and how far its box is.
 */
module Evaluator {
  import opened Hysteresis
  import opened Sorting
  import opened Wrappers

  datatype EventKind = ZoneEnter | ZoneExit | ZoneUncertain | ZoneApproaching | DwellExceeded

  datatype Event = Event(kind: EventKind, zone: nat, at: int, depth: real, containment: Containment)

  datatype ZoneState = ZoneState(zone: nat, hyst: Hysteresis.State, confirmed: Containment, enteredAt: int,
                                 dwellReported: bool, approachReported: bool, seenEpoch: nat)

  /** A stored zone as one fix sees it. */
  datatype ZoneView = ZoneView(active: bool, raw: Containment, sd: real, boxDistance: real, enterMargin: real,
                               exitMargin: real, maxDwell: int, approaching: bool)

  /** One fix: when, whether accurate enough to use, what the index returned, and the stored zones. */
  datatype Fix = Fix(at: int, usable: bool, candidates: seq<nat>, zones: map<nat, ZoneView>)

  datatype Outcome = Outcome(states: seq<ZoneState>, events: seq<Event>)

  function FreshState(zone: nat): ZoneState {
    ZoneState(zone, FRESH, Outside, 0, false, false, 0)
  }

  /** A zone may override the margins. */
  function Margins(cfg: Config, z: ZoneView): Config {
    cfg.(enterMargin := if z.enterMargin > 0.0 then z.enterMargin else cfg.enterMargin,
         exitMargin := if z.exitMargin > 0.0 then z.exitMargin else cfg.exitMargin)
  }

  // ------------------------------------------------------------------------------------ one zone, one fix

  /** Only changes are events. */
  function Emit(st: ZoneState, confirmed: Containment, sd: real, at: int): (ZoneState, seq<Event>) {
    if confirmed == st.confirmed then (st, [])
    else
      var next := st.(confirmed := confirmed, approachReported := false);
      if confirmed == Inside then
        (next.(enteredAt := at, dwellReported := false), [Event(ZoneEnter, st.zone, at, sd, confirmed)])
      else if st.confirmed == Inside then (next, [Event(ZoneExit, st.zone, at, sd, confirmed)])
      else if confirmed == Uncertain then (next, [Event(ZoneUncertain, st.zone, at, sd, confirmed)])
      else (next, [])
  }

  function Dwell(st: ZoneState, z: ZoneView, at: int): (ZoneState, seq<Event>) {
    if st.confirmed == Inside && z.maxDwell > 0 && !st.dwellReported && at - st.enteredAt > z.maxDwell then
      (st.(dwellReported := true), [Event(DwellExceeded, st.zone, at, z.sd, st.confirmed)])
    else (st, [])
  }

  function Approaching(st: ZoneState, z: ZoneView, at: int): (ZoneState, seq<Event>) {
    if st.confirmed == Outside && !st.approachReported && z.approaching then
      (st.(approachReported := true), [Event(ZoneApproaching, st.zone, at, z.sd, Outside)])
    else (st, [])
  }

  /** Filter, then transition. */
  function Observe(st: ZoneState, o: Observation): (ZoneState, seq<Event>) {
    var (h, verdict) := Next(st.hyst, o);
    Emit(st.(hyst := h), verdict, o.sd, o.at)
  }

  /** A returned zone in force. */
  function Examine(st: ZoneState, z: ZoneView, at: int, cfg: Config, epoch: nat): (ZoneState, seq<Event>) {
    var (s0, e0) := Observe(st.(seenEpoch := epoch), Observation(z.raw, z.sd, at, Margins(cfg, z)));
    var (s1, e1) := Dwell(s0, z, at);
    var (s2, e2) := Approaching(s1, z, at);
    (s2, e0 + e1 + e2)
  }

  predicate InForce(fix: Fix, zone: nat) {
    zone in fix.zones && fix.zones[zone].active
  }

  /** An open state at the end of a fix: closed when its zone is gone, observed as Outside when it was not returned. */
  function ReconcileOne(st: ZoneState, fix: Fix, cfg: Config, epoch: nat): (Option<ZoneState>, seq<Event>) {
    if st.seenEpoch == epoch then (Some(st), [])
    else if !InForce(fix, st.zone) then
      (None, if st.confirmed == Inside then [Event(ZoneExit, st.zone, fix.at, 0.0, Outside)] else [])
    else
      var z := fix.zones[st.zone];
      var (s, es) := Observe(st, Observation(Outside, z.boxDistance, fix.at, Margins(cfg, z)));
      (if s.confirmed == Outside && s.hyst.phase == AtOutside then None else Some(s), es)
  }

  ghost predicate Extends(out: seq<Event>, out': seq<Event>) {
    |out| <= |out'| && out'[..|out|] == out
  }

  /** What an event says besides its kind: the zone, the time, the depth measured, and the containment now reported. */
  ghost predicate Dated(e: Event, zone: nat, at: int, sd: real, confirmed: Containment) {
    e.zone == zone && e.at == at && e.depth == sd && e.containment == confirmed
  }

  /** An event of this kind was appended. */
  ghost predicate Appended(out: seq<Event>, out': seq<Event>, kind: EventKind) {
    exists i :: |out| <= i < |out'| && out'[i].kind == kind
  }

  lemma AppendedStep(out: seq<Event>, now: seq<Event>, e: Event)
    requires |out| <= |now|
    ensures forall kind :: Appended(out, now + [e], kind) <==> Appended(out, now, kind) || e.kind == kind
  {
    var next := now + [e];
    assert next[|now|] == e;
    forall kind | Appended(out, now, kind) ensures Appended(out, next, kind) {
      var i :| |out| <= i < |now| && now[i].kind == kind;
      assert next[i].kind == kind;
    }
  }

  // ----------------------------------------------------------------------------------- all zones, one fix

  /** Position of the zone's state, or the number of states. */
  function Find(states: seq<ZoneState>, zone: nat): (k: nat)
    ensures k <= |states| && (k < |states| ==> states[k].zone == zone) && forall i :: 0 <= i < k ==> states[i].zone != zone
  {
    if states == [] || states[0].zone == zone then 0 else 1 + Find(states[1..], zone)
  }

  function Put(states: seq<ZoneState>, st: ZoneState): seq<ZoneState> {
    var k := Find(states, st.zone);
    if k < |states| then states[k := st] else states + [st]
  }

  function StateOf(states: seq<ZoneState>, zone: nat): Option<ZoneState> {
    var k := Find(states, zone);
    if k < |states| then Some(states[k]) else None
  }

  function OrFresh(s: Option<ZoneState>, zone: nat): ZoneState {
    if s.Some? then s.value else FreshState(zone)
  }

  /** The candidates in order. */
  function Examined(states: seq<ZoneState>, ids: seq<nat>, fix: Fix, cfg: Config, epoch: nat): Outcome {
    if ids == [] then Outcome(states, [])
    else
      var o, id := Examined(states, ids[..|ids| - 1], fix, cfg, epoch), ids[|ids| - 1];
      if !InForce(fix, id) then o
      else
        var (st, es) := Examine(OrFresh(StateOf(o.states, id), id), fix.zones[id], fix.at, cfg, epoch);
        Outcome(Put(o.states, st), o.events + es)
  }

  function Reconciled(states: seq<ZoneState>, fix: Fix, cfg: Config, epoch: nat): Outcome {
    if states == [] then Outcome([], [])
    else
      var o := Reconciled(states[..|states| - 1], fix, cfg, epoch);
      var (s, es) := ReconcileOne(states[|states| - 1], fix, cfg, epoch);
      Outcome(if s.Some? then o.states + [s.value] else o.states, o.events + es)
  }

  predicate AtMost(a: nat, b: nat) {
    a <= b
  }

  /** What a fix does to the open states, and the events it raises. Unusable fixes do nothing. */
  function Evaluated(states: seq<ZoneState>, fix: Fix, cfg: Config, epoch: nat): Outcome {
    if !fix.usable then Outcome(states, [])
    else
      var c := Examined(states, Sort(fix.candidates, AtMost), fix, cfg, epoch);
      var r := Reconciled(c.states, fix, cfg, epoch);
      Outcome(r.states, c.events + r.events)
  }

  // ----------------------------------------------------------------------------------------- methods

  class Tourist {
    var zoneStates: seq<ZoneState>
    var evalEpoch: nat

    constructor ()
      ensures zoneStates == [] && evalEpoch == 0
    {
      zoneStates, evalEpoch := [], 0;
    }

    /** The position of the zone's state, which is added if there is none. */
    method StateFor(zone: nat) returns (k: nat)
      modifies `zoneStates
      ensures k == Find(old(zoneStates), zone) && k < |zoneStates|
      ensures zoneStates == if k < |old(zoneStates)| then old(zoneStates) else old(zoneStates) + [FreshState(zone)]
    {
      assert zoneStates[0..] == zoneStates;
      for i := 0 to |zoneStates|
        invariant zoneStates == old(zoneStates) && Find(zoneStates, zone) == i + Find(zoneStates[i..], zone)
      {
        if zoneStates[i].zone == zone { return i; }
        assert zoneStates[i..][1..] == zoneStates[i + 1..];
      }
      zoneStates := zoneStates + [FreshState(zone)];
      return |zoneStates| - 1;
    }
  }

  class Engine {
    const cfg: Config

    constructor (cfg: Config)
      ensures this.cfg == cfg
    {
      this.cfg := cfg;
    }

    method EmitTransition(st: ZoneState, confirmed: Containment, sd: real, at: int, out: seq<Event>)
      returns (st': ZoneState, out': seq<Event>)
      ensures st' == Emit(st, confirmed, sd, at).0 && out' == out + Emit(st, confirmed, sd, at).1
      ensures st'.confirmed == confirmed && st'.zone == st.zone && st'.hyst == st.hyst && st'.seenEpoch == st.seenEpoch
      ensures var entered := st.confirmed != Inside && confirmed == Inside;
              && st'.enteredAt == (if entered then at else st.enteredAt)
              && (st'.dwellReported <==> !entered && st.dwellReported)
              && (st'.approachReported <==> st.confirmed == confirmed && st.approachReported)
      ensures Appended(out, out', ZoneUncertain) <==> st.confirmed == Outside && confirmed == Uncertain
      ensures Extends(out, out') && forall i :: |out| <= i < |out'| ==> Dated(out'[i], st.zone, at, sd, confirmed)
      ensures Appended(out, out', ZoneEnter) <==> st.confirmed != Inside && confirmed == Inside
      ensures Appended(out, out', ZoneExit) <==> st.confirmed == Inside && confirmed != Inside
      ensures !Appended(out, out', DwellExceeded) && !Appended(out, out', ZoneApproaching)
      ensures out' == out <==> confirmed == st.confirmed || (st.confirmed == Uncertain && confirmed == Outside)
    {
      st', out' := st, out;
      if confirmed == st.confirmed { return; }
      if confirmed == Inside {
        st' := st'.(enteredAt := at, dwellReported := false);
        AppendedStep(out, out', Event(ZoneEnter, st.zone, at, sd, confirmed));
        out' := out' + [Event(ZoneEnter, st.zone, at, sd, confirmed)];
      } else if st.confirmed == Inside {
        AppendedStep(out, out', Event(ZoneExit, st.zone, at, sd, confirmed));
        out' := out' + [Event(ZoneExit, st.zone, at, sd, confirmed)];
      } else if confirmed == Uncertain {
        AppendedStep(out, out', Event(ZoneUncertain, st.zone, at, sd, confirmed));
        out' := out' + [Event(ZoneUncertain, st.zone, at, sd, confirmed)];
      }
      st' := st'.(confirmed := confirmed, approachReported := false);
    }

    /** Feeds the zone's machine and reports what changed. */
    method Filter(st: ZoneState, o: Observation, out: seq<Event>) returns (st': ZoneState, out': seq<Event>)
      ensures st' == Observe(st, o).0 && out' == out + Observe(st, o).1
      ensures st'.zone == st.zone && st'.seenEpoch == st.seenEpoch && st'.confirmed == Next(st.hyst, o).1
      ensures var entered := st.confirmed != Inside && st'.confirmed == Inside;
              && st'.enteredAt == (if entered then o.at else st.enteredAt)
              && (st'.dwellReported <==> !entered && st.dwellReported)
              && (st'.approachReported <==> st.confirmed == st'.confirmed && st.approachReported)
      ensures Extends(out, out') && forall i :: |out| <= i < |out'| ==> Dated(out'[i], st.zone, o.at, o.sd, st'.confirmed)
      ensures Appended(out, out', ZoneEnter) <==> st.confirmed != Inside && st'.confirmed == Inside
      ensures Appended(out, out', ZoneExit) <==> st.confirmed == Inside && st'.confirmed != Inside
      ensures !Appended(out, out', DwellExceeded) && !Appended(out, out', ZoneApproaching)
    {
      hide Next, Emit, Appended;
      var machine := new Machine(st.hyst);
      var verdict := machine.Update(o);
      st', out' := EmitTransition(st.(hyst := machine.View()), verdict, o.sd, o.at, out);
    }

    /** Steps 5 to 8 for one returned zone in force. */
    method ExamineZone(st: ZoneState, z: ZoneView, at: int, epoch: nat, out: seq<Event>)
      returns (st': ZoneState, out': seq<Event>)
      ensures st' == Examine(st, z, at, cfg, epoch).0 && out' == out + Examine(st, z, at, cfg, epoch).1
      ensures st'.zone == st.zone && st'.seenEpoch == epoch
      ensures Appended(out, out', ZoneEnter) <==> st.confirmed != Inside && st'.confirmed == Inside
      ensures Appended(out, out', ZoneExit) <==> st.confirmed == Inside && st'.confirmed != Inside
      ensures var entered := st.confirmed != Inside && st'.confirmed == Inside;
              var reported := !entered && st.dwellReported;
              && st'.enteredAt == (if entered then at else st.enteredAt)
              && (Appended(out, out', DwellExceeded) <==>
                    st'.confirmed == Inside && z.maxDwell > 0 && at - st'.enteredAt > z.maxDwell && !reported)
              && (st'.dwellReported <==> reported || Appended(out, out', DwellExceeded))
      ensures var reported := st'.confirmed == st.confirmed && st.approachReported;
              && (Appended(out, out', ZoneApproaching) <==> st'.confirmed == Outside && z.approaching && !reported)
              && (st'.approachReported <==> reported || Appended(out, out', ZoneApproaching))
      ensures Extends(out, out') && forall i :: |out| <= i < |out'| ==> Dated(out'[i], st.zone, at, z.sd, st'.confirmed)
    {
      hide Observe, Appended;
      ghost var (s0, e0) := Observe(st.(seenEpoch := epoch), Observation(z.raw, z.sd, at, Margins(cfg, z)));
      st', out' := Filter(st.(seenEpoch := epoch), Observation(z.raw, z.sd, at, Margins(cfg, z)), out);
      if st'.confirmed == Inside && z.maxDwell > 0 && !st'.dwellReported && at - st'.enteredAt > z.maxDwell {
        AppendedStep(out, out', Event(DwellExceeded, st'.zone, at, z.sd, st'.confirmed));
        out' := out' + [Event(DwellExceeded, st'.zone, at, z.sd, st'.confirmed)];
        st' := st'.(dwellReported := true);
      }
      if st'.confirmed == Outside && !st'.approachReported && z.approaching {
        AppendedStep(out, out', Event(ZoneApproaching, st'.zone, at, z.sd, Outside));
        out' := out' + [Event(ZoneApproaching, st'.zone, at, z.sd, Outside)];
        st' := st'.(approachReported := true);
      }
    }

    method Evaluate(t: Tourist, fix: Fix, out: seq<Event>) returns (out': seq<Event>)
      modifies t
      ensures t.evalEpoch == if fix.usable then old(t.evalEpoch) + 1 else old(t.evalEpoch)
      ensures t.zoneStates == Evaluated(old(t.zoneStates), fix, cfg, old(t.evalEpoch) + 1).states
      ensures out' == out + Evaluated(old(t.zoneStates), fix, cfg, old(t.evalEpoch) + 1).events
    {
      hide Examine, Sort, Reconciled, Find, Appended, Extends, Dated;
      if !fix.usable { return out; }
      t.evalEpoch := t.evalEpoch + 1;
      var epoch := t.evalEpoch;
      ghost var before := t.zoneStates;
      var ids := Sort(fix.candidates, AtMost);
      out' := out;
      for k := 0 to |ids|
        invariant t.evalEpoch == epoch && t.zoneStates == Examined(before, ids[..k], fix, cfg, epoch).states
        invariant out' == out + Examined(before, ids[..k], fix, cfg, epoch).events
      {
        assert ids[..k + 1][..k] == ids[..k];
        var id := ids[k];
        if id !in fix.zones || !fix.zones[id].active { continue; }
        ghost var states := t.zoneStates;
        var i := t.StateFor(id);
        ghost var was := t.zoneStates[i];
        assert was == OrFresh(StateOf(states, id), id);
        var st;
        st, out' := ExamineZone(t.zoneStates[i], fix.zones[id], fix.at, epoch, out');
        ExamineKeepsZone(was, fix.zones[id], fix.at, cfg, epoch);
        t.zoneStates := t.zoneStates[i := st];
      }
      assert ids[..|ids|] == ids;
      out' := Reconcile(t, epoch, fix, out');
    }

    /** Observes or closes one open state; a closed state is dropped. */
    method ReconcileState(st: ZoneState, epoch: nat, fix: Fix, out: seq<Event>)
      returns (st': ZoneState, drop: bool, out': seq<Event>)
      ensures ReconcileOne(st, fix, cfg, epoch).0 == if drop then None else Some(st')
      ensures out' == out + ReconcileOne(st, fix, cfg, epoch).1
      ensures st.seenEpoch == epoch ==> !drop && st' == st && out' == out
      ensures st.seenEpoch != epoch && !InForce(fix, st.zone) ==>
                && drop && (out' == if st.confirmed == Inside then out + [Event(ZoneExit, st.zone, fix.at, 0.0, Outside)] else out)
      ensures st.seenEpoch != epoch && InForce(fix, st.zone) ==>
                && (drop <==> st'.confirmed == Outside && st'.hyst.phase == AtOutside)
                && (Appended(out, out', ZoneExit) <==> st.confirmed == Inside && st'.confirmed != Inside)
                && (Appended(out, out', ZoneEnter) <==> st.confirmed != Inside && st'.confirmed == Inside)
    {
      hide Observe;
      st', drop, out' := st, false, out;
      if st.seenEpoch != epoch {
        if st.zone !in fix.zones || !fix.zones[st.zone].active {
          if st.confirmed == Inside {
            out' := out' + [Event(ZoneExit, st.zone, fix.at, 0.0, Outside)];
          }
          drop := true;
        } else {
          var z := fix.zones[st.zone];
          st', out' := Filter(st, Observation(Outside, z.boxDistance, fix.at, Margins(cfg, z)), out');
          drop := st'.confirmed == Outside && st'.hyst.phase == AtOutside;
        }
      }
    }

    /** Reconciles every open state, compacting the list in place. */
    method Reconcile(t: Tourist, epoch: nat, fix: Fix, out: seq<Event>) returns (out': seq<Event>)
      modifies t`zoneStates
      ensures t.zoneStates == Reconciled(old(t.zoneStates), fix, cfg, epoch).states
      ensures out' == out + Reconciled(old(t.zoneStates), fix, cfg, epoch).events
    {
      hide ReconcileOne, Compacting, Appended, InForce;
      ghost var start := t.zoneStates;
      var keep := 0;
      out' := out;
      CompactStart(start, fix, cfg, epoch);
      for i := 0 to |t.zoneStates|
        invariant |t.zoneStates| == |start| && keep <= i && Compacting(start, t.zoneStates, keep, i, fix, cfg, epoch)
        invariant out' == out + Reconciled(start[..i], fix, cfg, epoch).events
      {
        CompactHere(start, t.zoneStates, keep, i, fix, cfg, epoch);
        var st, drop;
        st, drop, out' := ReconcileState(t.zoneStates[i], epoch, fix, out');
        CompactStep(start, t.zoneStates, keep, i, st, fix, cfg, epoch);
        t.zoneStates := t.zoneStates[i := st];
        if !drop {
          if keep != i { t.zoneStates := t.zoneStates[keep := t.zoneStates[i]]; }
          keep := keep + 1;
        }
      }
      CompactEnd(start, t.zoneStates, keep, fix, cfg, epoch);
      t.zoneStates := t.zoneStates[..keep];
    }
  }

  /** Reconciled states in front, states still to be looked at behind. */
  ghost predicate Compacting(start: seq<ZoneState>, now: seq<ZoneState>, keep: nat, i: nat, fix: Fix, cfg: Config, epoch: nat) {
    && keep <= i <= |start| == |now| && now[i..] == start[i..]
    && now[..keep] == Reconciled(start[..i], fix, cfg, epoch).states
  }

  lemma CompactStart(start: seq<ZoneState>, fix: Fix, cfg: Config, epoch: nat)
    ensures Compacting(start, start, 0, 0, fix, cfg, epoch) && Reconciled(start[..0], fix, cfg, epoch).events == []
  {
    hide ReconcileOne;
  }

  lemma CompactHere(start: seq<ZoneState>, now: seq<ZoneState>, keep: nat, i: nat, fix: Fix, cfg: Config, epoch: nat)
    requires Compacting(start, now, keep, i, fix, cfg, epoch) && i < |start|
    ensures |now| == |start| && keep <= i && now[i] == start[i]
  {
    hide Reconciled;
    assert now[i..][0] == start[i..][0];
  }

  /** One state looked at: kept in the next free place, or dropped. */
  lemma CompactStep(start: seq<ZoneState>, now: seq<ZoneState>, keep: nat, i: nat, st: ZoneState, fix: Fix, cfg: Config,
                    epoch: nat)
    requires Compacting(start, now, keep, i, fix, cfg, epoch) && i < |start| == |now| && keep <= i && now[i] == start[i]
    requires ReconcileOne(start[i], fix, cfg, epoch).0 in {None, Some(st)}
    ensures var (s, es) := ReconcileOne(start[i], fix, cfg, epoch);
            && Reconciled(start[..i + 1], fix, cfg, epoch).events == Reconciled(start[..i], fix, cfg, epoch).events + es
            && (s.None? ==> Compacting(start, now[i := st], keep, i + 1, fix, cfg, epoch))
            && (s.Some? ==> Compacting(start, now[i := st][keep := st], keep + 1, i + 1, fix, cfg, epoch))
    ensures now[i := st][i := st] == now[i := st]
  {
    hide ReconcileOne;
    assert start[..i + 1][..i] == start[..i];
    assert now[i..][1..] == start[i..][1..];
  }

  lemma CompactEnd(start: seq<ZoneState>, now: seq<ZoneState>, keep: nat, fix: Fix, cfg: Config, epoch: nat)
    requires Compacting(start, now, keep, |start|, fix, cfg, epoch)
    ensures keep <= |now| && now[..keep] == Reconciled(start, fix, cfg, epoch).states && start[..|start|] == start
  {
    hide ReconcileOne;
    assert start[..|start|] == start;
  }

  lemma ExamineKeepsZone(st: ZoneState, z: ZoneView, at: int, cfg: Config, epoch: nat)
    ensures Examine(st, z, at, cfg, epoch).0.zone == st.zone && Examine(st, z, at, cfg, epoch).0.seenEpoch == epoch
  {
    hide Next;
  }
}
