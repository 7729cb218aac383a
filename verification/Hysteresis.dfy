/**
 The boundary filter: a Schmitt trigger over the containment signal with confirmation runs and a dwell minimum. Its
 specification is the function Next; the class is the machine that updates its fields in place.
 */
module Hysteresis {

  datatype Containment = Inside | Uncertain | Outside

  datatype Phase = AtOutside | AtAmbiguous | EnteringPending | AtInside | ExitingPending

  type Byte = n: nat | n < 256

  datatype Config = Config(enterMargin: real, exitMargin: real, confirm: Byte, minDwell: int, enabled: bool)

  /** One observation: what the geometry said, the signed distance (negative inside), and when. */
  datatype Observation = Observation(raw: Containment, sd: real, at: int, cfg: Config)

  datatype State = State(phase: Phase, pendingFrom: Phase, agree: Byte, insideSince: int, pendingSince: int,
                         suppressed: bool)

  const FRESH: State := State(AtOutside, AtOutside, 0, 0, 0, false)

  /** The agreement counter is a byte. */
  function Bump(b: Byte): Byte {
    (b + 1) % 256
  }

  predicate DeepIn(o: Observation) {
    o.raw != Uncertain && o.sd < -o.cfg.enterMargin
  }

  predicate ClearOut(o: Observation) {
    o.raw != Uncertain && o.sd > o.cfg.exitMargin
  }

  /** What an unconfirmed entry reports: whatever was reported before it began. */
  function BeforeEntry(pendingFrom: Phase): Containment {
    if pendingFrom == AtAmbiguous then Uncertain else Outside
  }

  /** The machine with hysteresis switched off. */
  function Naive(s: State, o: Observation): (State, Containment) {
    if o.raw == Inside then (if s.phase != AtInside then s.(phase := AtInside, insideSince := o.at) else s, o.raw)
    else (s.(phase := AtOutside), o.raw)
  }

  /** An uncertain verdict never ends Inside, cancels a pending exit, and interrupts a confirmation run. */
  function OnUncertain(s: State): (State, Containment) {
    var z := s.(agree := 0);
    match s.phase
    case AtInside | ExitingPending => (z.(phase := AtInside), Inside)
    case EnteringPending => (z.(pendingFrom := AtAmbiguous), Uncertain)
    case AtOutside | AtAmbiguous => (z.(phase := AtAmbiguous), Uncertain)
  }

  function OnCertain(s: State, o: Observation): (State, Containment) {
    var more, enough := Bump(s.agree), Bump(s.agree) >= o.cfg.confirm;
    match s.phase
    case AtOutside | AtAmbiguous =>
      if DeepIn(o) then
        (s.(pendingFrom := s.phase, phase := EnteringPending, agree := 1, pendingSince := o.at), BeforeEntry(s.phase))
      else if s.phase == AtOutside then (s, Outside)
      else if !ClearOut(o) then (s.(agree := 0), Uncertain)
      else if enough then (s.(phase := AtOutside, agree := 0), Outside)
      else (s.(agree := more), Uncertain)
    case EnteringPending =>
      if !DeepIn(o) then (s.(phase := s.pendingFrom, agree := 0, suppressed := true), BeforeEntry(s.pendingFrom))
      else if enough && o.at - s.pendingSince >= o.cfg.minDwell then
        (s.(phase := AtInside, insideSince := s.pendingSince, agree := 0), Inside)
      else (s.(agree := more), BeforeEntry(s.pendingFrom))
    case AtInside => (if ClearOut(o) then s.(phase := ExitingPending, agree := 1) else s, Inside)
    case ExitingPending =>
      if !ClearOut(o) then (s.(phase := AtInside, agree := 0, suppressed := true), Inside)
      else if enough then (s.(phase := AtOutside, agree := 0), Outside)
      else (s.(agree := more), Inside)
  }

  function Next(s: State, o: Observation): (State, Containment) {
    var quiet := s.(suppressed := false);
    if !o.cfg.enabled then Naive(quiet, o)
    else if o.raw == Uncertain then OnUncertain(quiet)
    else OnCertain(quiet, o)
  }

  class Machine {
    var phase: Phase
    var pendingFrom: Phase
    var agree: Byte
    var insideSince: int
    var pendingSince: int
    var suppressed: bool

    function View(): State
      reads this
    {
      State(phase, pendingFrom, agree, insideSince, pendingSince, suppressed)
    }

    /** A machine in a given state; fresh machines start Outside. */
    constructor (s: State)
      ensures View() == s
    {
      phase, pendingFrom, agree := s.phase, s.pendingFrom, s.agree;
      insideSince, pendingSince, suppressed := s.insideSince, s.pendingSince, s.suppressed;
    }

    /** Feeds one observation and returns the confirmed containment. */
    method Update(o: Observation) returns (verdict: Containment)
      modifies this
      ensures (View(), verdict) == Next(old(View()), o)
      ensures !o.cfg.enabled ==> verdict == o.raw && (verdict == Inside && old(phase) != AtInside ==> insideSince == o.at)
      ensures old(pendingFrom) in {AtOutside, AtAmbiguous} ==>
                pendingFrom in {AtOutside, AtAmbiguous} && (verdict == Inside <==> phase in {AtInside, ExitingPending})
      ensures o.cfg.enabled && verdict == Inside && old(phase) !in {AtInside, ExitingPending} ==>
                && old(phase) == EnteringPending && DeepIn(o)
                && Bump(old(agree)) >= o.cfg.confirm && o.at - old(pendingSince) >= o.cfg.minDwell
      ensures o.cfg.enabled && verdict != Inside && old(phase) in {AtInside, ExitingPending} ==>
                old(phase) == ExitingPending && ClearOut(o) && Bump(old(agree)) >= o.cfg.confirm
    {
      suppressed := false;
      if !o.cfg.enabled {
        if o.raw == Inside && phase != AtInside {
          phase, insideSince := AtInside, o.at;
        } else if o.raw != Inside {
          phase := AtOutside;
        }
        return o.raw;
      }
      var beforeEntry := BeforeEntry(pendingFrom);
      if o.raw == Uncertain {
        agree := 0;
        match phase {
          case AtInside => return Inside;
          case ExitingPending =>
            phase := AtInside;
            return Inside;
          case EnteringPending =>
            pendingFrom := AtAmbiguous;
            return Uncertain;
          case AtOutside | AtAmbiguous =>
            phase := AtAmbiguous;
            return Uncertain;
        }
      }
      var deepIn, clearOut := o.sd < -o.cfg.enterMargin, o.sd > o.cfg.exitMargin;
      if phase == AtOutside || phase == AtAmbiguous {
        var from := phase;
        if deepIn {
          pendingFrom, phase, agree, pendingSince := from, EnteringPending, 1, o.at;
          return if from == AtAmbiguous then Uncertain else Outside;
        }
        if from == AtOutside { return Outside; }
        if clearOut {
          agree := Bump(agree);
          if agree >= o.cfg.confirm {
            phase, agree := AtOutside, 0;
            return Outside;
          }
        } else {
          agree := 0;
        }
        return Uncertain;
      }
      match phase {
        case EnteringPending =>
          if deepIn {
            agree := Bump(agree);
            if agree >= o.cfg.confirm && o.at - pendingSince >= o.cfg.minDwell {
              phase, insideSince, agree := AtInside, pendingSince, 0;
              return Inside;
            }
            return beforeEntry;
          }
          phase, agree, suppressed := pendingFrom, 0, true;
          return beforeEntry;
        case AtInside =>
          if clearOut { phase, agree := ExitingPending, 1; }
          return Inside;
        case ExitingPending =>
          if clearOut {
            agree := Bump(agree);
            if agree >= o.cfg.confirm {
              phase, agree := AtOutside, 0;
              return Outside;
            }
            return Inside;
          }
          phase, agree, suppressed := AtInside, 0, true;
          return Inside;
      }
    }
  }

  // -------------------------------------------------------------------------------------- whole runs

  /** The state after a run of observations from a fresh machine. */
  function Run(obs: seq<Observation>): State {
    if obs == [] then FRESH else Next(Run(obs[..|obs| - 1]), obs[|obs| - 1]).0
  }

  /** What the machine reported for the last observation; Outside before the first. */
  function Verdict(obs: seq<Observation>): Containment {
    if obs == [] then Outside else Next(Run(obs[..|obs| - 1]), obs[|obs| - 1]).1
  }

  /** The filter is on throughout, with one confirmation count. */
  ghost predicate Filtering(obs: seq<Observation>, confirm: Byte) {
    forall i :: 0 <= i < |obs| ==> obs[i].cfg.enabled && obs[i].cfg.confirm == confirm
  }

  /** From position j on, every observation was deep inside or uncertain. */
  ghost predicate Approach(obs: seq<Observation>, j: nat) {
    j < |obs| && DeepIn(obs[j]) && forall k :: j <= k < |obs| ==> DeepIn(obs[k]) || obs[k].raw == Uncertain
  }

  /** The last n observations were deep inside. */
  ghost predicate DeepRun(obs: seq<Observation>, n: nat) {
    n <= |obs| && forall k :: |obs| - n <= k < |obs| ==> DeepIn(obs[k])
  }

  /** The last n observations were clearly outside. */
  ghost predicate ClearRun(obs: seq<Observation>, n: nat) {
    n <= |obs| && forall k :: |obs| - n <= k < |obs| ==> ClearOut(obs[k])
  }

  /** A pending entry remembers when it began, and no longer a run of deep fixes than there was. */
  ghost predicate EntryRemembered(obs: seq<Observation>) {
    var s := Run(obs);
    s.phase == EnteringPending ==>
      (DeepRun(obs, s.agree) && exists j: nat :: Approach(obs, j) && obs[j].at == s.pendingSince)
  }

  /** A pending exit, or a clearing ambiguity, remembers no longer a run of clearly outside fixes than there was. */
  ghost predicate ExitRemembered(obs: seq<Observation>) {
    var s := Run(obs);
    s.phase in {AtAmbiguous, ExitingPending} ==> ClearRun(obs, s.agree)
  }

  /** While a run of clear fixes is being counted, the count has not reached the confirmation count. */
  ghost predicate Counting(s: State, confirm: Byte) {
    && (s.phase == AtAmbiguous ==> s.agree == 0 || s.agree < confirm)
    && (s.phase == ExitingPending ==> s.agree >= 1 && (s.agree == 1 || s.agree < confirm))
    && s.pendingFrom in {AtOutside, AtAmbiguous}
  }

  lemma NextCounting(s: State, o: Observation)
    requires o.cfg.enabled && Counting(s, o.cfg.confirm)
    ensures Counting(Next(s, o).0, o.cfg.confirm)
  {
  }

  lemma {:induction false} RunCounting(obs: seq<Observation>, confirm: Byte)
    requires Filtering(obs, confirm)
    ensures Counting(Run(obs), confirm)
  {
    hide Next;
    if obs != [] {
      RunCounting(obs[..|obs| - 1], confirm);
      NextCounting(Run(obs[..|obs| - 1]), obs[|obs| - 1]);
    }
  }

  /** Inside is reported exactly in the two phases of having entered. */
  ghost predicate Coherent(s: State, verdict: Containment) {
    && (verdict == Inside <==> s.phase in {AtInside, ExitingPending})
    && (s.phase == AtOutside ==> verdict == Outside)
    && s.pendingFrom in {AtOutside, AtAmbiguous}
  }

  lemma NextCoherent(s: State, verdict: Containment, o: Observation)
    requires Coherent(s, verdict) && o.cfg.enabled
    ensures Coherent(Next(s, o).0, Next(s, o).1)
  {
  }

  lemma {:induction false} RunCoherent(obs: seq<Observation>, confirm: Byte)
    requires Filtering(obs, confirm)
    ensures Coherent(Run(obs), Verdict(obs))
  {
    hide Next;
    if obs != [] {
      RunCoherent(obs[..|obs| - 1], confirm);
      NextCoherent(Run(obs[..|obs| - 1]), Verdict(obs[..|obs| - 1]), obs[|obs| - 1]);
    }
  }

  /** When a step leaves an entry pending, it began one or continued one. */
  lemma EntryStep(s: State, o: Observation)
    requires o.cfg.enabled && s.pendingFrom in {AtOutside, AtAmbiguous} && Next(s, o).0.phase == EnteringPending
    ensures var s' := Next(s, o).0;
            || (s'.agree == 1 && s'.pendingSince == o.at && DeepIn(o))
            || (s.phase == EnteringPending && s'.pendingSince == s.pendingSince
                && ((o.raw == Uncertain && s'.agree == 0) || (DeepIn(o) && s'.agree <= s.agree + 1)))
  {
  }

  lemma {:induction false} EntryAlwaysRemembered(obs: seq<Observation>, confirm: Byte)
    requires Filtering(obs, confirm)
    ensures EntryRemembered(obs)
  {
    hide Next, DeepIn;
    if obs != [] && Run(obs).phase == EnteringPending {
      var before, o := obs[..|obs| - 1], obs[|obs| - 1];
      EntryAlwaysRemembered(before, confirm);
      RunCoherent(before, confirm);
      RunsExtend(before, obs);
      EntryStep(Run(before), o);
      DeepShrinks(obs, Run(obs).agree, Run(before).agree + 1);
      if Run(obs).agree == 1 && Run(obs).pendingSince == o.at && DeepIn(o) {
        assert Approach(obs, |before|);
      } else {
        var j: nat :| Approach(before, j) && before[j].at == Run(before).pendingSince;
        assert Approach(obs, j);
      }
    }
  }

  lemma DeepShrinks(obs: seq<Observation>, n: nat, m: nat)
    ensures n <= m && DeepRun(obs, m) ==> DeepRun(obs, n)
  {
  }

  lemma RunsExtend(before: seq<Observation>, obs: seq<Observation>)
    requires obs != [] && before == obs[..|obs| - 1]
    ensures forall n: nat :: DeepRun(before, n) && DeepIn(obs[|before|]) ==> DeepRun(obs, n + 1)
    ensures forall n: nat :: ClearRun(before, n) && ClearOut(obs[|before|]) ==> ClearRun(obs, n + 1)
    ensures DeepRun(obs, 0) && ClearRun(obs, 0)
    ensures DeepIn(obs[|before|]) ==> DeepRun(obs, 1)
    ensures ClearOut(obs[|before|]) ==> ClearRun(obs, 1)
  {
  }

  /**
   No entry is reported without confirmation: the last observations, as many as the confirmation count and at least one,
   were deep inside; and since some deep observation at least the minimum dwell earlier, nothing left the zone.
   */
  lemma EntryIsConfirmed(obs: seq<Observation>, confirm: Byte)
    requires Filtering(obs, confirm) && obs != []
    requires Verdict(obs) == Inside && Verdict(obs[..|obs| - 1]) != Inside
    ensures DeepRun(obs, if confirm == 0 then 1 else confirm)
    ensures exists j: nat :: Approach(obs, j) && obs[|obs| - 1].at - obs[j].at >= obs[|obs| - 1].cfg.minDwell
  {
    hide DeepIn;
    var before, o := obs[..|obs| - 1], obs[|obs| - 1];
    EntryAlwaysRemembered(before, confirm);
    RunCoherent(before, confirm);
    RunsExtend(before, obs);
    InsideStep(Run(before), o);
    DeepShrinks(obs, if confirm == 0 then 1 else confirm, Run(before).agree + 1);
    var j: nat :| Approach(before, j) && before[j].at == Run(before).pendingSince;
    assert Approach(obs, j) && obs[j].at == before[j].at;
  }

  lemma InsideStep(s: State, o: Observation)
    requires o.cfg.enabled && s.phase !in {AtInside, ExitingPending} && Next(s, o).1 == Inside
    ensures s.phase == EnteringPending && DeepIn(o) && s.agree + 1 >= o.cfg.confirm
    ensures o.at - s.pendingSince >= o.cfg.minDwell
  {
  }

  /** No exit is reported without confirmation either: at least two, and as many as the count, clearly outside. */
  lemma ExitIsConfirmed(obs: seq<Observation>, confirm: Byte)
    requires Filtering(obs, confirm) && obs != []
    requires Verdict(obs) != Inside && Verdict(obs[..|obs| - 1]) == Inside
    ensures Verdict(obs) == Outside && ClearRun(obs, if confirm < 2 then 2 else confirm)
  {
    hide ClearOut;
    var before, o := obs[..|obs| - 1], obs[|obs| - 1];
    ExitAlwaysRemembered(before, confirm);
    RunCoherent(before, confirm);
    RunsExtend(before, obs);
    OutsideStep(Run(before), o);
    ClearShrinks(obs, if confirm < 2 then 2 else confirm, Run(before).agree + 1);
  }

  lemma OutsideStep(s: State, o: Observation)
    requires o.cfg.enabled && s.phase in {AtInside, ExitingPending} && Next(s, o).1 != Inside
    ensures s.phase == ExitingPending && ClearOut(o) && s.agree + 1 >= o.cfg.confirm && Next(s, o).1 == Outside
  {
  }

  lemma ClearShrinks(obs: seq<Observation>, n: nat, m: nat)
    ensures n <= m && ClearRun(obs, m) ==> ClearRun(obs, n)
  {
  }

  lemma ExitStep(s: State, o: Observation)
    requires o.cfg.enabled && Counting(s, o.cfg.confirm) && Next(s, o).0.phase in {AtAmbiguous, ExitingPending}
    ensures var n := Next(s, o).0.agree;
            n == 0 || (ClearOut(o) && (n == 1 || (s.phase in {AtAmbiguous, ExitingPending} && n == s.agree + 1)))
  {
  }

  lemma {:induction false} ExitAlwaysRemembered(obs: seq<Observation>, confirm: Byte)
    requires Filtering(obs, confirm)
    ensures ExitRemembered(obs)
  {
    hide Next, ClearOut;
    if obs != [] && Run(obs).phase in {AtAmbiguous, ExitingPending} {
      var before, o := obs[..|obs| - 1], obs[|obs| - 1];
      ExitAlwaysRemembered(before, confirm);
      RunCounting(before, confirm);
      RunsExtend(before, obs);
      ExitStep(Run(before), o);
    }
  }

  // ------------------------------------------------------------------------------------ settling bound

  /** How many clearly outside observations take the machine to Outside. */
  function Settles(s: State, confirm: Byte): (n: nat)
    ensures n >= 1
  {
    match s.phase
    case AtOutside => 1
    case AtAmbiguous => if s.agree < confirm then confirm - s.agree else 1
    case EnteringPending => if s.pendingFrom == AtAmbiguous then 1 + (if confirm == 0 then 1 else confirm) else 1
    case AtInside => if confirm < 2 then 2 else confirm
    case ExitingPending => if s.agree < confirm then confirm - s.agree else 1
  }

  /** Never more than one above the confirmation count, exactly when that count is positive. */
  lemma SettlesSoon(confirm: Byte)
    ensures (forall s :: Settles(s, confirm) <= confirm + 1) <==> confirm >= 1
  {
    if confirm == 0 {
      assert Settles(FRESH.(phase := AtInside), confirm) == 2;
    }
  }

  /** A clearly outside observation settles the machine, or brings it one closer. */
  lemma SettleStep(s: State, o: Observation)
    requires o.cfg.enabled && ClearOut(o) && !DeepIn(o) && Counting(s, o.cfg.confirm)
    ensures var (s', verdict) := Next(s, o);
            if Settles(s, o.cfg.confirm) == 1 then s'.phase == AtOutside && verdict == Outside
            else s'.phase != AtOutside && Settles(s', o.cfg.confirm) == Settles(s, o.cfg.confirm) - 1
  {
  }
}
