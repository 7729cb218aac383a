/**
 What the boundary filter reports, told from the observations alone: exactly when an entry is confirmed, when an exit is,
 and when an uncertain report is cleared.
 */
module FilterReports {
  import opened Hysteresis

  /** An entry is pending since j: deep inside at j, nowhere but deep inside or uncertain after it, and all the while the
      zone was not reported as entered. */
  ghost predicate Pending(obs: seq<Observation>, j: nat) {
    Approach(obs, j) && forall k :: j <= k < |obs| ==> Verdict(obs[..k]) != Inside
  }

  ghost predicate HasPending(obs: seq<Observation>) {
    exists j: nat :: Pending(obs, j)
  }

  /** The pending entry began at j, and not before. */
  ghost predicate BeganAt(obs: seq<Observation>, j: nat) {
    Pending(obs, j) && forall i: nat :: i < j ==> !Pending(obs, i)
  }

  /** How many of the latest observations from j on, without interruption, were deep inside. */
  ghost function DeepTail(obs: seq<Observation>, j: nat): (n: nat)
    ensures n <= |obs|
  {
    if |obs| <= j || !DeepIn(obs[|obs| - 1]) then 0 else 1 + DeepTail(obs[..|obs| - 1], j)
  }

  /** How many of the latest observations, without interruption, were clearly outside while the zone was reported as entered. */
  ghost function LeaveTail(obs: seq<Observation>): nat {
    if obs == [] || !ClearOut(obs[|obs| - 1]) || Verdict(obs[..|obs| - 1]) != Inside then 0
    else 1 + LeaveTail(obs[..|obs| - 1])
  }

  /** How many of the latest observations, without interruption, were clearly outside while the report was uncertain and
      no entry was pending. */
  ghost function ClearTail(obs: seq<Observation>): nat {
    if obs == [] || !ClearOut(obs[|obs| - 1]) || DeepIn(obs[|obs| - 1]) then 0
    else
      var before := obs[..|obs| - 1];
      if Verdict(before) != Uncertain || HasPending(before) then 0 else 1 + ClearTail(before)
  }

  /** The last observation confirms the pending entry: it did not begin it, it is deep inside, the run of deep observations
      is long enough as a byte counts it, and the stay since the entry began is long enough. */
  ghost predicate Confirms(obs: seq<Observation>, confirm: Byte) {
    exists j: nat :: BeganAt(obs, j) && ConfirmsFrom(obs, j, confirm)
  }

  ghost predicate ConfirmsFrom(obs: seq<Observation>, j: nat, confirm: Byte) {
    && j + 1 < |obs| && DeepIn(obs[|obs| - 1]) && DeepTail(obs, j) % 256 >= confirm
    && obs[|obs| - 1].at - obs[j].at >= obs[|obs| - 1].cfg.minDwell
  }

  function Most(a: nat, b: nat): nat {
    if a < b then b else a
  }

  // ------------------------------------------------------------------------------------ pending entries

  /** What one more observation does to pending entries, as long as the zone was not reported as entered. */
  lemma PendingStep(obs: seq<Observation>)
    requires obs != []
    ensures var before, o, n := obs[..|obs| - 1], obs[|obs| - 1], |obs| - 1;
            && (Verdict(before) == Inside ==> !HasPending(obs))
            && (Verdict(before) != Inside ==>
                  && (Pending(obs, n) <==> DeepIn(o))
                  && forall j: nat :: j < n ==> (Pending(obs, j) <==> Pending(before, j) && (DeepIn(o) || o.raw == Uncertain)))
            && forall j: nat :: Pending(obs, j) ==> j < |obs|
  {
    hide Verdict, DeepIn;
    var before, o, n := obs[..|obs| - 1], obs[|obs| - 1], |obs| - 1;
    assert forall k :: 0 <= k <= n ==> before[..k] == obs[..k];
    assert obs[..n] == before;
    if Verdict(before) != Inside {
      forall j: nat | j < n ensures Pending(obs, j) <==> Pending(before, j) && (DeepIn(o) || o.raw == Uncertain) {
        if Pending(before, j) && (DeepIn(o) || o.raw == Uncertain) {
          assert Approach(obs, j);
        }
        if Pending(obs, j) {
          assert Approach(before, j);
          assert DeepIn(obs[n]) || obs[n].raw == Uncertain;
          forall k | j <= k < n ensures Verdict(before[..k]) != Inside {
            assert Verdict(obs[..k]) != Inside;
          }
        }
      }
    }
  }

  lemma HasPendingStep(obs: seq<Observation>)
    requires obs != [] && Verdict(obs[..|obs| - 1]) != Inside
    ensures var before, o := obs[..|obs| - 1], obs[|obs| - 1];
            HasPending(obs) <==> DeepIn(o) || (o.raw == Uncertain && HasPending(before))
  {
    hide Verdict, DeepIn, Pending;
    PendingStep(obs);
    var before, o := obs[..|obs| - 1], obs[|obs| - 1];
    if HasPending(before) && o.raw == Uncertain {
      var j: nat :| Pending(before, j);
      PendingShort(before, j);
      assert Pending(obs, j);
    }
  }

  lemma PendingShort(obs: seq<Observation>, j: nat)
    requires Pending(obs, j)
    ensures j < |obs|
  {
  }

  /** Where the pending entry began does not move while it lasts. */
  lemma BeganStep(obs: seq<Observation>, j: nat)
    requires obs != [] && Verdict(obs[..|obs| - 1]) != Inside && BeganAt(obs, j)
    ensures j < |obs| && if HasPending(obs[..|obs| - 1]) then j < |obs| - 1 && BeganAt(obs[..|obs| - 1], j) else j == |obs| - 1
  {
    hide Verdict, DeepIn, Pending;
    PendingStep(obs);
    var before, n := obs[..|obs| - 1], |obs| - 1;
    PendingShort(obs, j);
    if HasPending(before) {
      var i: nat :| Pending(before, i);
      PendingShort(before, i);
      HasPendingStep(obs);
      StillPending(obs, i);
      assert j <= i;
    }
  }

  lemma StillPending(obs: seq<Observation>, i: nat)
    requires obs != [] && Verdict(obs[..|obs| - 1]) != Inside && HasPending(obs) && Pending(obs[..|obs| - 1], i)
    ensures i < |obs| - 1 && Pending(obs, i)
  {
    hide Verdict, DeepIn, Pending;
    PendingStep(obs);
    HasPendingStep(obs);
    PendingShort(obs[..|obs| - 1], i);
  }

  lemma {:induction false} SomeBegan(obs: seq<Observation>, j: nat) returns (i: nat)
    requires Pending(obs, j)
    ensures BeganAt(obs, i)
    decreases j
  {
    hide Pending;
    if k: nat :| k < j && Pending(obs, k) {
      i := SomeBegan(obs, k);
    } else {
      i := j;
    }
  }

  // ------------------------------------------------------------------------- what the machine remembers

  /** The machine's phase and counters, told from the observations. */
  ghost predicate Remembers(obs: seq<Observation>, confirm: Byte) {
    var s, report := Run(obs), Verdict(obs);
    && s.pendingFrom in {AtOutside, AtAmbiguous}
    && (if report == Inside then
          s.phase == (if LeaveTail(obs) == 0 then AtInside else ExitingPending)
          && (LeaveTail(obs) > 0 ==> s.agree == LeaveTail(obs) && LeaveTail(obs) < Most(2, confirm))
        else if HasPending(obs) then
          s.phase == EnteringPending && (s.pendingFrom == AtAmbiguous <==> report == Uncertain)
          && forall j: nat :: BeganAt(obs, j) ==> j < |obs| && s.pendingSince == obs[j].at && s.agree == DeepTail(obs, j) % 256
        else
          s.phase == (if report == Uncertain then AtAmbiguous else AtOutside)
          && (report == Uncertain ==> s.agree == ClearTail(obs) && ClearTail(obs) < Most(1, confirm)))
  }

  lemma NextIs(obs: seq<Observation>)
    requires obs != []
    ensures (Run(obs), Verdict(obs)) == Next(Run(obs[..|obs| - 1]), obs[|obs| - 1])
  {
    hide Next;
  }

  lemma TailSteps(obs: seq<Observation>, confirm: Byte)
    requires obs != []
    ensures var before, o := obs[..|obs| - 1], obs[|obs| - 1];
            && LeaveTail(obs) == (if ClearOut(o) && Verdict(before) == Inside then 1 + LeaveTail(before) else 0)
            && ClearTail(obs) == (if ClearOut(o) && !DeepIn(o) && Verdict(before) == Uncertain && !HasPending(before)
                                  then 1 + ClearTail(before) else 0)
            && forall j: nat :: DeepTail(obs, j) == if j < |obs| && DeepIn(o) then 1 + DeepTail(before, j) else 0
  {
    hide Verdict, HasPending, ClearOut, DeepIn;
  }

  /** The three ways a report can change, or not, at the last observation. */
  ghost predicate ReportIs(obs: seq<Observation>, confirm: Byte)
    requires obs != []
  {
    var before, o := obs[..|obs| - 1], obs[|obs| - 1];
    Verdict(obs) ==
      if Verdict(before) == Inside then (if LeaveTail(obs) >= Most(2, confirm) then Outside else Inside)
      else if Confirms(obs, confirm) then Inside
      else if o.raw == Uncertain then Uncertain
      else if Verdict(before) == Uncertain && ClearTail(obs) >= Most(1, confirm) then Outside
      else Verdict(before)
  }

  lemma UncertainIsNeither(o: Observation)
    ensures o.raw == Uncertain ==> !DeepIn(o) && !ClearOut(o)
  {
  }

  /** While the zone is reported as entered. */
  lemma FromInside(obs: seq<Observation>, confirm: Byte)
    requires obs != [] && Filtering(obs, confirm) && Remembers(obs[..|obs| - 1], confirm) && Verdict(obs[..|obs| - 1]) == Inside
    ensures Remembers(obs, confirm) && ReportIs(obs, confirm)
  {
    hide DeepIn, ClearOut, Verdict, Run, HasPending, Confirms, LeaveTail, ClearTail, DeepTail;
    PendingStep(obs);
    NoPending(obs);
    TailSteps(obs, confirm);
    NextIs(obs);
    UncertainIsNeither(obs[|obs| - 1]);
  }

  lemma NoPending(obs: seq<Observation>)
    requires obs != [] && Verdict(obs[..|obs| - 1]) == Inside
    ensures !HasPending(obs) && forall confirm: Byte :: !Confirms(obs, confirm)
  {
    hide Pending, Verdict;
    PendingStep(obs);
  }

  /** Without a pending entry. */
  lemma FromRest(obs: seq<Observation>, confirm: Byte)
    requires obs != [] && Filtering(obs, confirm) && Remembers(obs[..|obs| - 1], confirm)
    requires Verdict(obs[..|obs| - 1]) != Inside && !HasPending(obs[..|obs| - 1])
    ensures Remembers(obs, confirm) && ReportIs(obs, confirm)
  {
    hide DeepIn, ClearOut, Verdict, Run, HasPending, Confirms, LeaveTail, ClearTail, DeepTail, BeganAt;
    HasPendingStep(obs);
    TailSteps(obs, confirm);
    NextIs(obs);
    UncertainIsNeither(obs[|obs| - 1]);
    forall j: nat | BeganAt(obs, j) ensures j == |obs| - 1 && DeepTail(obs, j) == if DeepIn(obs[|obs| - 1]) then 1 else 0 {
      BeganStep(obs, j);
      DeepFromEnd(obs[..|obs| - 1], j);
    }
    assert !Confirms(obs, confirm) by { NotAtStart(obs, confirm); }
  }

  lemma DeepFromEnd(obs: seq<Observation>, j: nat)
    requires j >= |obs|
    ensures DeepTail(obs, j) == 0
  {
  }

  lemma NotAtStart(obs: seq<Observation>, confirm: Byte)
    requires forall j: nat :: BeganAt(obs, j) ==> j == |obs| - 1
    ensures !Confirms(obs, confirm)
  {
    hide BeganAt;
  }

  /** With a pending entry. */
  lemma FromPending(obs: seq<Observation>, confirm: Byte)
    requires obs != [] && Filtering(obs, confirm) && Remembers(obs[..|obs| - 1], confirm)
    requires Verdict(obs[..|obs| - 1]) != Inside && HasPending(obs[..|obs| - 1])
    ensures Remembers(obs, confirm) && ReportIs(obs, confirm)
    ensures Verdict(obs) == Inside ==> forall j: nat :: BeganAt(obs, j) ==> j < |obs| && Run(obs).insideSince == obs[j].at
  {
    hide DeepIn, ClearOut, Verdict, Run, HasPending, Confirms, LeaveTail, ClearTail, DeepTail, BeganAt;
    var before, o, n := obs[..|obs| - 1], obs[|obs| - 1], |obs| - 1;
    HasPendingStep(obs);
    TailSteps(obs, confirm);
    NextIs(obs);
    UncertainIsNeither(obs[|obs| - 1]);
    forall j: nat | BeganAt(obs, j)
      ensures j < n && obs[j] == before[j] && Run(before).pendingSince == obs[j].at && Run(before).agree == DeepTail(before, j) % 256
    {
      BeganStep(obs, j);
    }
    if DeepIn(o) || o.raw == Uncertain {
      var i := ItBegan(obs);
      BeganOnce(obs, i);
      ConfirmsAt(obs, i, confirm);
      NextByte(DeepTail(before, i));
    } else {
      NotDeep(obs, confirm);
    }
  }

  lemma ItBegan(obs: seq<Observation>) returns (i: nat)
    requires HasPending(obs)
    ensures BeganAt(obs, i)
  {
    var j: nat :| Pending(obs, j);
    i := SomeBegan(obs, j);
  }

  lemma BeganOnce(obs: seq<Observation>, i: nat)
    requires BeganAt(obs, i)
    ensures forall j: nat :: BeganAt(obs, j) ==> j == i
  {
    hide Pending;
  }

  lemma ConfirmsAt(obs: seq<Observation>, i: nat, confirm: Byte)
    requires BeganAt(obs, i) && forall j: nat :: BeganAt(obs, j) ==> j == i
    ensures Confirms(obs, confirm) <==> ConfirmsFrom(obs, i, confirm)
  {
    hide BeganAt, ConfirmsFrom;
  }

  lemma NextByte(n: nat)
    ensures (n + 1) % 256 == (n % 256 + 1) % 256
  {
  }

  lemma NotDeep(obs: seq<Observation>, confirm: Byte)
    requires obs != [] && !DeepIn(obs[|obs| - 1])
    ensures !Confirms(obs, confirm)
  {
    hide BeganAt;
  }

  lemma {:induction false} AlwaysRemembers(obs: seq<Observation>, confirm: Byte)
    requires Filtering(obs, confirm)
    ensures Remembers(obs, confirm) && (obs != [] ==> ReportIs(obs, confirm))
  {
    hide Remembers, ReportIs, Verdict, HasPending;
    if obs == [] {
      StartsOutside(confirm);
    } else {
      var before := obs[..|obs| - 1];
      AlwaysRemembers(before, confirm);
      if Verdict(before) == Inside {
        FromInside(obs, confirm);
      } else if HasPending(before) {
        FromPending(obs, confirm);
      } else {
        FromRest(obs, confirm);
      }
    }
  }

  lemma StartsOutside(confirm: Byte)
    ensures Remembers([], confirm)
  {
  }

  // -------------------------------------------------------------------------------------- exact reports

  /**
   Every report, told from the observations: an entry is reported exactly when the last observation confirms the pending
   one, whatever was reported before it began; an exit exactly when the run of clearly outside observations has two
   members and as many as the confirmation count; an uncertain report is cleared exactly by such a run without a pending
   entry; and otherwise the report stays, unless the last observation was itself uncertain.
   */
  lemma ReportExact(obs: seq<Observation>, confirm: Byte)
    requires Filtering(obs, confirm) && obs != []
    ensures ReportIs(obs, confirm)
  {
    AlwaysRemembers(obs, confirm);
  }

  /** An entry comes if and only if it is confirmed; the zone counts as entered since the pending entry began. */
  lemma EntryExact(obs: seq<Observation>, confirm: Byte)
    requires Filtering(obs, confirm) && obs != [] && Verdict(obs[..|obs| - 1]) != Inside
    ensures Verdict(obs) == Inside <==> Confirms(obs, confirm)
    ensures Verdict(obs) == Inside ==> forall j: nat :: BeganAt(obs, j) ==> j < |obs| && Run(obs).insideSince == obs[j].at
  {
    hide Remembers, Verdict, HasPending, Confirms, BeganAt;
    var before := obs[..|obs| - 1];
    AlwaysRemembers(obs, confirm);
    AlwaysRemembers(before, confirm);
    if HasPending(before) {
      FromPending(obs, confirm);
    } else if Verdict(obs) == Inside {
      OnlyNew(obs, confirm);
    }
  }

  lemma OnlyNew(obs: seq<Observation>, confirm: Byte)
    requires obs != [] && Verdict(obs[..|obs| - 1]) != Inside && !HasPending(obs[..|obs| - 1])
    ensures !Confirms(obs, confirm)
  {
    hide Verdict, HasPending, BeganAt, Confirms;
    forall j: nat | BeganAt(obs, j) ensures j == |obs| - 1 {
      BeganStep(obs, j);
    }
    NotAtStart(obs, confirm);
  }

  /**
   No tourist who stays deep inside is overlooked: at the last of a run of deep observations that has two members and as
   many as the confirmation count (no more than a byte counts), the last of them long enough after the pending entry
   began, the entry is reported.
   */
  lemma DeepStayEnters(obs: seq<Observation>, confirm: Byte, j: nat)
    requires Filtering(obs, confirm) && obs != [] && Verdict(obs[..|obs| - 1]) != Inside && BeganAt(obs, j)
    requires Most(2, confirm) <= DeepTail(obs, j) <= 255
    requires obs[|obs| - 1].at - obs[j].at >= obs[|obs| - 1].cfg.minDwell
    ensures Verdict(obs) == Inside
  {
    hide Verdict, BeganAt, Confirms;
    EntryExact(obs, confirm);
    DeepTailShort(obs, j);
    assert ConfirmsFrom(obs, j, confirm);
    ConfirmsBy(obs, j, confirm);
  }

  lemma ConfirmsBy(obs: seq<Observation>, j: nat, confirm: Byte)
    requires BeganAt(obs, j) && ConfirmsFrom(obs, j, confirm)
    ensures Confirms(obs, confirm)
  {
    hide BeganAt, ConfirmsFrom;
  }

  lemma {:induction false} DeepTailShort(obs: seq<Observation>, j: nat)
    ensures DeepTail(obs, j) > 0 ==> DeepIn(obs[|obs| - 1]) && DeepTail(obs, j) <= |obs| - j
  {
    hide DeepIn;
    if |obs| > j && DeepIn(obs[|obs| - 1]) {
      DeepTailShort(obs[..|obs| - 1], j);
    }
  }

  /** A flap is flagged exactly when a certain observation abandons a pending entry or a pending exit. */
  lemma FlapExact(obs: seq<Observation>, confirm: Byte)
    requires Filtering(obs, confirm) && obs != []
    ensures var before, o := obs[..|obs| - 1], obs[|obs| - 1];
            Run(obs).suppressed <==>
              && o.raw != Uncertain
              && if Verdict(before) == Inside then LeaveTail(before) > 0 && !ClearOut(o) else HasPending(before) && !DeepIn(o)
  {
    hide DeepIn, ClearOut, Verdict, Run, HasPending, LeaveTail, ClearTail, DeepTail, BeganAt;
    AlwaysRemembers(obs[..|obs| - 1], confirm);
    NextIs(obs);
    UncertainIsNeither(obs[|obs| - 1]);
  }
}
