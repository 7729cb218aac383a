/** Logical clocks: the offline queue of a device and the reconciler that merges batches into one timeline. */
module Lamport {
  import opened Sorting

  const MIN_INT64: int := -0x8000_0000_0000_0000

  type Int64 = x: int | MIN_INT64 <= x <= 0x7fff_ffff_ffff_ffff witness 0

  /** Counter first, device breaks ties. */
  datatype Stamp = Stamp(counter: nat, device: nat) {
    predicate Before(o: Stamp) {
      if counter != o.counter then counter < o.counter else device < o.device
    }
  }

  /** The wall clock is untrusted; the skew is filled in by a merge. */
  datatype Event = Event(stamp: Stamp, wall: Int64, payload: seq<bv8>, skew: int)

  predicate AtMost(a: Event, b: Event) {
    !b.stamp.Before(a.stamp)
  }

  // ------------------------------------------------------------------------------------ offline queue

  class OfflineQueue {
    var counter: nat
    var device: nat
    var queue: seq<Event>

    /** Everything this device ever appended, drained or not. */
    ghost var log: seq<Event>

    ghost predicate Valid()
      reads this
    {
      && Appended(log, device, counter) && |queue| <= |log| && queue == log[|log| - |queue|..]
    }

    constructor (self: nat)
      ensures Valid() && queue == [] && log == [] && device == self
    {
      counter, device, queue, log := 0, self, [], [];
    }

    /** A local event advances the logical clock. */
    method Append(payload: seq<bv8>, wall: Int64) returns (c: nat)
      requires Valid()
      modifies this
      ensures Valid() && device == old(device) && c == old(counter) + 1 == counter
      ensures queue == old(queue) + [Event(Stamp(c, device), wall, payload, 0)]
      ensures log == old(log) + [Event(Stamp(c, device), wall, payload, 0)]
    {
      counter := counter + 1;
      c := counter;
      var e := Event(Stamp(c, device), wall, payload, 0);
      queue := queue + [e];
      log := log + [e];
    }

    /** Hands over what is pending; nothing is handed over twice. */
    method Drain() returns (out: seq<Event>)
      requires Valid()
      modifies `queue
      ensures Valid() && queue == [] && out == old(queue)
    {
      out := queue;
      queue := [];
      assert log[|log|..] == [];
    }
  }

  /** Stamped by the device, with rising counters. */
  ghost predicate Appended(log: seq<Event>, device: nat, counter: nat) {
    && (forall i :: 0 <= i < |log| ==> log[i].stamp.device == device && log[i].stamp.counter <= counter)
    && forall i, j :: 0 <= i < j < |log| ==> log[i].stamp.counter < log[j].stamp.counter
  }

  // ------------------------------------------------------------------------------------ skew analysis

  /** The latest wall clock so far; the least value when there is none. */
  function MaxWall(es: seq<Event>): int {
    if es == [] then MIN_INT64
    else
      var m, w := MaxWall(es[..|es| - 1]), es[|es| - 1].wall;
      if m < w then w else m
  }

  /** Causally next but earlier on the wall clock. */
  predicate Backwards(es: seq<Event>, k: nat)
    requires k < |es|
  {
    MaxWall(es[..k]) != MIN_INT64 && es[k].wall < MaxWall(es[..k])
  }

  /** Negative when the device is behind. */
  function SkewAt(es: seq<Event>, k: nat): int
    requires k < |es|
  {
    if Backwards(es, k) then es[k].wall - MaxWall(es[..k]) else 0
  }

  function Reordered(es: seq<Event>): nat {
    if es == [] then 0 else Reordered(es[..|es| - 1]) + if Backwards(es, |es| - 1) then 1 else 0
  }

  function MaxSkew(es: seq<Event>): int {
    if es == [] then 0
    else
      var m, s := MaxSkew(es[..|es| - 1]), -SkewAt(es, |es| - 1);
      if s > m then s else m
  }

  lemma {:induction false} MaxWallExact(es: seq<Event>)
    ensures forall k :: 0 <= k < |es| ==> es[k].wall <= MaxWall(es)
    ensures if es == [] then MaxWall(es) == MIN_INT64 else exists k :: 0 <= k < |es| && es[k].wall == MaxWall(es)
  {
    if es != [] {
      var n := |es| - 1;
      MaxWallExact(es[..n]);
      if MaxWall(es) != es[n].wall {
        var k :| 0 <= k < n && es[..n][k].wall == MaxWall(es[..n]);
        assert es[k].wall == MaxWall(es);
      }
    }
  }

  /** How far event k is behind some earlier event, at most. */
  ghost predicate BehindBy(es: seq<Event>, k: nat, skew: int)
    requires k < |es|
  {
    && (forall j :: 0 <= j < k ==> es[j].wall - es[k].wall <= skew)
    && (if skew == 0 then true else skew > 0 && exists j :: 0 <= j < k && es[j].wall - es[k].wall == skew)
  }

  /** The skew of an event is how far its wall clock is behind the furthest event before it; it is not behind any when the
      skew is zero. */
  lemma SkewExact(es: seq<Event>, k: nat)
    requires k < |es|
    ensures BehindBy(es, k, -SkewAt(es, k)) && (SkewAt(es, k) < 0 <==> Backwards(es, k))
  {
    hide MaxWall;
    MaxWallExact(es[..k]);
    assert forall j :: 0 <= j < k ==> es[..k][j] == es[j];
    if Backwards(es, k) {
      var j :| 0 <= j < k && es[..k][j].wall == MaxWall(es[..k]);
      assert es[j].wall - es[k].wall == -SkewAt(es, k);
    }
  }

  /** The events behind an earlier one, among the first n. */
  ghost function Behind(es: seq<Event>, n: nat): set<nat>
    requires n <= |es|
  {
    set k: nat | k < n && SkewAt(es, k) < 0
  }

  /** The count and the maximum that a walk reports. */
  lemma {:induction false} TotalsExact(es: seq<Event>, n: nat)
    requires n <= |es|
    ensures Reordered(es[..n]) == |Behind(es, n)|
    ensures forall k :: 0 <= k < n ==> -SkewAt(es, k) <= MaxSkew(es[..n])
    ensures MaxSkew(es[..n]) == 0 || exists k :: 0 <= k < n && -SkewAt(es, k) == MaxSkew(es[..n])
  {
    hide SkewAt, Backwards;
    if n > 0 {
      TotalsExact(es, n - 1);
      var upTo := es[..n];
      assert upTo[..n - 1] == es[..n - 1];
      SameWallsBefore(es, n);
      SkewExact(es, n - 1);
      if SkewAt(es, n - 1) < 0 {
        forall k: nat ensures k in Behind(es, n) <==> k in Behind(es, n - 1) + {n - 1} {
        }
        assert Behind(es, n) == Behind(es, n - 1) + {n - 1} && n - 1 !in Behind(es, n - 1);
      } else {
        assert Behind(es, n) == Behind(es, n - 1);
      }
    } else {
      assert Behind(es, 0) == {} && es[..0] == [];
    }
  }

  lemma SameWallsBefore(es: seq<Event>, n: nat)
    requires 0 < n <= |es|
    ensures Backwards(es[..n], n - 1) == Backwards(es, n - 1) && SkewAt(es[..n], n - 1) == SkewAt(es, n - 1)
  {
    hide MaxWall;
    assert es[..n][..n - 1] == es[..n - 1];
  }

  ghost predicate Annotated(es: seq<Event>) {
    forall k :: 0 <= k < |es| ==> es[k].skew == SkewAt(es, k)
  }

  /** Only the wall clocks matter. */
  ghost predicate SameWalls(a: seq<Event>, b: seq<Event>) {
    |a| == |b| && forall k :: 0 <= k < |a| ==> a[k].wall == b[k].wall
  }

  lemma {:induction false} WallsDecide(a: seq<Event>, b: seq<Event>)
    requires SameWalls(a, b)
    ensures MaxWall(a) == MaxWall(b) && Reordered(a) == Reordered(b) && MaxSkew(a) == MaxSkew(b)
  {
    if a != [] {
      WallsDecide(a[..|a| - 1], b[..|b| - 1]);
    }
  }

  lemma SameSkews(a: seq<Event>, b: seq<Event>, k: nat)
    requires SameWalls(a, b) && k < |a|
    ensures SkewAt(a, k) == SkewAt(b, k)
  {
    WallsDecide(a[..k], b[..k]);
  }

  // --------------------------------------------------------------------------------------- reconciler

  function Core(e: Event): Event {
    e.(skew := 0)
  }

  ghost predicate StrictlyOrdered(es: seq<Event>) {
    forall i, j :: 0 <= i < j < |es| ==> es[i].stamp.Before(es[j].stamp)
  }

  ghost predicate HoldsCore(es: seq<Event>, c: Event) {
    exists e :: e in es && Core(e) == c
  }

  ghost predicate HoldsStamp(es: seq<Event>, s: Stamp) {
    exists e :: e in es && e.stamp == s
  }

  /** The timeline has one event per stamp offered, and no event that was not offered. */
  ghost predicate Covers(timeline: seq<Event>, offered: seq<Event>) {
    && (forall e :: e in timeline ==> HoldsCore(offered, Core(e)))
    && (forall e :: e in offered ==> HoldsStamp(timeline, e.stamp))
  }

  /** The events of a batch whose stamps are new, in order; a stamp is new once. */
  function NewOnes(seen: set<Stamp>, batch: seq<Event>): seq<Event>
    decreases |batch|
  {
    if batch == [] then []
    else if batch[0].stamp in seen then NewOnes(seen, batch[1..])
    else [batch[0]] + NewOnes(seen + {batch[0].stamp}, batch[1..])
  }

  lemma NewOnesStep(seen: set<Stamp>, batch: seq<Event>, i: nat)
    requires i < |batch|
    ensures NewOnes(seen, batch[i..]) ==
              if batch[i].stamp in seen then NewOnes(seen, batch[i + 1..])
              else [batch[i]] + NewOnes(seen + {batch[i].stamp}, batch[i + 1..])
  {
    assert batch[i..][1..] == batch[i + 1..];
  }

  /** Neither the clock nor a counter is above m. */
  ghost predicate NotAbove(m: nat, clock: nat, es: seq<Event>) {
    clock <= m && forall k :: 0 <= k < |es| ==> es[k].stamp.counter <= m
  }

  lemma AboveClock(clock: nat)
    ensures forall m: nat :: NotAbove(m, clock, []) ==> clock <= m
  {
  }

  lemma AboveMore(clock: nat, es: seq<Event>, e: Event)
    ensures forall m: nat :: NotAbove(m, clock, es + [e]) ==> NotAbove(m, clock, es) && e.stamp.counter <= m
  {
    forall m: nat | NotAbove(m, clock, es + [e]) ensures NotAbove(m, clock, es) && e.stamp.counter <= m {
      assert forall k :: 0 <= k < |es| ==> (es + [e])[k] == es[k];
      assert (es + [e])[|es|] == e;
    }
  }

  class Reconciler {
    var clock: nat
    var timeline: seq<Event>
    var seen: set<Stamp>
    var merged: nat
    var duplicates: nat
    var reordered: nat
    var maxSkew: int

    /** Every event of every batch so far, in arrival order. */
    ghost var offered: seq<Event>

    ghost predicate Valid()
      reads this
    {
      && StrictlyOrdered(timeline) && Annotated(timeline) && Covers(timeline, offered) && Index(timeline, seen)
      && merged == |timeline| && merged + duplicates == |offered|
      && reordered == Reordered(timeline) && maxSkew == MaxSkew(timeline)
      && forall e :: e in timeline ==> e.stamp.counter < clock
    }

    constructor ()
      ensures Valid() && offered == []
    {
      clock, timeline, seen, merged, duplicates, reordered, maxSkew := 0, [], {}, 0, 0, 0, 0;
      offered := [];
    }

    /** Admits the events of a batch whose stamps are new, re-sorts, and recomputes the skew analysis. */
    method Merge(batch: seq<Event>) returns (admitted: nat, added: seq<Event>)
      requires Valid()
      modifies this
      ensures Valid() && offered == old(offered) + batch
      ensures admitted == |added| && merged == old(merged) + admitted && |timeline| == |old(timeline)| + admitted
      ensures added == NewOnes(old(seen), batch) && forall e :: e in added ==> !HoldsStamp(old(timeline), e.stamp)
      ensures SameCores(Sort(old(timeline) + added, AtMost), timeline)
      ensures old(clock) + admitted <= clock && forall m: nat :: NotAbove(m, old(clock), added) ==> clock <= m + admitted
    {
      hide NotAbove, Annotated, Covers, Index, StrictlyOrdered, Sort, HoldsStamp, SameCores, Merging, NewOnes, Reordered, MaxSkew;
      admitted, added := 0, [];
      ghost var before := timeline;
      MergeStarts(timeline, seen, offered, batch);
      AboveClock(clock);
      for i := 0 to |batch|
        invariant admitted == |added| && merged == old(merged) + admitted && timeline == before + added
        invariant merged + duplicates == |old(offered)| + i && offered == old(offered)
        invariant Merging(before, added, old(seen), seen, offered, batch, i)
        invariant forall e :: e in timeline ==> e.stamp.counter < clock
        invariant old(clock) + admitted <= clock && forall m: nat :: NotAbove(m, old(clock), added) ==> clock <= m + admitted
      {
        var e := batch[i];
        AboveMore(old(clock), added, e);
        MergeStep(before, added, old(seen), seen, offered, batch, i);
        if e.stamp in seen {
          duplicates := duplicates + 1;
          continue;
        }
        seen := seen + {e.stamp};
        clock := (if e.stamp.counter > clock then e.stamp.counter else clock) + 1;
        timeline := timeline + [e];
        added := added + [e];
        admitted, merged := admitted + 1, merged + 1;
      }
      MergeEnds(before, added, old(seen), seen, offered, batch);
      timeline := Sort(timeline, AtMost);
      offered := offered + batch;
      ghost var sorted := timeline;
      Annotate();
      CoresKeep(sorted, timeline, offered, seen, clock);
    }

    /** Walks the timeline in causal order; a wall clock that runs backwards shows how far its device is off. */
    method Annotate()
      modifies `timeline, `reordered, `maxSkew
      ensures SameCores(old(timeline), timeline)
      ensures Annotated(timeline) && reordered == Reordered(timeline) && maxSkew == MaxSkew(timeline)
    {
      hide SameCores, SkewedUpTo, MaxWall, Reordered, MaxSkew, Annotated;
      reordered, maxSkew := 0, 0;
      var running := MIN_INT64;
      ghost var start := timeline;
      AnnotationStarts(start);
      for i := 0 to |timeline|
        invariant |timeline| == |start| && SameCores(start, timeline) && SkewedUpTo(start, timeline, i)
        invariant running == MaxWall(start[..i]) && reordered == Reordered(start[..i]) && maxSkew == MaxSkew(start[..i])
      {
        SkewStep(start, timeline, i);
        var e := timeline[i];
        if running != MIN_INT64 && e.wall < running {
          reordered := reordered + 1;
          var skew := running - e.wall;
          timeline := timeline[i := e.(skew := -skew)];
          if skew > maxSkew { maxSkew := skew; }
        } else {
          timeline := timeline[i := e.(skew := 0)];
        }
        running := if running < e.wall then e.wall else running;
      }
      AnnotationDone(start, timeline);
    }
  }

  /** The first i events carry the skew that their place in the timeline gives them. */
  ghost predicate SkewedUpTo(start: seq<Event>, es: seq<Event>, i: nat)
    requires |es| == |start| && i <= |es|
  {
    forall k :: 0 <= k < i ==> es[k].skew == SkewAt(start, k)
  }

  ghost predicate SameCores(a: seq<Event>, b: seq<Event>) {
    |a| == |b| && forall k :: 0 <= k < |a| ==> Core(a[k]) == Core(b[k])
  }

  lemma AnnotationStarts(es: seq<Event>)
    ensures SameCores(es, es) && SkewedUpTo(es, es, 0)
    ensures MaxWall(es[..0]) == MIN_INT64 && Reordered(es[..0]) == 0 && MaxSkew(es[..0]) == 0
  {
  }

  lemma SkewStep(start: seq<Event>, es: seq<Event>, i: nat)
    requires SameCores(start, es) && i < |es| == |start| && SkewedUpTo(start, es, i)
    ensures var m, wall := MaxWall(start[..i]), es[i].wall;
            var back := m != MIN_INT64 && wall < m;
            var skew := if back then m - wall else 0;
            && MaxWall(start[..i + 1]) == (if m < wall then wall else m)
            && Reordered(start[..i + 1]) == Reordered(start[..i]) + (if back then 1 else 0)
            && MaxSkew(start[..i + 1]) == (if skew > MaxSkew(start[..i]) then skew else MaxSkew(start[..i]))
            && SameCores(start, es[i := es[i].(skew := -skew)]) && SkewedUpTo(start, es[i := es[i].(skew := -skew)], i + 1)
            && MaxSkew(start[..i]) >= 0
  {
    var upTo := start[..i + 1];
    assert upTo[..i] == start[..i] && upTo[i] == start[i];
    assert Core(start[i]).wall == Core(es[i]).wall;
    MaxSkewNatural(start[..i]);
  }

  lemma {:induction false} MaxSkewNatural(es: seq<Event>)
    ensures MaxSkew(es) >= 0
  {
    if es != [] {
      MaxSkewNatural(es[..|es| - 1]);
    }
  }

  lemma AnnotationDone(start: seq<Event>, es: seq<Event>)
    requires SameCores(start, es) && |es| == |start| && SkewedUpTo(start, es, |es|)
    ensures Annotated(es)
    ensures Reordered(start[..|start|]) == Reordered(es) && MaxSkew(start[..|start|]) == MaxSkew(es)
  {
    hide MaxWall, Reordered, MaxSkew, SkewAt;
    assert start[..|start|] == start;
    forall k | 0 <= k < |es| ensures start[k].wall == es[k].wall {
      assert Core(start[k]).wall == Core(es[k]).wall;
    }
    WallsDecide(start, es);
    forall k | 0 <= k < |es| ensures es[k].skew == SkewAt(es, k) {
      SameSkews(start, es, k);
    }
  }

  /** The stamps already held. */
  ghost predicate Index(timeline: seq<Event>, seen: set<Stamp>) {
    forall s :: s in seen <==> HoldsStamp(timeline, s)
  }

  /** Part of a batch admitted, before sorting. */
  ghost predicate Admitted(before: seq<Event>, added: seq<Event>, seen: set<Stamp>, offered: seq<Event>, part: seq<Event>) {
    && Covers(before + added, offered + part) && Index(before + added, seen)
    && forall i, j :: 0 <= i < j < |before + added| ==> (before + added)[i].stamp != (before + added)[j].stamp
  }

  lemma AdmitNothing(timeline: seq<Event>, seen: set<Stamp>, offered: seq<Event>, batch: seq<Event>)
    requires StrictlyOrdered(timeline) && Covers(timeline, offered) && Index(timeline, seen)
    ensures Admitted(timeline, [], seen, offered, batch[..0])
  {
    hide HoldsStamp, HoldsCore;
    assert timeline + [] == timeline && offered + batch[..0] == offered;
  }

  lemma HoldsMore(es: seq<Event>, e: Event, s: Stamp, c: Event)
    ensures HoldsStamp(es + [e], s) <==> HoldsStamp(es, s) || e.stamp == s
    ensures HoldsCore(es + [e], c) <==> HoldsCore(es, c) || Core(e) == c
  {
    assert e in es + [e];
  }

  /** The next event of a batch: rejected when its stamp is held, admitted otherwise. */
  lemma AdmitOne(before: seq<Event>, added: seq<Event>, seen: set<Stamp>, offered: seq<Event>, batch: seq<Event>, i: nat)
    requires i < |batch| && Admitted(before, added, seen, offered, batch[..i])
    ensures var e := batch[i];
            && (e.stamp in seen ==> Admitted(before, added, seen, offered, batch[..i + 1]))
            && (e.stamp !in seen ==> Admitted(before, added + [e], seen + {e.stamp}, offered, batch[..i + 1])
                                     && !HoldsStamp(before, e.stamp))
  {
    hide HoldsStamp, HoldsCore;
    var e := batch[i];
    var held, more := before + added, offered + batch[..i];
    assert offered + batch[..i + 1] == more + [e] && before + (added + [e]) == held + [e];
    CoversReject(held, more, e, seen);
    if e.stamp !in seen {
      CoversAdmit(held, more, e);
      IndexAdmit(held, seen, e);
      NotHeld(before, added, e.stamp);
    }
  }

  lemma NotHeld(before: seq<Event>, added: seq<Event>, s: Stamp)
    requires !HoldsStamp(before + added, s)
    ensures !HoldsStamp(before, s) && forall i :: 0 <= i < |before + added| ==> (before + added)[i].stamp != s
  {
    forall e | e in before ensures e.stamp != s {
      assert e in before + added;
    }
    forall i | 0 <= i < |before + added| ensures (before + added)[i].stamp != s {
      assert (before + added)[i] in before + added;
    }
  }

  lemma CoversReject(held: seq<Event>, offered: seq<Event>, e: Event, seen: set<Stamp>)
    requires Covers(held, offered) && Index(held, seen)
    ensures e.stamp in seen ==> Covers(held, offered + [e])
  {
    hide HoldsStamp, HoldsCore;
    forall x | x in held ensures HoldsCore(offered + [e], Core(x)) {
      HoldsMore(offered, e, x.stamp, Core(x));
    }
  }

  lemma CoversAdmit(held: seq<Event>, offered: seq<Event>, e: Event)
    requires Covers(held, offered)
    ensures Covers(held + [e], offered + [e])
  {
    hide HoldsStamp, HoldsCore;
    forall x | x in held + [e] ensures HoldsCore(offered + [e], Core(x)) {
      HoldsMore(offered, e, x.stamp, Core(x));
    }
    forall x | x in offered + [e] ensures HoldsStamp(held + [e], x.stamp) {
      HoldsMore(held, e, x.stamp, Core(x));
    }
  }

  lemma IndexAdmit(held: seq<Event>, seen: set<Stamp>, e: Event)
    requires Index(held, seen)
    ensures Index(held + [e], seen + {e.stamp})
  {
    hide HoldsStamp;
    forall s ensures s in seen + {e.stamp} <==> HoldsStamp(held + [e], s) {
      HoldsMore(held, e, s, Core(e));
    }
  }

  /** A batch admitted up to position i. */
  ghost predicate Merging(before: seq<Event>, added: seq<Event>, seen0: set<Stamp>, seen: set<Stamp>, offered: seq<Event>,
                          batch: seq<Event>, i: nat)
  {
    && i <= |batch| && Admitted(before, added, seen, offered, batch[..i])
    && added + NewOnes(seen, batch[i..]) == NewOnes(seen0, batch)
    && forall e :: e in added ==> !HoldsStamp(before, e.stamp)
  }

  lemma MergeStarts(timeline: seq<Event>, seen: set<Stamp>, offered: seq<Event>, batch: seq<Event>)
    requires StrictlyOrdered(timeline) && Covers(timeline, offered) && Index(timeline, seen)
    ensures Merging(timeline, [], seen, seen, offered, batch, 0) && timeline + [] == timeline
  {
    hide Admitted, HoldsStamp;
    AdmitNothing(timeline, seen, offered, batch);
    assert batch[0..] == batch;
  }

  lemma MergeStep(before: seq<Event>, added: seq<Event>, seen0: set<Stamp>, seen: set<Stamp>, offered: seq<Event>,
                  batch: seq<Event>, i: nat)
    requires i < |batch| && Merging(before, added, seen0, seen, offered, batch, i)
    ensures var e := batch[i];
            && (e.stamp in seen ==> Merging(before, added, seen0, seen, offered, batch, i + 1))
            && (e.stamp !in seen ==> Merging(before, added + [e], seen0, seen + {e.stamp}, offered, batch, i + 1))
  {
    hide Admitted, HoldsStamp, NewOnes;
    AdmitOne(before, added, seen, offered, batch, i);
    NewOnesStep(seen, batch, i);
    var rest := NewOnes(seen + {batch[i].stamp}, batch[i + 1..]);
    assert added + ([batch[i]] + rest) == (added + [batch[i]]) + rest;
  }

  lemma MergeEnds(before: seq<Event>, added: seq<Event>, seen0: set<Stamp>, seen: set<Stamp>, offered: seq<Event>,
                  batch: seq<Event>)
    requires Merging(before, added, seen0, seen, offered, batch, |batch|)
    ensures added == NewOnes(seen0, batch) && forall e :: e in added ==> !HoldsStamp(before, e.stamp)
    ensures var t := Sort(before + added, AtMost);
            && StrictlyOrdered(t) && Covers(t, offered + batch) && Index(t, seen) && |t| == |before + added|
            && forall e :: e in t <==> e in before + added
  {
    hide Admitted, HoldsStamp, Sort, StrictlyOrdered, Covers, Index;
    assert batch[..|batch|] == batch && batch[|batch|..] == [];
    SortAdmitted(before, added, seen, offered, batch);
  }

  lemma StampsTotal()
    ensures Preorder(AtMost)
  {
  }

  /** Sorting by stamp orders the timeline strictly, since no stamp is held twice. */
  lemma SortAdmitted(before: seq<Event>, added: seq<Event>, seen: set<Stamp>, offered: seq<Event>, batch: seq<Event>)
    requires Admitted(before, added, seen, offered, batch)
    ensures var t := Sort(before + added, AtMost);
            && StrictlyOrdered(t) && Covers(t, offered + batch) && Index(t, seen) && |t| == |before + added|
            && forall e :: e in t <==> e in before + added
  {
    hide Sort, Preorder, HoldsCore;
    var held := before + added;
    var t := Sort(held, AtMost);
    StampsTotal();
    SortSorts(held, AtMost);
    SortPermutes(held, AtMost);
    forall s ensures HoldsStamp(t, s) <==> HoldsStamp(held, s) {
    }
    StrictBySort(held, t);
  }

  lemma StrictBySort(held: seq<Event>, t: seq<Event>)
    requires multiset(t) == multiset(held) && Sorted(t, AtMost)
    requires forall i, j :: 0 <= i < j < |held| ==> held[i].stamp != held[j].stamp
    ensures StrictlyOrdered(t)
  {
    forall i, j | 0 <= i < j < |t| ensures t[i].stamp.Before(t[j].stamp) {
      DistinctStamps(held, t, i, j);
      assert AtMost(t[i], t[j]);
    }
  }

  lemma DistinctStamps(held: seq<Event>, t: seq<Event>, i: nat, j: nat)
    requires multiset(t) == multiset(held) && i < j < |t|
    requires forall a, b :: 0 <= a < b < |held| ==> held[a].stamp != held[b].stamp
    ensures t[i].stamp != t[j].stamp
  {
    MultisetMembers(t, held);
    var x, y := t[i], t[j];
    if x == y {
      assert t == t[..j] + t[j..] && x in t[..j] && x in t[j..];
      assert multiset(held)[x] >= 2;
      OnlyOnce(held, x);
    } else {
      assert x in held && y in held;
      var a :| 0 <= a < |held| && held[a] == x;
      var b :| 0 <= b < |held| && held[b] == y;
      assert a != b;
    }
  }

  lemma {:induction false} OnlyOnce(held: seq<Event>, x: Event)
    requires forall a, b :: 0 <= a < b < |held| ==> held[a].stamp != held[b].stamp
    ensures multiset(held)[x] <= 1
  {
    if held != [] {
      var init, last := held[..|held| - 1], held[|held| - 1];
      OnlyOnce(init, x);
      assert held == init + [last];
      assert last !in init;
    }
  }

  /** Rewriting skews changes nothing else. */
  lemma CoresKeep(a: seq<Event>, b: seq<Event>, offered: seq<Event>, seen: set<Stamp>, clock: nat)
    requires SameCores(a, b) && StrictlyOrdered(a)
    requires Covers(a, offered) && Index(a, seen) && forall e :: e in a ==> e.stamp.counter < clock
    ensures |a| == |b| && StrictlyOrdered(b) && Covers(b, offered) && Index(b, seen)
    ensures forall e :: e in b ==> e.stamp.counter < clock
  {
    hide HoldsCore;
    forall k | 0 <= k < |b| ensures b[k].stamp == a[k].stamp && Core(b[k]) == Core(a[k]) {
      assert Core(b[k]).stamp == Core(a[k]).stamp;
    }
    forall s ensures HoldsStamp(b, s) <==> HoldsStamp(a, s) {
      StampCarries(a, b, s);
      StampCarries(b, a, s);
    }
    forall e | e in b ensures HoldsCore(offered, Core(e)) && e.stamp.counter < clock {
      var k :| 0 <= k < |b| && b[k] == e;
      assert a[k] in a;
    }
  }

  lemma StampCarries(a: seq<Event>, b: seq<Event>, s: Stamp)
    requires |a| == |b| && forall k :: 0 <= k < |b| ==> b[k].stamp == a[k].stamp
    ensures HoldsStamp(a, s) ==> HoldsStamp(b, s)
  {
    if HoldsStamp(a, s) {
      var e :| e in a && e.stamp == s;
      var k :| 0 <= k < |a| && a[k] == e;
      assert b[k] in b;
    }
  }

  // --------------------------------------------------------------------------------------- confluence

  /** A stamp identifies its event. */
  ghost predicate StampsIdentify(offered: seq<Event>) {
    forall a, b :: a in offered && b in offered && a.stamp == b.stamp ==> Core(a) == Core(b)
  }

  /** The two sequences of offers cover the same events, however often, in whatever order. */
  ghost predicate SameEvents(a: seq<Event>, b: seq<Event>) {
    forall c: Event :: HoldsCore(a, c) <==> HoldsCore(b, c)
  }

  lemma CoveredCores(timeline: seq<Event>, offered: seq<Event>, c: Event)
    requires Covers(timeline, offered) && StampsIdentify(offered)
    ensures HoldsCore(timeline, c) <==> HoldsCore(offered, c)
  {
    if HoldsCore(offered, c) {
      var e :| e in offered && Core(e) == c;
      assert HoldsStamp(timeline, e.stamp);
      var t :| t in timeline && t.stamp == e.stamp;
      assert HoldsCore(offered, Core(t));
      var o :| o in offered && Core(o) == Core(t);
      assert o.stamp == Core(o).stamp == e.stamp;
      assert Core(t) == c;
    }
  }

  function Cores(es: seq<Event>): (cs: seq<Event>)
    ensures |cs| == |es| && forall k :: 0 <= k < |es| ==> cs[k] == Core(es[k])
  {
    seq(|es|, k requires 0 <= k < |es| => Core(es[k]))
  }

  lemma CoresHold(es: seq<Event>, c: Event)
    ensures HoldsCore(es, c) <==> c in Cores(es)
  {
    if HoldsCore(es, c) {
      var e :| e in es && Core(e) == c;
      var k :| 0 <= k < |es| && es[k] == e;
      assert Cores(es)[k] == c;
    }
    if c in Cores(es) {
      var k :| 0 <= k < |es| && Cores(es)[k] == c;
      assert es[k] in es;
    }
  }

  lemma CoresOrdered(es: seq<Event>)
    requires StrictlyOrdered(es)
    ensures StrictlyOrdered(Cores(es))
  {
    forall i, j | 0 <= i < j < |es| ensures Cores(es)[i].stamp.Before(Cores(es)[j].stamp) {
      assert Cores(es)[i].stamp == es[i].stamp && Cores(es)[j].stamp == es[j].stamp;
    }
  }

  lemma LastIsLatest(es: seq<Event>, e: Event)
    requires StrictlyOrdered(es) && e in es
    ensures e == es[|es| - 1] || e.stamp.Before(es[|es| - 1].stamp)
  {
  }

  lemma WithoutLatest(es: seq<Event>, e: Event)
    requires StrictlyOrdered(es) && es != []
    ensures e in es[..|es| - 1] <==> e in es && e != es[|es| - 1]
  {
    assert es == es[..|es| - 1] + [es[|es| - 1]];
  }

  /** Equal members, equal last elements. */
  lemma SameLatest(a: seq<Event>, b: seq<Event>)
    requires StrictlyOrdered(a) && StrictlyOrdered(b) && a != [] && forall e :: e in a <==> e in b
    ensures b != [] && a[|a| - 1] == b[|b| - 1]
  {
    hide StrictlyOrdered;
    assert a[|a| - 1] in b;
    assert b[|b| - 1] in a;
    LastIsLatest(a, b[|b| - 1]);
    LastIsLatest(b, a[|a| - 1]);
  }

  lemma InitOrdered(es: seq<Event>)
    requires StrictlyOrdered(es) && es != []
    ensures StrictlyOrdered(es[..|es| - 1])
  {
  }

  /** A strictly ordered list is determined by its members. */
  lemma {:induction false} OrderedUnique(a: seq<Event>, b: seq<Event>)
    requires StrictlyOrdered(a) && StrictlyOrdered(b) && forall e :: e in a <==> e in b
    ensures a == b
  {
    hide StrictlyOrdered;
    assert b != [] ==> b[|b| - 1] in a;
    if a != [] {
      SameLatest(a, b);
      InitOrdered(a);
      InitOrdered(b);
      var a', b' := a[..|a| - 1], b[..|b| - 1];
      forall e ensures e in a' <==> e in b' {
        WithoutLatest(a, e);
        WithoutLatest(b, e);
      }
      OrderedUnique(a', b');
      assert a == a' + [a[|a| - 1]] && b == b' + [b[|b| - 1]];
    }
  }

  lemma SameTimelineCores(a: seq<Event>, offeredA: seq<Event>, b: seq<Event>, offeredB: seq<Event>)
    requires StrictlyOrdered(a) && Covers(a, offeredA) && StampsIdentify(offeredA)
    requires StrictlyOrdered(b) && Covers(b, offeredB) && StampsIdentify(offeredB)
    requires SameEvents(offeredA, offeredB)
    ensures Cores(a) == Cores(b)
  {
    hide StrictlyOrdered, Covers, StampsIdentify, HoldsCore, Cores;
    CoresOrdered(a);
    CoresOrdered(b);
    forall c ensures c in Cores(a) <==> c in Cores(b) {
      CoresHold(a, c);
      CoresHold(b, c);
      CoveredCores(a, offeredA, c);
      CoveredCores(b, offeredB, c);
    }
    OrderedUnique(Cores(a), Cores(b));
  }

  /**
   Confluence: whatever the batches, their order, splits and repetitions, reconcilers that were offered the same events
   hold the same timeline, skew annotations, reordered count and maximum skew.
   */
  lemma Confluent(a: Reconciler, b: Reconciler)
    requires a.Valid() && b.Valid() && StampsIdentify(a.offered) && StampsIdentify(b.offered)
    requires SameEvents(a.offered, b.offered)
    ensures a.timeline == b.timeline && a.reordered == b.reordered && a.maxSkew == b.maxSkew && a.merged == b.merged
  {
    hide StrictlyOrdered, Covers, StampsIdentify, SameEvents, Index;
    SameTimelineCores(a.timeline, a.offered, b.timeline, b.offered);
    forall k | 0 <= k < |a.timeline| ensures Core(a.timeline[k]) == Core(b.timeline[k]) {
      assert Cores(a.timeline)[k] == Cores(b.timeline)[k];
    }
    SameAnnotations(a.timeline, b.timeline);
    assert |Cores(a.timeline)| == |Cores(b.timeline)|;
  }

  lemma SameAnnotations(a: seq<Event>, b: seq<Event>)
    requires |a| == |b| && (forall k :: 0 <= k < |a| ==> Core(a[k]) == Core(b[k])) && Annotated(a) && Annotated(b)
    ensures a == b
  {
    forall k | 0 <= k < |a| ensures a[k].wall == b[k].wall {
      assert Core(a[k]).wall == Core(b[k]).wall;
    }
    forall k | 0 <= k < |a| ensures a[k] == b[k] {
      SameSkews(a, b, k);
      assert a[k] == Core(a[k]).(skew := a[k].skew) && b[k] == Core(b[k]).(skew := b[k].skew);
    }
  }

  /**
   What the reconciler reports: the timeline goes by counter, then device; each event carries how far its wall clock is
   behind the furthest event before it; and the counts say how many are behind, and by how much at most.
   */
  lemma ReportExact(r: Reconciler)
    requires r.Valid()
    ensures forall i, j :: 0 <= i < j < |r.timeline| ==>
              var a, b := r.timeline[i].stamp, r.timeline[j].stamp;
              a.counter < b.counter || (a.counter == b.counter && a.device < b.device)
    ensures forall k :: 0 <= k < |r.timeline| ==> BehindBy(r.timeline, k, -r.timeline[k].skew)
    ensures r.reordered == |set k: nat | k < |r.timeline| && r.timeline[k].skew < 0|
    ensures forall k :: 0 <= k < |r.timeline| ==> -r.timeline[k].skew <= r.maxSkew
    ensures r.maxSkew == 0 || exists k :: 0 <= k < |r.timeline| && -r.timeline[k].skew == r.maxSkew
  {
    hide Covers, Index, MaxWall, Reordered, MaxSkew, SkewAt, BehindBy;
    var es := r.timeline;
    forall k | 0 <= k < |es| ensures BehindBy(es, k, -es[k].skew) {
      SkewExact(es, k);
    }
    TotalsExact(es, |es|);
    assert es[..|es|] == es;
    assert Behind(es, |es|) == set k: nat | k < |es| && es[k].skew < 0;
  }

  /** In the timeline, a device's events stand in the order in which the device appended them. */
  lemma AppendOrderKept(timeline: seq<Event>, log: seq<Event>, device: nat, counter: nat, i: nat, j: nat, a: nat, b: nat)
    requires StrictlyOrdered(timeline) && Appended(log, device, counter) && i < |timeline| && j < |timeline|
    requires a < |log| && b < |log| && timeline[i].stamp == log[a].stamp && timeline[j].stamp == log[b].stamp
    ensures i < j <==> a < b
  {
    assert log[a].stamp.device == log[b].stamp.device;
    if i < j {
      assert timeline[i].stamp.Before(timeline[j].stamp);
    } else if j < i {
      assert timeline[j].stamp.Before(timeline[i].stamp);
    }
    if b < a {
      assert log[b].stamp.counter < log[a].stamp.counter;
    } else if a < b {
      assert log[a].stamp.counter < log[b].stamp.counter;
    }
  }
}
