/**
 The time-travelling zone index: one immutable tree per version, an append-only validity log per zone, and queries
 against the past. Its reference is a replay of the calls made so far.
 */
module VersionedIndex {
  import opened Geometry
  import opened LinearScan
  import opened PersistentTree
  import opened QuadNodes
  import opened Wrappers

  const FOREVER: int := 0x7fff_ffff_ffff_ffff

  /** Half-open [from, to). */
  datatype Validity = Validity(from: int, to: int) {
    predicate ActiveAt(t: int) {
      from <= t < to
    }
  }

  /** One change of a zone: the version that made it, and whether the zone was present from then on. */
  datatype Record = Record(version: nat, validity: Validity, present: bool)

  /** A validity interval, pointing back at the record it came from. */
  datatype Interval = Interval(from: int, to: int, zone: nat, slot: nat)

  datatype Kind = Added | Removed | ValidityChanged | Replaced

  datatype Change = Change(version: nat, at: int, zone: nat, kind: Kind)

  // ----------------------------------------------------------------------------------------- replay

  datatype Zone = Zone(box: Box, validity: Validity)

  type World = map<nat, Zone>

  datatype Call =
    | AddZone(id: nat, box: Box, validity: Validity, at: int)
    | RemoveZone(id: nat, at: int)
    | UpdateValidity(id: nat, validity: Validity, at: int)

  /** What a call does to the set of zones. Removing or updating an absent zone does nothing. */
  function Apply(w: World, c: Call): World {
    match c
    case AddZone(id, box, validity, _) => w[id := Zone(box, validity)]
    case RemoveZone(id, _) => w - {id}
    case UpdateValidity(id, validity, _) => if id in w then w[id := Zone(w[id].box, validity)] else w
  }

  predicate Effective(w: World, c: Call) {
    c.AddZone? || c.id in w
  }

  function Later(a: int, b: int): int {
    if a < b then b else a
  }

  /** The later of two times: not before either, and one of them. */
  lemma LaterExact(a: int, b: int)
    ensures a <= Later(a, b) && b <= Later(a, b) && (Later(a, b) == a || Later(a, b) == b)
  {
  }

  /** The zones after all calls. */
  function Final(calls: seq<Call>): World {
    if calls == [] then map[] else Apply(Final(calls[..|calls| - 1]), calls[|calls| - 1])
  }

  /** The time of the last change, which later changes cannot precede. */
  function Clock(calls: seq<Call>): int {
    if calls == [] then 0
    else
      var before, c := calls[..|calls| - 1], calls[|calls| - 1];
      if Effective(Final(before), c) then Later(Clock(before), c.at) else Clock(before)
  }

  /** The zones as the calls stamped (with their clamped time) no later than t left them. */
  function Replay(calls: seq<Call>, t: int): World {
    if calls == [] then map[]
    else
      var before, c := calls[..|calls| - 1], calls[|calls| - 1];
      if Later(Clock(before), c.at) <= t then Apply(Replay(before, t), c) else Replay(before, t)
  }

  lemma {:induction false} ReplayCaughtUp(calls: seq<Call>, t: int)
    requires Clock(calls) <= t && 0 <= t
    ensures Replay(calls, t) == Final(calls)
  {
    if calls != [] {
      var before, c := calls[..|calls| - 1], calls[|calls| - 1];
      ReplayCaughtUp(before, t);
      assert !Effective(Final(before), c) ==> Apply(Final(before), c) == Final(before);
    }
  }

  // --------------------------------------------------------------------------------------- versions

  /** The latest version committed at or before t, or the empty version 0. */
  function VersionOf(times: seq<int>, t: int): (v: nat)
    requires times != []
    ensures v < |times|
  {
    if |times| == 1 || times[|times| - 1] <= t then |times| - 1 else VersionOf(times[..|times| - 1], t)
  }

  /** Nothing but the zone changes. */
  ghost predicate OthersSame(w: World, w': World, id: nat) {
    forall x :: x != id ==> (x in w <==> x in w') && (x in w && x in w' ==> w[x] == w'[x])
  }

  /** What each call leaves of its own zone, and of the others. */
  lemma FinalApplies(calls: seq<Call>, c: Call)
    ensures var w, w' := Final(calls), Final(calls + [c]);
            && OthersSame(w, w', c.id)
            && (c.AddZone? ==> c.id in w' && w'[c.id] == Zone(c.box, c.validity))
            && (c.RemoveZone? ==> c.id !in w')
            && (c.UpdateValidity? ==> (c.id in w' <==> c.id in w) && (c.id in w ==> w'[c.id] == Zone(w[c.id].box, c.validity)))
  {
    ReplayExtend(calls, c, 0);
  }

  /** Version by version, the worlds and commit times of the calls. */
  ghost predicate VersionsOk(worlds: seq<World>, times: seq<int>, calls: seq<Call>) {
    && |worlds| == |times| && times != [] && worlds[0] == map[] && times[0] == 0
    && (forall i, j :: 0 <= i <= j < |times| ==> times[i] <= times[j])
    && worlds[|worlds| - 1] == Final(calls) && times[|times| - 1] == Clock(calls)
    && forall t :: Replay(calls, t) == worlds[VersionOf(times, t)]
  }

  lemma ReplayExtend(calls: seq<Call>, c: Call, t: int)
    ensures Replay(calls + [c], t) == if Later(Clock(calls), c.at) <= t then Apply(Replay(calls, t), c) else Replay(calls, t)
    ensures Final(calls + [c]) == Apply(Final(calls), c)
    ensures Clock(calls + [c]) == if Effective(Final(calls), c) then Later(Clock(calls), c.at) else Clock(calls)
  {
    assert (calls + [c])[..|calls|] == calls;
  }

  lemma VersionExtend(times: seq<int>, at: int, t: int)
    requires times != []
    ensures VersionOf(times + [at], t) == if at <= t then |times| else VersionOf(times, t)
  {
    assert (times + [at])[..|times|] == times;
  }

  lemma CommitVersion(worlds: seq<World>, times: seq<int>, calls: seq<Call>, c: Call)
    requires VersionsOk(worlds, times, calls) && Effective(Final(calls), c)
    ensures VersionsOk(worlds + [Apply(Final(calls), c)], times + [Later(Clock(calls), c.at)], calls + [c])
  {
    hide Replay, Final, Clock, Apply, Effective, VersionOf;
    var at := Later(Clock(calls), c.at);
    var worlds', times', calls' := worlds + [Apply(Final(calls), c)], times + [at], calls + [c];
    assert times[0] <= times[|times| - 1];
    ReplayExtend(calls, c, at);
    forall t ensures Replay(calls', t) == worlds'[VersionOf(times', t)] {
      ReplayExtend(calls, c, t);
      VersionExtend(times, at, t);
      if at <= t {
        ReplayCaughtUp(calls, t);
      }
    }
  }

  lemma SkipCall(worlds: seq<World>, times: seq<int>, calls: seq<Call>, c: Call)
    requires VersionsOk(worlds, times, calls) && !Effective(Final(calls), c)
    ensures VersionsOk(worlds, times, calls + [c]) && Final(calls + [c]) == Final(calls)
  {
    hide Replay, Final, Clock, VersionOf;
    assert Apply(Final(calls), c) == Final(calls);
    assert times[0] <= times[|times| - 1];
    ReplayExtend(calls, c, 0);
    forall t ensures Replay(calls + [c], t) == Replay(calls, t) {
      ReplayExtend(calls, c, t);
      if Later(Clock(calls), c.at) <= t {
        ReplayCaughtUp(calls, t);
      }
    }
  }

  // ------------------------------------------------------------------------------------------ trees

  /** The tree stores each zone of the world once, with its box, and nothing else. */
  ghost predicate Stores(n: Tree, w: World) {
    Guided(n) && forall e: Entry :: Contents(n)[e] == if e.id in w && w[e.id].box == e.box then 1 else 0
  }

  lemma StoredIdsUnique(n: Tree, w: World)
    requires Stores(n, w)
    ensures UniqueIds(Contents(n)) && forall e :: e in Contents(n) <==> e.id in w && w[e.id].box == e.box
  {
  }

  lemma StoreInsert(n: Tree, w: World, id: nat, z: Zone)
    requires Stores(n, w) && id !in w
    ensures Stores(Insert(n, Entry(id, z.box), true), w[id := z])
  {
    hide Contents, Guided, Insert;
    InsertKeeps(n, Entry(id, z.box), true);
  }

  lemma StoreRemove(n: Tree, w: World, id: nat)
    requires Stores(n, w) && id in w
    ensures Remove(n, id, w[id].box).Some? && Stores(Remove(n, id, w[id].box).value, w - {id})
  {
    hide Contents, Guided, Remove;
    var e := Entry(id, w[id].box);
    StoredIdsUnique(n, w);
    RemoveFinds(n, e);
    var m := Remove(n, id, w[id].box).value;
    forall x: Entry ensures Contents(m)[x] == if x.id in w - {id} && (w - {id})[x.id].box == x.box then 1 else 0 {
      assert (Contents(m) + multiset{e})[x] == Contents(n)[x];
    }
  }

  /** Only the boxes matter to the tree. */
  lemma StoreSameBoxes(n: Tree, w: World, w': World)
    requires Stores(n, w) && w.Keys == w'.Keys && forall id :: id in w ==> w[id].box == w'[id].box
    ensures Stores(n, w')
  {
    hide Contents, Guided;
    forall e: Entry ensures e.id in w <==> e.id in w' {
      assert e.id in w.Keys <==> e.id in w'.Keys;
    }
  }

  ghost predicate TreesOk(roots: seq<Tree>, worlds: seq<World>) {
    |roots| == |worlds| && forall v :: 0 <= v < |roots| ==> Stores(roots[v], worlds[v])
  }

  // ---------------------------------------------------------------------------------------- history

  /** The slot of the last record with a version at most v, or -1. */
  function SlotAsOf(h: seq<Record>, v: nat): (k: int)
    ensures -1 <= k < |h|
  {
    if h == [] then -1
    else if h[|h| - 1].version <= v then |h| - 1
    else SlotAsOf(h[..|h| - 1], v)
  }

  /** Versions strictly increase along a zone's records. */
  ghost predicate Increasing(h: seq<Record>, limit: nat) {
    && (forall i, j :: 0 <= i < j < |h| ==> h[i].version < h[j].version)
    && (forall i :: 0 <= i < |h| ==> h[i].version < limit)
  }

  function InForce(history: seq<seq<Record>>, id: nat, v: nat): Option<Validity> {
    if id >= |history| then None
    else
      var k := SlotAsOf(history[id], v);
      if k < 0 || !history[id][k].present then None else Some(history[id][k].validity)
  }

  function ValidityIn(w: World, id: nat): Option<Validity> {
    if id in w then Some(w[id].validity) else None
  }

  /** As of every version, the log gives each zone the validity it had in that version's world. */
  ghost predicate HistoryOk(history: seq<seq<Record>>, worlds: seq<World>) {
    && (forall id :: 0 <= id < |history| ==> Increasing(history[id], |worlds|))
    && forall id: nat, v: nat :: v < |worlds| ==> InForce(history, id, v) == ValidityIn(worlds[v], id)
  }

  lemma {:induction false} SlotUnchanged(h: seq<Record>, r: Record, v: nat)
    requires v < r.version
    ensures SlotAsOf(h + [r], v) == SlotAsOf(h, v)
  {
    assert (h + [r])[..|h|] == h;
  }

  lemma {:induction false} SlotOfLatest(h: seq<Record>, v: nat)
    requires forall i :: 0 <= i < |h| ==> h[i].version <= v
    ensures SlotAsOf(h, v) == |h| - 1
  {
  }

  function Resized(history: seq<seq<Record>>, id: nat): (r: seq<seq<Record>>)
    ensures |r| == if |history| <= id then id + 1 else |history|
    ensures forall i :: 0 <= i < |history| ==> r[i] == history[i]
    ensures forall i :: |history| <= i < |r| ==> r[i] == []
  {
    if |history| <= id then history + seq(id + 1 - |history|, _ => []) else history
  }

  function Appended(history: seq<seq<Record>>, id: nat, r: Record): (h: seq<seq<Record>>)
    ensures |h| > id && |h[id]| > 0
  {
    var g := Resized(history, id);
    g[id := g[id] + [r]]
  }

  /** A record for the new version, in step with a world in which only that zone changed. */
  lemma AppendRecord(history: seq<seq<Record>>, worlds: seq<World>, w: World, id: nat, r: Record)
    requires HistoryOk(history, worlds) && worlds != [] && r.version == |worlds|
    requires forall x: nat :: x != id ==> ValidityIn(w, x) == ValidityIn(worlds[|worlds| - 1], x)
    requires ValidityIn(w, id) == if r.present then Some(r.validity) else None
    ensures HistoryOk(Appended(history, id, r), worlds + [w])
  {
    var history', worlds' := Appended(history, id, r), worlds + [w];
    forall x: nat, v: nat | v < |worlds'| ensures InForce(history', x, v) == ValidityIn(worlds'[v], x) {
      AppendForce(history, worlds, w, id, r, x, v);
    }
  }

  lemma AppendForce(history: seq<seq<Record>>, worlds: seq<World>, w: World, id: nat, r: Record, x: nat, v: nat)
    requires HistoryOk(history, worlds) && worlds != [] && r.version == |worlds| && v <= |worlds|
    requires forall y: nat :: y != id ==> ValidityIn(w, y) == ValidityIn(worlds[|worlds| - 1], y)
    requires ValidityIn(w, id) == if r.present then Some(r.validity) else None
    ensures InForce(Appended(history, id, r), x, v) == ValidityIn((worlds + [w])[v], x)
  {
    var g := Resized(history, id);
    if v < |worlds| {
      assert InForce(history, x, v) == ValidityIn(worlds[v], x);
      if x == id {
        SlotUnchanged(g[id], r, v);
      }
    } else if x != id && x < |history| {
      assert Increasing(history[x], |worlds|);
      SlotOfLatest(history[x], v);
      SlotOfLatest(history[x], v - 1);
      assert InForce(history, x, v - 1) == ValidityIn(worlds[v - 1], x);
    } else if x != id {
      assert InForce(history, x, v - 1) == ValidityIn(worlds[v - 1], x);
    }
  }

  /** The slot a binary search should find. */
  lemma {:induction false} SlotBracket(h: seq<Record>, limit: nat, v: nat, k: nat)
    requires Increasing(h, limit) && k < |h| && h[k].version <= v && (k + 1 < |h| ==> h[k + 1].version > v)
    ensures SlotAsOf(h, v) == k
    decreases |h|
  {
    if k + 1 < |h| {
      var init := h[..|h| - 1];
      assert h[k + 1].version <= h[|h| - 1].version;
      SlotBracket(init, limit, v, k);
    }
  }

  lemma {:induction false} NoSlot(h: seq<Record>, limit: nat, v: nat)
    requires Increasing(h, limit) && (h != [] ==> h[0].version > v)
    ensures SlotAsOf(h, v) == -1
    decreases |h|
  {
    if h != [] {
      assert h[0].version <= h[|h| - 1].version;
      NoSlot(h[..|h| - 1], limit, v);
    }
  }

  /** The binary search for the record in force. */
  method RecordAsOf(history: seq<seq<Record>>, id: nat, v: nat, ghost limit: nat) returns (k: int)
    requires id < |history| ==> Increasing(history[id], limit)
    ensures k == if id < |history| then SlotAsOf(history[id], v) else -1
  {
    if id >= |history| { return -1; }
    var h := history[id];
    if |h| == 0 || h[0].version > v {
      NoSlot(h, limit, v);
      return -1;
    }
    var lo, hi := 0, |h|;
    while lo + 1 < hi
      invariant 0 <= lo < hi <= |h| && h[lo].version <= v && (hi < |h| ==> h[hi].version > v)
    {
      var mid := lo + (hi - lo) / 2;
      if h[mid].version <= v { lo := mid; } else { hi := mid; }
    }
    SlotBracket(h, limit, v, lo);
    return lo;
  }

  lemma {:induction false} VersionBracket(times: seq<int>, t: int, k: nat)
    requires times != [] && (forall i, j :: 0 <= i <= j < |times| ==> times[i] <= times[j])
    requires k < |times| && (times[k] <= t || k == 0) && (k + 1 < |times| ==> times[k + 1] > t)
    ensures VersionOf(times, t) == k
    decreases |times|
  {
    if k + 1 < |times| {
      assert times[k + 1] <= times[|times| - 1];
      VersionBracket(times[..|times| - 1], t, k);
    }
  }

  // ------------------------------------------------------------------------------- temporal intervals

  ghost predicate IsSlot(history: seq<seq<Record>>, id: nat, k: nat) {
    id < |history| && k < |history[id]| && history[id][k].present
  }

  ghost function IntervalOf(history: seq<seq<Record>>, id: nat, k: nat): Interval
    requires IsSlot(history, id, k)
  {
    Interval(history[id][k].validity.from, history[id][k].validity.to, id, k)
  }

  /** One interval per record that has the zone present. */
  ghost predicate TemporalOk(tree: seq<Interval>, history: seq<seq<Record>>) {
    && (forall i :: 0 <= i < |tree| ==>
          IsSlot(history, tree[i].zone, tree[i].slot) && tree[i] == IntervalOf(history, tree[i].zone, tree[i].slot))
    && (forall id, k :: IsSlot(history, id, k) ==> IntervalOf(history, id, k) in tree)
    && (forall i, j :: 0 <= i < j < |tree| ==> tree[i] != tree[j])
  }

  /** Appending a record adds one slot and leaves the others as they were. */
  lemma SlotsAppended(history: seq<seq<Record>>, id: nat, r: Record, x: nat, j: nat)
    ensures var history' := Appended(history, id, r);
            var latest: nat := |history'[id]| - 1;
            && (IsSlot(history, x, j) ==>
                  IsSlot(history', x, j) && IntervalOf(history', x, j) == IntervalOf(history, x, j)
                  && !(x == id && j == latest))
            && (IsSlot(history', x, j) ==> IsSlot(history, x, j) || (x == id && j == latest))
  {
  }

  lemma LatestSlot(history: seq<seq<Record>>, id: nat, r: Record)
    ensures var history' := Appended(history, id, r);
            var k: nat := |history'[id]| - 1;
            && (IsSlot(history', id, k) <==> r.present)
            && (r.present ==> IntervalOf(history', id, k) == Interval(r.validity.from, r.validity.to, id, k))
  {
  }

  lemma TemporalAppend(tree: seq<Interval>, history: seq<seq<Record>>, id: nat, r: Record)
    requires TemporalOk(tree, history)
    ensures var history' := Appended(history, id, r);
            var iv := Interval(r.validity.from, r.validity.to, id, |history'[id]| - 1);
            TemporalOk(if r.present then tree + [iv] else tree, history')
  {
    hide Appended, IsSlot, IntervalOf;
    var history' := Appended(history, id, r);
    var k: nat := |history'[id]| - 1;
    var iv := Interval(r.validity.from, r.validity.to, id, k);
    var tree' := if r.present then tree + [iv] else tree;
    LatestSlot(history, id, r);
    forall i | 0 <= i < |tree|
      ensures IsSlot(history', tree[i].zone, tree[i].slot)
      ensures tree[i] == IntervalOf(history', tree[i].zone, tree[i].slot) && tree[i] != iv
    {
      SlotsAppended(history, id, r, tree[i].zone, tree[i].slot);
    }
    forall x, j | IsSlot(history', x, j) ensures IntervalOf(history', x, j) in tree' {
      SlotsAppended(history, id, r, x, j);
      if x == id && j == k {
        assert tree'[|tree|] == iv;
      } else {
        assert IntervalOf(history, x, j) in tree;
      }
    }
  }

  // ------------------------------------------------------------------------------------------ index

  /** The box kept for every live zone is the one the tree holds. */
  ghost predicate LiveOk(w: World, liveBox: seq<Box>) {
    forall id :: id in w ==> id < |liveBox| && liveBox[id] == w[id].box
  }

  /** One change per version after the empty one. */
  ghost predicate ChangesOk(changelog: seq<Change>, times: seq<int>) {
    && |changelog| == |times| - 1
    && forall k :: 0 <= k < |changelog| ==> changelog[k].version == k + 1 && changelog[k].at == times[k + 1]
  }

  /** Slots for the boxes of all ids up to this one; a slot is read only while its zone is present. */
  function ResizedBoxes(liveBox: seq<Box>, id: nat): (r: seq<Box>)
    ensures |r| > id && |r| >= |liveBox| && forall i :: 0 <= i < |liveBox| ==> r[i] == liveBox[i]
  {
    if |liveBox| <= id then liveBox + seq(id + 1 - |liveBox|, _ => Box(0.0, 0.0, 0.0, 0.0)) else liveBox
  }

  ghost predicate Distinct(ids: seq<nat>) {
    forall i, j :: 0 <= i < j < |ids| ==> ids[i] != ids[j]
  }

  /** A zone of the world that was in force at t. */
  ghost predicate ActiveIn(w: World, id: nat, t: int) {
    id in w && w[id].validity.ActiveAt(t)
  }

  class Index {
    var roots: seq<Tree>
    var versionTimes: seq<int>
    var history: seq<seq<Record>>
    var liveBox: seq<Box>
    var validityTree: seq<Interval>
    var changelog: seq<Change>

    /** All calls made so far, effective or not, and the world of each version. */
    ghost var calls: seq<Call>
    ghost var worlds: seq<World>

    ghost predicate Consistent()
      reads this
    {
      && VersionsOk(worlds, versionTimes, calls) && TreesOk(roots, worlds) && HistoryOk(history, worlds)
      && TemporalOk(validityTree, history) && ChangesOk(changelog, versionTimes)
    }

    ghost predicate Valid()
      reads this
    {
      Consistent() && LiveOk(Final(calls), liveBox)
    }

    constructor ()
      ensures Valid() && calls == []
    {
      roots := [Node(Box(-90.0, -180.0, 90.0, 180.0), 0, [], [])];
      versionTimes := [0];
      history, liveBox, validityTree, changelog := [], [], [], [];
      calls, worlds := [], [map[]];
    }

    /** Present in the latest version. */
    method ContainsZone(id: nat) returns (present: bool)
      requires Valid()
      ensures present <==> id in Final(calls)
    {
      hide VersionsOk, HistoryOk, TreesOk, TemporalOk, LiveOk, ChangesOk;
      VersionBasics(worlds, versionTimes, calls);
      LatestInForce(history, worlds, id);
      present := id < |history| && |history[id]| > 0 && history[id][|history[id]| - 1].present;
    }

    /** Commit times never go back. */
    method Monotone(at: int) returns (clamped: int)
      requires Valid()
      ensures clamped == Later(Clock(calls), at)
      ensures versionTimes != [] && versionTimes[|versionTimes| - 1] == Clock(calls)
      ensures clamped >= at && clamped >= Clock(calls) && (clamped == at || clamped == Clock(calls))
    {
      hide VersionsOk, HistoryOk, TreesOk, TemporalOk, LiveOk, ChangesOk, Clock;
      VersionBasics(worlds, versionTimes, calls);
      clamped := if at < versionTimes[|versionTimes| - 1] then versionTimes[|versionTimes| - 1] else at;
    }

    /** Appends a version and the record of the zone that changed in it. */
    method CommitRecord(ghost call: Call, root: Tree, at: int, id: nat, validity: Validity, present: bool, kind: Kind)
      returns (ver: nat)
      requires Consistent() && Effective(Final(calls), call) && call.id == id && at == Later(Clock(calls), call.at)
      requires Stores(root, Apply(Final(calls), call)) && LiveOk(Apply(Final(calls), call), liveBox)
      requires ValidityIn(Apply(Final(calls), call), id) == if present then Some(validity) else None
      modifies `roots, `versionTimes, `history, `validityTree, `changelog, `calls, `worlds
      ensures Valid() && calls == old(calls) + [call] && ver == |old(roots)|
      ensures roots == old(roots) + [root] && versionTimes == old(versionTimes) + [at]
      ensures changelog == old(changelog) + [Change(ver, at, id, kind)]
    {
      hide VersionsOk, HistoryOk, TreesOk, TemporalOk, LiveOk, ChangesOk;
      hide Stores, Final, Clock, Apply, Effective, ValidityIn, Resized;
      ghost var w := Apply(Final(calls), call);
      VersionBasics(worlds, versionTimes, calls);
      SameLength(roots, worlds);
      CommitVersion(worlds, versionTimes, calls, call);
      OthersKeepValidity(Final(calls), call);
      var record := Record(|roots|, validity, present);
      AppendRecord(history, worlds, w, id, record);
      TemporalAppend(validityTree, history, id, record);
      FinalExtend(calls, call);
      TreesAppend(roots, worlds, root, w);
      ChangesAppend(changelog, versionTimes, at, id, kind);
      roots := roots + [root];
      versionTimes := versionTimes + [at];
      ver := |roots| - 1;
      history := Resized(history, id);
      history := history[id := history[id] + [record]];
      if present {
        validityTree := validityTree + [Interval(validity.from, validity.to, id, |history[id]| - 1)];
      }
      changelog := changelog + [Change(ver, at, id, kind)];
      worlds := worlds + [w];
      calls := calls + [call];
    }

    /** Adds the zone, or replaces its box and validity, in one version. */
    method AddZone(id: nat, box: Box, validity: Validity, at: int) returns (ver: nat)
      requires Valid()
      modifies this
      ensures Valid() && calls == old(calls) + [Call.AddZone(id, box, validity, at)] && ver == |old(roots)|
      ensures |roots| == ver + 1 && roots[..ver] == old(roots)
      ensures versionTimes == old(versionTimes) + [Later(Clock(old(calls)), at)]
      ensures Clock(old(calls)) <= at ==> versionTimes == old(versionTimes) + [at]
      ensures id in Final(calls) && Final(calls)[id] == Zone(box, validity) && OthersSame(Final(old(calls)), Final(calls), id)
      ensures changelog == old(changelog) +
                [Change(ver, Later(Clock(old(calls)), at), id, if id in Final(old(calls)) then Replaced else Added)]
    {
      hide VersionsOk, HistoryOk, TreesOk, TemporalOk, LiveOk, ChangesOk;
      hide Stores, Final, Clock, Apply, Effective, ValidityIn, Insert, Remove, Guided, Inside, Resized, ResizedBoxes;
      ghost var call := Call.AddZone(id, box, validity, at);
      ghost var w := Final(calls);
      var time := Monotone(at);
      LatestStores(roots, worlds, versionTimes, calls);
      var base := roots[|roots| - 1];
      var replacing := ContainsZone(id);
      if replacing {
        // The old entry goes and the new one comes in the same version.
        assert liveBox[id] == w[id].box by { LiveBoxOf(w, liveBox, id); }
        StoreRemove(base, w, id);
        var without := RemoveCopy(base, id, liveBox[id]);
        if without.Some? { base := without.value; }
      } else {
        assert w - {id} == w;
      }
      StoresGuided(base, w - {id});
      var root := InsertCopy(base, Entry(id, box), true);
      StoreInsert(base, w - {id}, id, Zone(box, validity));
      AddApplied(w, id, box, validity, at);
      LivePlaced(w, call, liveBox);
      liveBox := ResizedBoxes(liveBox, id);
      liveBox := liveBox[id := box];
      ver := CommitRecord(call, root, time, id, validity, true, if replacing then Replaced else Added);
      FinalApplies(old(calls), call);
    }

    /** Removes a zone that is present; does nothing, not even a version, for one that is not. */
    method RemoveZone(id: nat, at: int) returns (ver: nat)
      requires Valid()
      modifies this
      ensures Valid() && calls == old(calls) + [Call.RemoveZone(id, at)] && |roots| == ver + 1
      ensures id !in Final(old(calls)) ==>
                roots == old(roots) && versionTimes == old(versionTimes) && changelog == old(changelog)
      ensures id !in Final(calls) && OthersSame(Final(old(calls)), Final(calls), id)
      ensures id in Final(old(calls)) ==>
                && roots[..ver] == old(roots) && versionTimes == old(versionTimes) + [Later(Clock(old(calls)), at)]
                && changelog == old(changelog) + [Change(ver, Later(Clock(old(calls)), at), id, Removed)]
    {
      hide VersionsOk, HistoryOk, TreesOk, TemporalOk, LiveOk, ChangesOk;
      hide Stores, Final, Clock, Apply, ValidityIn, Remove, Guided, Inside, Resized;
      ghost var call := Call.RemoveZone(id, at);
      ghost var w := Final(calls);
      FinalApplies(calls, call);
      LatestStores(roots, worlds, versionTimes, calls);
      var present := ContainsZone(id);
      if !present {
        SkipCall(worlds, versionTimes, calls, call);
        calls := calls + [call];
        return |roots| - 1;
      }
      var time := Monotone(at);
      var base := roots[|roots| - 1];
      StoresGuided(base, w);
      assert id < |liveBox| && liveBox[id] == w[id].box by { LiveBoxOf(w, liveBox, id); }
      StoreRemove(base, w, id);
      var root := RemoveCopy(base, id, liveBox[id]);
      RemoveApplied(w, id, at, liveBox);
      ver := CommitRecord(call, if root.Some? then root.value else base, time, id, Validity(0, FOREVER), false, Removed);
    }

    /** Changes the validity of a zone that is present: the new version shares the whole tree. */
    method UpdateValidity(id: nat, validity: Validity, at: int) returns (ver: nat)
      requires Valid()
      modifies this
      ensures Valid() && calls == old(calls) + [Call.UpdateValidity(id, validity, at)] && |roots| == ver + 1
      ensures id !in Final(old(calls)) ==>
                roots == old(roots) && versionTimes == old(versionTimes) && changelog == old(changelog)
      ensures id in Final(old(calls)) ==>
                && ver > 0 && roots[..ver] == old(roots) && roots[ver] == roots[ver - 1]
                && versionTimes == old(versionTimes) + [Later(Clock(old(calls)), at)]
                && changelog == old(changelog) + [Change(ver, Later(Clock(old(calls)), at), id, ValidityChanged)]
                && id in Final(calls) && Final(calls)[id] == Zone(Final(old(calls))[id].box, validity)
      ensures OthersSame(Final(old(calls)), Final(calls), id) && (id in Final(calls) <==> id in Final(old(calls)))
    {
      hide VersionsOk, HistoryOk, TreesOk, TemporalOk, LiveOk, ChangesOk;
      hide Stores, Final, Clock, Apply, ValidityIn, Guided, Resized;
      ghost var call := Call.UpdateValidity(id, validity, at);
      ghost var w := Final(calls);
      FinalApplies(calls, call);
      LatestStores(roots, worlds, versionTimes, calls);
      var present := ContainsZone(id);
      if !present {
        SkipCall(worlds, versionTimes, calls, call);
        calls := calls + [call];
        return |roots| - 1;
      }
      var time := Monotone(at);
      UpdateApplied(w, id, validity, at, liveBox);
      StoreSameBoxes(roots[|roots| - 1], w, Apply(w, call));
      ver := CommitRecord(call, roots[|roots| - 1], time, id, validity, true, ValidityChanged);
    }

    /** The version a binary search over the commit times finds. */
    method VersionAt(t: int) returns (v: nat)
      requires Valid()
      ensures v < |roots| == |worlds| && worlds[v] == Replay(calls, t) && Stores(roots[v], worlds[v])
    {
      hide HistoryOk, TemporalOk, LiveOk, ChangesOk, Stores, Final, Clock, Replay;
      SameLength(roots, worlds);
      var lo, hi := 0, |versionTimes|;
      while lo < hi
        invariant 0 <= lo <= hi <= |versionTimes|
        invariant (lo > 0 ==> versionTimes[lo - 1] <= t) && (hi < |versionTimes| ==> versionTimes[hi] > t)
      {
        var mid := lo + (hi - lo) / 2;
        if versionTimes[mid] <= t { lo := mid + 1; } else { hi := mid; }
      }
      v := if lo == 0 then 0 else lo - 1;
      if lo == 0 && 1 < |versionTimes| {
        assert versionTimes[0] <= versionTimes[1];
      }
      VersionBracket(versionTimes, t, v);
    }

    /**
     Time travel equals replay: exactly the zones that the calls up to t left present, in force at t under the
     validity of that moment, and meeting the box; each once.
     */
    method QueryAt(t: int, box: Box) returns (out: seq<nat>)
      requires Valid()
      ensures Distinct(out)
      ensures forall id :: id in out <==>
                ActiveIn(Replay(calls, t), id, t) && Intersects(Replay(calls, t)[id].box, box)
    {
      hide VersionsOk, HistoryOk, TreesOk, TemporalOk, LiveOk, ChangesOk;
      hide Stores, Final, Clock, Replay, Guided, Inside, Query, Intersects, Ids, InForce, ValidityIn, Increasing;
      hide Distinct, SlotAsOf, Kept;
      var v := VersionAt(t);
      ghost var w := worlds[v];
      StoresGuided(roots[v], w);
      var spatial := QueryNode(roots[v], box, []);
      StoredQuery(roots[v], w, box);
      out := [];
      KeepNone(w, t);
      for i := 0 to |spatial|
        invariant Kept(out, spatial[..i], w, t)
      {
        var id := spatial[i];
        HistoryIncreasing(history, worlds, id);
        var k := RecordAsOf(history, id, v, |worlds|);
        RecordSays(history, worlds, id, v, k);
        KeepOne(out, spatial, i, w, t);
        if k >= 0 && history[id][k].present && history[id][k].validity.ActiveAt(t) {
          out := out + [id];
        }
      }
      assert spatial[..|spatial|] == spatial;
      KeptMeans(out, spatial, w, t);
    }

    /** The latest geometry, with no validity filter. */
    method QueryNow(box: Box) returns (out: seq<nat>)
      requires Valid()
      ensures Distinct(out)
      ensures forall id :: id in out <==> id in Final(calls) && Intersects(Final(calls)[id].box, box)
    {
      hide VersionsOk, HistoryOk, TreesOk, TemporalOk, LiveOk, ChangesOk;
      hide Stores, Final, Guided, Inside, Query, Intersects, Ids;
      LatestStores(roots, worlds, versionTimes, calls);
      StoresGuided(roots[|roots| - 1], Final(calls));
      out := QueryNode(roots[|roots| - 1], box, []);
      StoredQuery(roots[|roots| - 1], Final(calls), box);
    }

    /** The intervals holding t. The tree that finds them is modelled as a list. */
    method Stab(t: int) returns (hits: seq<Interval>)
      requires Valid()
      ensures forall iv :: iv in hits <==> iv in validityTree && iv.from <= t < iv.to
      ensures forall i, j :: 0 <= i < j < |hits| ==> hits[i] != hits[j]
    {
      hide VersionsOk, HistoryOk, TreesOk, LiveOk, ChangesOk, IsSlot, IntervalOf;
      hits := [];
      for i := 0 to |validityTree|
        invariant forall iv :: iv in hits <==> iv in validityTree[..i] && iv.from <= t < iv.to
        invariant forall a, b :: 0 <= a < b < |hits| ==> hits[a] != hits[b]
      {
        if validityTree[i].from <= t < validityTree[i].to {
          assert validityTree[i] !in validityTree[..i];
          hits := hits + [validityTree[i]];
        }
      }
      assert validityTree[..|validityTree|] == validityTree;
    }

    /** Every zone in force at t, wherever it is: one per zone although every past interval is kept. */
    method ActiveZonesAt(t: int) returns (out: seq<nat>)
      requires Valid()
      ensures Distinct(out)
      ensures forall id :: id in out <==> ActiveIn(Replay(calls, t), id, t)
    {
      hide VersionsOk, HistoryOk, TreesOk, TemporalOk, LiveOk, ChangesOk;
      hide Stores, Final, Clock, Replay, InForce, ValidityIn, Increasing;
      var v := VersionAt(t);
      var hits := Stab(t);
      out := [];
      ghost var from: seq<nat> := [];
      for i := 0 to |hits|
        invariant |from| == |out|
        invariant forall a :: 0 <= a < |out| ==> from[a] < i && hits[from[a]].zone == out[a] && InEffect(history, hits[from[a]], v)
        invariant forall a, b :: 0 <= a < b < |from| ==> from[a] < from[b]
        invariant forall a :: 0 <= a < i && InEffect(history, hits[a], v) ==> hits[a].zone in out
      {
        var id, slot := hits[i].zone, hits[i].slot;
        HistoryIncreasing(history, worlds, id);
        var k := RecordAsOf(history, id, v, |worlds|);
        if k >= 0 && history[id][k].present && slot == k {
          out, from := out + [id], from + [i];
        }
      }
      forall a, b | 0 <= a < b < |out| ensures out[a] != out[b] {
        OneIntervalInForce(validityTree, history, hits[from[a]], hits[from[b]], v);
      }
      forall id ensures id in out <==> ActiveIn(worlds[v], id, t) {
        StabFinds(validityTree, history, worlds, id, v, t);
      }
    }

    /** The validity in force at t, if the zone was present then. */
    method ValidityAt(id: nat, t: int) returns (validity: Option<Validity>)
      requires Valid()
      ensures validity == ValidityIn(Replay(calls, t), id)
    {
      hide VersionsOk, TreesOk, TemporalOk, LiveOk, ChangesOk, Stores, Replay, ValidityIn;
      var v := VersionAt(t);
      var k := RecordAsOf(history, id, v, |worlds|);
      assert InForce(history, id, v) == ValidityIn(worlds[v], id);
      if k < 0 || !history[id][k].present { return None; }
      return Some(history[id][k].validity);
    }
  }

  // -------------------------------------------------------------------------- facts about the state

  lemma LatestStores(roots: seq<Tree>, worlds: seq<World>, times: seq<int>, calls: seq<Call>)
    requires TreesOk(roots, worlds) && VersionsOk(worlds, times, calls)
    ensures |roots| > 0 && Stores(roots[|roots| - 1], Final(calls)) && Guided(roots[|roots| - 1])
  {
    hide Guided, Contents;
  }

  lemma StoresGuided(n: Tree, w: World)
    requires Stores(n, w)
    ensures Guided(n) && Inside(n)
  {
    hide Guided, Contents, Inside;
    GuidedInside(n);
  }

  lemma LiveBoxOf(w: World, liveBox: seq<Box>, id: nat)
    requires LiveOk(w, liveBox) && id in w
    ensures id < |liveBox| && liveBox[id] == w[id].box
  {
  }

  lemma AddApplied(w: World, id: nat, box: Box, validity: Validity, at: int)
    ensures var c := Call.AddZone(id, box, validity, at);
            && Apply(w, c) == (w - {id})[id := Zone(box, validity)] && Effective(w, c)
            && ValidityIn(Apply(w, c), id) == Some(validity)
  {
  }

  lemma LivePlaced(w: World, c: Call, liveBox: seq<Box>)
    requires LiveOk(w, liveBox) && c.AddZone?
    ensures LiveOk(Apply(w, c), ResizedBoxes(liveBox, c.id)[c.id := c.box])
  {
  }

  lemma RemoveApplied(w: World, id: nat, at: int, liveBox: seq<Box>)
    requires LiveOk(w, liveBox)
    ensures var c := Call.RemoveZone(id, at);
            Apply(w, c) == w - {id} && ValidityIn(Apply(w, c), id) == None && LiveOk(Apply(w, c), liveBox)
  {
  }

  lemma UpdateApplied(w: World, id: nat, validity: Validity, at: int, liveBox: seq<Box>)
    requires LiveOk(w, liveBox) && id in w
    ensures var w' := Apply(w, Call.UpdateValidity(id, validity, at));
            && w'.Keys == w.Keys && (forall x :: x in w ==> w'[x].box == w[x].box)
            && ValidityIn(w', id) == Some(validity) && LiveOk(w', liveBox)
  {
  }

  lemma StoredQuery(n: Tree, w: World, q: Box)
    requires Stores(n, w) && Inside(n)
    ensures Distinct(Ids(Query(n, q)))
    ensures forall id :: id in Ids(Query(n, q)) <==> id in w && Intersects(w[id].box, q)
    ensures [] + Ids(Query(n, q)) == Ids(Query(n, q))
  {
    hide Guided, Inside, Contents, Query, Ids, Intersects;
    QueryIds(n, q);
    forall id ensures id in Ids(Query(n, q)) <==> id in w && Intersects(w[id].box, q) {
      if id in w {
        assert Contents(n)[Entry(id, w[id].box)] == 1;
      }
    }
  }

  lemma HistoryIncreasing(history: seq<seq<Record>>, worlds: seq<World>, id: nat)
    requires HistoryOk(history, worlds)
    ensures id < |history| ==> Increasing(history[id], |worlds|)
  {
  }

  lemma RecordSays(history: seq<seq<Record>>, worlds: seq<World>, id: nat, v: nat, k: int)
    requires HistoryOk(history, worlds) && v < |worlds|
    requires k == if id < |history| then SlotAsOf(history[id], v) else -1
    ensures k >= 0 ==> id < |history| && k < |history[id]|
    ensures (k >= 0 && history[id][k].present) <==> id in worlds[v]
    ensures k >= 0 && history[id][k].present ==> worlds[v][id].validity == history[id][k].validity
  {
    assert InForce(history, id, v) == ValidityIn(worlds[v], id);
  }

  /** The candidates that were in force, each once. */
  ghost predicate Kept(out: seq<nat>, ids: seq<nat>, w: World, t: int) {
    Distinct(out) && forall id :: id in out <==> id in ids && ActiveIn(w, id, t)
  }

  lemma KeepNone(w: World, t: int)
    ensures Kept([], [], w, t)
  {
  }

  lemma KeepOne(out: seq<nat>, ids: seq<nat>, i: nat, w: World, t: int)
    requires i < |ids| && Distinct(ids) && Kept(out, ids[..i], w, t)
    ensures Kept(if ActiveIn(w, ids[i], t) then out + [ids[i]] else out, ids[..i + 1], w, t)
  {
    assert ids[i] !in ids[..i];
    assert ids[..i + 1] == ids[..i] + [ids[i]];
  }

  lemma KeptMeans(out: seq<nat>, ids: seq<nat>, w: World, t: int)
    requires Kept(out, ids, w, t)
    ensures Distinct(out) && forall id :: id in out <==> id in ids && ActiveIn(w, id, t)
  {
  }

  /** The interval's record is the one in force at version v. */
  ghost predicate InEffect(history: seq<seq<Record>>, iv: Interval, v: nat) {
    && iv.zone < |history| && SlotAsOf(history[iv.zone], v) == iv.slot
    && history[iv.zone][iv.slot].present
  }

  lemma OneIntervalInForce(tree: seq<Interval>, history: seq<seq<Record>>, a: Interval, b: Interval, v: nat)
    requires TemporalOk(tree, history) && a in tree && b in tree && a != b
    requires InEffect(history, a, v) && InEffect(history, b, v)
    ensures a.zone != b.zone
  {
  }

  /** The zone in force has its interval in the tree, and that interval is in effect. */
  lemma StabFinds(tree: seq<Interval>, history: seq<seq<Record>>, worlds: seq<World>, id: nat, v: nat, t: int)
    requires TemporalOk(tree, history) && HistoryOk(history, worlds) && v < |worlds|
    ensures ActiveIn(worlds[v], id, t) <==>
            exists iv :: iv in tree && iv.from <= t < iv.to && iv.zone == id && InEffect(history, iv, v)
  {
    hide VersionOf;
    assert InForce(history, id, v) == ValidityIn(worlds[v], id);
    if ActiveIn(worlds[v], id, t) {
      var k: nat := SlotAsOf(history[id], v);
      assert IsSlot(history, id, k);
      var iv := IntervalOf(history, id, k);
      assert iv in tree && InEffect(history, iv, v);
    }
  }

  lemma SameLength(roots: seq<Tree>, worlds: seq<World>)
    requires TreesOk(roots, worlds)
    ensures |roots| == |worlds|
  {
  }

  lemma TreesAppend(roots: seq<Tree>, worlds: seq<World>, root: Tree, w: World)
    requires TreesOk(roots, worlds) && Stores(root, w)
    ensures TreesOk(roots + [root], worlds + [w])
  {
    hide Stores;
  }

  lemma ChangesAppend(changelog: seq<Change>, times: seq<int>, at: int, id: nat, kind: Kind)
    requires ChangesOk(changelog, times) && times != []
    ensures ChangesOk(changelog + [Change(|times|, at, id, kind)], times + [at])
  {
  }

  lemma VersionBasics(worlds: seq<World>, times: seq<int>, calls: seq<Call>)
    requires VersionsOk(worlds, times, calls)
    ensures |worlds| == |times| > 0 && worlds[|worlds| - 1] == Final(calls) && times[|times| - 1] == Clock(calls)
  {
  }

  lemma FinalExtend(calls: seq<Call>, c: Call)
    ensures Final(calls + [c]) == Apply(Final(calls), c)
    ensures forall x :: x in Apply(Final(calls), c) && x != c.id ==> x in Final(calls) && Apply(Final(calls), c)[x] == Final(calls)[x]
  {
    ReplayExtend(calls, c, 0);
  }

  lemma OthersKeepValidity(w: World, c: Call)
    ensures forall x: nat :: x != c.id ==> ValidityIn(Apply(w, c), x) == ValidityIn(w, x)
  {
  }

  lemma LatestInForce(history: seq<seq<Record>>, worlds: seq<World>, id: nat)
    requires HistoryOk(history, worlds) && worlds != []
    ensures id in worlds[|worlds| - 1] <==>
            id < |history| && history[id] != [] && history[id][|history[id]| - 1].present
  {
    var v := |worlds| - 1;
    assert InForce(history, id, v) == ValidityIn(worlds[v], id);
    if id < |history| {
      SlotOfLatest(history[id], v);
    }
  }
}