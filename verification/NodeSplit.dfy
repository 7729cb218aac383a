/** The quadratic split of an overfull node: two seeds that waste the most space together, and a greedy division. */
module NodeSplit {
  import opened Envelopes
  import Sorting

  const WORST: real := -1.0

  function Worst(w: real): real {
    if w > WORST then w else WORST
  }

  /** A pair of seeds examined before (s1, s2). */
  predicate Before(i: nat, j: nat, s1: nat, s2: nat) {
    i < s1 || (i == s1 && j < s2)
  }

  /** The pair (a, b) wastes no more than the worst, and less if it was examined before the pair that is worst. */
  ghost predicate Beaten<T>(items: seq<T>, boxOf: T -> Envelope, worst: real, s1: nat, s2: nat, a: nat, b: nat)
    requires a < |items| && b < |items|
  {
    var w := Waste(boxOf(items[a]), boxOf(items[b]));
    w <= worst && (worst > WORST && Before(a, b, s1, s2) ==> w < worst)
  }

  /** The first pair of greatest waste; the first two items when no pair wastes more than -1. */
  ghost predicate Seeds<T>(items: seq<T>, boxOf: T -> Envelope, s1: nat, s2: nat) {
    && s1 < s2 < |items|
    && var w := Waste(boxOf(items[s1]), boxOf(items[s2]));
    && (w > WORST || (s1 == 0 && s2 == 1))
    && forall a: nat, b: nat :: a < b < |items| ==> Beaten(items, boxOf, Worst(w), s1, s2, a, b)
  }

  method PickSeeds<T>(items: seq<T>, boxOf: T -> Envelope) returns (s1: nat, s2: nat)
    requires |items| >= 2
    ensures Seeds(items, boxOf, s1, s2)
  {
    hide Waste;
    s1, s2 := 0, 1;
    var worst := WORST;
    for i := 0 to |items|
      invariant s1 < s2 < |items| && worst >= WORST
      invariant if worst == WORST then s1 == 0 && s2 == 1 else worst == Waste(boxOf(items[s1]), boxOf(items[s2])) && s1 < i
      invariant forall a: nat, b: nat :: a < i && a < b < |items| ==> Beaten(items, boxOf, worst, s1, s2, a, b)
    {
      for j := i + 1 to |items|
        invariant s1 < s2 < |items| && worst >= WORST
        invariant if worst == WORST then s1 == 0 && s2 == 1
                  else worst == Waste(boxOf(items[s1]), boxOf(items[s2])) && Before(s1, s2, i, j)
        invariant forall a: nat, b: nat :: Before(a, b, i, j) && a < b < |items| ==> Beaten(items, boxOf, worst, s1, s2, a, b)
      {
        var d := Waste(boxOf(items[i]), boxOf(items[j]));
        ghost var was, t1, t2 := worst, s1, s2;
        if d > worst {
          worst, s1, s2 := d, i, j;
        }
        forall a: nat, b: nat | Before(a, b, i, j + 1) && a < b < |items|
          ensures Beaten(items, boxOf, worst, s1, s2, a, b)
        {
          assert Before(a, b, i, j) ==> Beaten(items, boxOf, was, t1, t2, a, b);
        }
      }
    }
    assert Beaten(items, boxOf, worst, s1, s2, s1, s2);
  }

  function Boxes<T>(s: seq<T>, boxOf: T -> Envelope): (r: seq<Envelope>)
    ensures |r| == |s| && forall i :: 0 <= i < |s| ==> r[i] == boxOf(s[i])
  {
    seq(|s|, i requires 0 <= i < |s| => boxOf(s[i]))
  }

  function HullOf<T>(s: seq<T>, boxOf: T -> Envelope): Envelope {
    Hull(Boxes(s, boxOf))
  }

  /** The group enlarged less gets the item; on a tie, the group of smaller area; then the first. */
  predicate PrefersFirst(b1: Envelope, b2: Envelope, add: Envelope) {
    var e1, e2 := Enlargement(b1, add), Enlargement(b2, add);
    e1 < e2 || (e1 == e2 && Area(b1) <= Area(b2))
  }

  /** Deals the rest to two groups in order, unless a group needs everything left to reach the minimum fill. */
  function Deal<T>(g1: seq<T>, g2: seq<T>, rest: seq<T>, boxOf: T -> Envelope, minFill: nat): (seq<T>, seq<T>)
    decreases |rest|
  {
    if rest == [] then (g1, g2)
    else
      var x := rest[0];
      if |g1| + |rest| <= minFill then Deal(g1 + [x], g2, rest[1..], boxOf, minFill)
      else if |g2| + |rest| <= minFill then Deal(g1, g2 + [x], rest[1..], boxOf, minFill)
      else if PrefersFirst(HullOf(g1, boxOf), HullOf(g2, boxOf), boxOf(x)) then
        Deal(g1 + [x], g2, rest[1..], boxOf, minFill)
      else Deal(g1, g2 + [x], rest[1..], boxOf, minFill)
  }

  /** Dealing loses nothing, and fills both groups to the minimum when there is enough to do so. */
  lemma {:induction false} DealFair<T>(g1: seq<T>, g2: seq<T>, rest: seq<T>, boxOf: T -> Envelope, minFill: nat)
    requires minFill <= |g1| + |rest| && minFill <= |g2| + |rest| && 2 * minFill <= |g1| + |g2| + |rest|
    ensures var (a, b) := Deal(g1, g2, rest, boxOf, minFill);
            && multiset(a) + multiset(b) == multiset(g1) + multiset(g2) + multiset(rest)
            && minFill <= |a| && minFill <= |b| && |a| + |b| == |g1| + |g2| + |rest|
    decreases |rest|
  {
    hide PrefersFirst, HullOf;
    if rest != [] {
      var x, tail := rest[0], rest[1..];
      assert rest == [x] + tail;
      if |g1| + |rest| <= minFill {
        DealFair(g1 + [x], g2, tail, boxOf, minFill);
      } else if |g2| + |rest| <= minFill {
        DealFair(g1, g2 + [x], tail, boxOf, minFill);
      } else if PrefersFirst(HullOf(g1, boxOf), HullOf(g2, boxOf), boxOf(x)) {
        DealFair(g1 + [x], g2, tail, boxOf, minFill);
      } else {
        DealFair(g1, g2 + [x], tail, boxOf, minFill);
      }
    }
  }

  lemma HullPush<T>(g: seq<T>, x: T, boxOf: T -> Envelope)
    ensures HullOf(g + [x], boxOf) == Grow(HullOf(g, boxOf), boxOf(x))
    ensures HullOf([x], boxOf) == boxOf(x)
  {
    assert Boxes(g + [x], boxOf)[..|g|] == Boxes(g, boxOf);
    assert Boxes([x], boxOf) == [boxOf(x)] && [boxOf(x)][..0] == [];
    assert Hull([]) == Empty;
  }

  /** All items but the two seeds, in order. */
  function Others<T>(items: seq<T>, s1: nat, s2: nat): seq<T>
    requires s1 < s2 < |items|
  {
    items[..s1] + items[s1 + 1..s2] + items[s2 + 1..]
  }

  /** The prefix of the others among the first i items. */
  function OthersUpTo<T>(items: seq<T>, s1: nat, s2: nat, i: nat): seq<T>
    requires s1 < s2 < |items| && i <= |items|
  {
    if i <= s1 then items[..i]
    else if i <= s2 then items[..s1] + items[s1 + 1..i]
    else items[..s1] + items[s1 + 1..s2] + items[s2 + 1..i]
  }

  lemma OthersPermute<T>(items: seq<T>, s1: nat, s2: nat)
    requires s1 < s2 < |items|
    ensures multiset{items[s1]} + multiset{items[s2]} + multiset(Others(items, s1, s2)) == multiset(items)
    ensures |Others(items, s1, s2)| == |items| - 2
  {
    var without := items[..s2] + items[s2 + 1..];
    Sorting.WithoutOne(items, s2);
    Sorting.WithoutOne(without, s1);
    assert without[..s1] + without[s1 + 1..] == Others(items, s1, s2);
  }

  lemma OthersStep<T>(items: seq<T>, s1: nat, s2: nat, i: nat)
    requires s1 < s2 < |items| && i < |items|
    ensures OthersUpTo(items, s1, s2, i + 1) ==
              if i != s1 && i != s2 then OthersUpTo(items, s1, s2, i) + [items[i]] else OthersUpTo(items, s1, s2, i)
  {
    if s1 < i < s2 {
      assert items[s1 + 1..i + 1] == items[s1 + 1..i] + [items[i]];
    } else if s2 < i {
      assert items[s2 + 1..i + 1] == items[s2 + 1..i] + [items[i]];
    }
  }

  /** The division that the seeds and the dealing rule determine. */
  ghost predicate SplitInto<T>(items: seq<T>, boxOf: T -> Envelope, minFill: nat, g1: seq<T>, g2: seq<T>) {
    exists s1: nat, s2: nat :: Seeds(items, boxOf, s1, s2)
      && (g1, g2) == Deal([items[s1]], [items[s2]], Others(items, s1, s2), boxOf, minFill)
  }

  /** There is only one: the first worst pair is unique. */
  lemma SplitDetermined<T>(items: seq<T>, boxOf: T -> Envelope, minFill: nat, g1: seq<T>, g2: seq<T>, h1: seq<T>, h2: seq<T>)
    requires SplitInto(items, boxOf, minFill, g1, g2) && SplitInto(items, boxOf, minFill, h1, h2)
    ensures g1 == h1 && g2 == h2
  {
    hide Waste, Deal, Others;
    var s1: nat, s2: nat :| Seeds(items, boxOf, s1, s2)
      && (g1, g2) == Deal([items[s1]], [items[s2]], Others(items, s1, s2), boxOf, minFill);
    var t1: nat, t2: nat :| Seeds(items, boxOf, t1, t2)
      && (h1, h2) == Deal([items[t1]], [items[t2]], Others(items, t1, t2), boxOf, minFill);
    SameSeeds(items, boxOf, s1, s2, t1, t2);
  }

  lemma SameSeeds<T>(items: seq<T>, boxOf: T -> Envelope, s1: nat, s2: nat, t1: nat, t2: nat)
    requires Seeds(items, boxOf, s1, s2) && Seeds(items, boxOf, t1, t2)
    ensures s1 == t1 && s2 == t2
  {
    hide Waste;
    var w, v := Waste(boxOf(items[s1]), boxOf(items[s2])), Waste(boxOf(items[t1]), boxOf(items[t2]));
    assert Beaten(items, boxOf, Worst(w), s1, s2, t1, t2);
    assert Beaten(items, boxOf, Worst(v), t1, t2, s1, s2);
  }

  method QuadraticSplit<T>(items: seq<T>, boxOf: T -> Envelope, minFill: nat) returns (g1: seq<T>, g2: seq<T>)
    requires |items| >= 2 && 1 <= minFill && 2 * minFill <= |items|
    ensures SplitInto(items, boxOf, minFill, g1, g2)
    ensures multiset(g1) + multiset(g2) == multiset(items)
    ensures minFill <= |g1| && minFill <= |g2| && |g1| + |g2| == |items|
  {
    hide PrefersFirst, HullOf, Seeds, Others, OthersUpTo, Deal;
    var s1, s2 := PickSeeds(items, boxOf);
    SeedsInRange(items, boxOf, s1, s2);
    g1, g2 := [items[s1]], [items[s2]];
    var b1, b2 := boxOf(items[s1]), boxOf(items[s2]);
    HullPush([], items[s1], boxOf);
    HullPush([], items[s2], boxOf);
    var rest: seq<T> := [];
    OthersEnds(items, s1, s2);
    for i := 0 to |items|
      invariant rest == OthersUpTo(items, s1, s2, i)
    {
      OthersStep(items, s1, s2, i);
      if i != s1 && i != s2 { rest := rest + [items[i]]; }
    }
    OthersPermute(items, s1, s2);
    DealFair(g1, g2, rest, boxOf, minFill);
    ghost var dealt := Deal(g1, g2, rest, boxOf, minFill);
    assert rest[0..] == rest;
    for k := 0 to |rest|
      invariant |g1| >= 1 && |g2| >= 1 && |g1| + |g2| == k + 2
      invariant b1 == HullOf(g1, boxOf) && b2 == HullOf(g2, boxOf)
      invariant Deal(g1, g2, rest[k..], boxOf, minFill) == dealt
    {
      var x := rest[k];
      DealStep(g1, g2, rest[k..], boxOf, minFill);
      assert rest[k..][1..] == rest[k + 1..];
      HullPush(g1, x, boxOf);
      HullPush(g2, x, boxOf);
      var remaining := |rest| - (|g1| - 1) - (|g2| - 1);
      if |g1| + remaining <= minFill || (|g2| + remaining > minFill && PrefersFirst(b1, b2, boxOf(x))) {
        b1, g1 := Grow(b1, boxOf(x)), g1 + [x];
      } else {
        b2, g2 := Grow(b2, boxOf(x)), g2 + [x];
      }
    }
    DealDone(g1, g2, rest[|rest|..], boxOf, minFill);
  }

  lemma SeedsInRange<T>(items: seq<T>, boxOf: T -> Envelope, s1: nat, s2: nat)
    requires Seeds(items, boxOf, s1, s2)
    ensures s1 < s2 < |items|
  {
  }

  lemma OthersEnds<T>(items: seq<T>, s1: nat, s2: nat)
    requires s1 < s2 < |items|
    ensures OthersUpTo(items, s1, s2, 0) == []
    ensures OthersUpTo(items, s1, s2, |items|) == Others(items, s1, s2)
  {
  }

  lemma DealStep<T>(g1: seq<T>, g2: seq<T>, rest: seq<T>, boxOf: T -> Envelope, minFill: nat)
    requires rest != []
    ensures var x := rest[0];
            Deal(g1, g2, rest, boxOf, minFill) ==
            if |g1| + |rest| <= minFill
               || (|g2| + |rest| > minFill && PrefersFirst(HullOf(g1, boxOf), HullOf(g2, boxOf), boxOf(x)))
            then Deal(g1 + [x], g2, rest[1..], boxOf, minFill)
            else Deal(g1, g2 + [x], rest[1..], boxOf, minFill)
  {
    hide PrefersFirst, HullOf;
  }

  /** Outside forced moves an item goes to the group whose area it enlarges least; on a tie, to the group of smaller area;
      then to the first. */
  lemma DealtWhereCheaper<T>(g1: seq<T>, g2: seq<T>, rest: seq<T>, boxOf: T -> Envelope, minFill: nat)
    requires rest != [] && |g1| + |rest| > minFill && |g2| + |rest| > minFill
    ensures var x, tail := rest[0], rest[1..];
            var b1, b2, add := HullOf(g1, boxOf), HullOf(g2, boxOf), boxOf(rest[0]);
            var more1, more2 := Area(Grow(b1, add)) - Area(b1), Area(Grow(b2, add)) - Area(b2);
            || (Deal(g1, g2, rest, boxOf, minFill) == Deal(g1 + [x], g2, tail, boxOf, minFill)
                && more1 <= more2 && (more1 == more2 ==> Area(b1) <= Area(b2)))
            || (Deal(g1, g2, rest, boxOf, minFill) == Deal(g1, g2 + [x], tail, boxOf, minFill)
                && more2 <= more1 && (more1 == more2 ==> Area(b2) < Area(b1)))
  {
    hide HullOf, Area, Grow;
    DealStep(g1, g2, rest, boxOf, minFill);
  }

  lemma DealDone<T>(g1: seq<T>, g2: seq<T>, rest: seq<T>, boxOf: T -> Envelope, minFill: nat)
    requires rest == []
    ensures Deal(g1, g2, rest, boxOf, minFill) == (g1, g2)
  {
  }
}
