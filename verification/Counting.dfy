/** Sizes of finite sets of naturals. */
module Counting {

  /** An injection from a into b bounds the size of a. */
  lemma {:induction false} InjectionSize(a: set<nat>, b: set<nat>, f: map<nat, nat>)
    requires forall x :: x in a ==> x in f && f[x] in b
    requires forall x, y :: x in a && y in a && f[x] == f[y] ==> x == y
    ensures |a| <= |b|
  {
    if x :| x in a {
      InjectionSize(a - {x}, b - {f[x]}, f);
    }
  }

  lemma SubsetSize(a: set<nat>, b: set<nat>)
    requires a <= b
    ensures |a| <= |b|
  {
    InjectionSize(a, b, map x | x in a :: x);
  }

  /** The naturals below n. */
  function Below(n: nat): (s: set<nat>)
    ensures |s| == n && forall x: nat :: x in s <==> x < n
  {
    if n == 0 then {} else Below(n - 1) + {n - 1}
  }

  /** Distinct numbers below n are at most n. */
  lemma DistinctBelow(ns: seq<nat>, n: nat)
    requires forall i :: 0 <= i < |ns| ==> ns[i] < n
    requires forall i, j :: 0 <= i < j < |ns| ==> ns[i] != ns[j]
    ensures |ns| <= n
  {
    InjectionSize(Below(|ns|), Below(n), map i | i in Below(|ns|) :: ns[i]);
  }

  /** A sequence that mentions every number below n has at least n entries. */
  lemma CoversBelow(ns: seq<nat>, n: nat)
    requires forall x :: 0 <= x < n ==> x in ns
    ensures n <= |ns|
  {
    InjectionSize(Below(n), Below(|ns|), map x | x in Below(n) :: PositionOf(ns, x));
  }

  ghost function PositionOf(ns: seq<nat>, x: nat): (k: nat)
    ensures x in ns ==> k < |ns| && ns[k] == x
  {
    if x in ns then var k :| 0 <= k < |ns| && ns[k] == x; k else 0
  }

  // The flag vectors of the search loops, as sets of positions.

  ghost function Seen(seen: seq<bool>): set<nat> {
    set v: nat | v < |seen| && seen[v]
  }

  ghost function Unseen(seen: seq<bool>): set<nat> {
    set v: nat | v < |seen| && !seen[v]
  }

  lemma Mark(seen: seq<bool>, v: nat)
    requires v < |seen| && !seen[v]
    ensures Seen(seen[v := true]) == Seen(seen) + {v}
    ensures Unseen(seen[v := true]) == Unseen(seen) - {v} && v in Unseen(seen)
  {
  }

  lemma SeenPartition(seen: seq<bool>, v: nat)
    requires v < |seen|
    ensures seen[v] <==> v in Seen(seen)
  {
  }

  lemma FewerUnseen(seen: seq<bool>, seen': seq<bool>)
    requires |seen| == |seen'| && Seen(seen) <= Seen(seen')
    ensures Unseen(seen') <= Unseen(seen)
  {
    forall v | v in Unseen(seen') ensures v in Unseen(seen) {
      SeenPartition(seen, v);
      SeenPartition(seen', v);
    }
  }
}
