/** Kuhn's augmenting-path matching. matchRight[v] is the left vertex matched to right vertex v, or -1. */
module KuhnMatching {
  import opened Counting

  type Graph = seq<seq<nat>>

  ghost predicate WellFormed(adj: Graph, rightN: nat) {
    forall u, i :: 0 <= u < |adj| && 0 <= i < |adj[u]| ==> adj[u][i] < rightN
  }

  /** Every entry is -1 or a left vertex that lists the column. */
  ghost predicate UsesEdges(adj: Graph, leftN: nat, matchRight: seq<int>)
    requires leftN <= |adj|
  {
    forall v :: 0 <= v < |matchRight| && matchRight[v] != -1 ==>
      0 <= matchRight[v] < leftN && v in adj[matchRight[v]]
  }

  ghost predicate ValidMatching(adj: Graph, leftN: nat, matchRight: seq<int>)
    requires leftN <= |adj|
  {
    && UsesEdges(adj, leftN, matchRight)
    && forall v, w :: 0 <= v < w < |matchRight| && matchRight[v] != -1 ==> matchRight[v] != matchRight[w]
  }

  ghost function MatchedColumns(matchRight: seq<int>): set<nat> {
    set v: nat | v < |matchRight| && matchRight[v] != -1
  }

  /** A set of right vertices that alternating paths cannot leave: all are matched, and their partners only know
      right vertices of the set. */
  ghost predicate Trap(adj: Graph, matchRight: seq<int>, s: set<nat>) {
    forall v :: v in s ==>
      v < |matchRight| && 0 <= matchRight[v] < |adj| && forall w :: w in adj[matchRight[v]] ==> w in s
  }

  ghost predicate KnowsOnly(adj: Graph, u: nat, s: set<nat>)
    requires u < |adj|
  {
    forall v :: v in adj[u] ==> v in s
  }

  /** Between two marks: everything newly seen is matched, and all its partner knows has been seen. */
  ghost predicate Exhausted(adj: Graph, matchRight: seq<int>, before: set<nat>, after: set<nat>) {
    && before <= after
    && forall v :: v in after && v !in before ==>
         v < |matchRight| && 0 <= matchRight[v] < |adj| && forall w :: w in adj[matchRight[v]] ==> w in after
  }

  ghost predicate SameOn(s: set<nat>, a: seq<int>, b: seq<int>) {
    |a| == |b| && forall v :: v in s && v < |a| ==> a[v] == b[v]
  }

  lemma NothingExhausted(adj: Graph, matchRight: seq<int>, s: set<nat>)
    ensures Exhausted(adj, matchRight, s, s)
  {
  }

  lemma PartnerKnows(adj: Graph, leftN: nat, matchRight: seq<int>, v: nat)
    requires leftN <= |adj| && UsesEdges(adj, leftN, matchRight) && v < |matchRight|
    ensures matchRight[v] == -1 || (0 <= matchRight[v] < leftN && v in adj[matchRight[v]])
  {
  }

  /** Exhausting the partner of v exhausts v. */
  lemma ExhaustThrough(adj: Graph, matchRight: seq<int>, start: set<nat>, s: set<nat>, v: nat, after: set<nat>)
    requires v < |matchRight| && 0 <= matchRight[v] < |adj|
    requires Exhausted(adj, matchRight, start, s)
    requires Exhausted(adj, matchRight, s + {v}, after) && KnowsOnly(adj, matchRight[v], after)
    ensures Exhausted(adj, matchRight, start, after)
  {
  }

  /** Giving column v to u, whose former occupant already holds another column. */
  lemma Reassign(adj: Graph, leftN: nat, matchRight: seq<int>, moved: seq<int>, v: nat, u: nat)
    requires leftN <= |adj| && u < leftN && v < |matchRight| == |moved|
    requires UsesEdges(adj, leftN, moved) && v in adj[u] && moved[v] == matchRight[v]
    requires if matchRight[v] == -1 then moved == matchRight
             else multiset(moved) + multiset{-1} == multiset(matchRight) + multiset{matchRight[v]}
    ensures UsesEdges(adj, leftN, moved[v := u])
    ensures multiset(moved[v := u]) + multiset{-1} == multiset(matchRight) + multiset{u}
  {
    hide UsesEdges;
    KeepsEdges(adj, leftN, moved, v, u);
    Replaced(moved, v, u);
    var rest := multiset(moved) - multiset{moved[v]};
    Exchange(rest, multiset(matchRight), matchRight[v], u);
  }

  lemma KeepsEdges(adj: Graph, leftN: nat, moved: seq<int>, v: nat, u: nat)
    requires leftN <= |adj| && u < leftN && v < |moved| && UsesEdges(adj, leftN, moved) && v in adj[u]
    ensures UsesEdges(adj, leftN, moved[v := u])
  {
  }

  lemma Replaced(s: seq<int>, v: nat, u: int)
    requires v < |s|
    ensures var rest := multiset(s) - multiset{s[v]};
            multiset(s) == rest + multiset{s[v]} && multiset(s[v := u]) == rest + multiset{u}
  {
    assert s == s[..v] + [s[v]] + s[v + 1..];
    assert s[v := u] == s[..v] + [u] + s[v + 1..];
  }

  lemma Exchange(rest: multiset<int>, held: multiset<int>, x: int, u: int)
    requires if x == -1 then rest + multiset{x} == held else rest + multiset{x} + multiset{-1} == held + multiset{x}
    ensures rest + multiset{u} + multiset{-1} == held + multiset{u}
  {
    forall y ensures (rest + multiset{u} + multiset{-1})[y] == (held + multiset{u})[y] {
      if x == -1 {
        assert (rest + multiset{x})[y] == held[y];
      } else {
        assert (rest + multiset{x} + multiset{-1})[y] == (held + multiset{x})[y];
      }
    }
  }

  /**
   One augmenting attempt from left vertex u. On success u holds one more column, every other left vertex as many
   as before, and one column fewer is free. On failure nothing moved and all that u knows was exhausted. No attempt
   disturbs a trap, and none started inside a trap succeeds.
   */
  method TryAugment(u: nat, adj: Graph, leftN: nat, matchRight: seq<int>, seen: seq<bool>, ghost trap: set<nat>)
    returns (ok: bool, matchRight': seq<int>, seen': seq<bool>)
    requires u < leftN <= |adj| && |matchRight| == |seen| && WellFormed(adj, |seen|)
    requires UsesEdges(adj, leftN, matchRight)
    requires Trap(adj, matchRight, trap)
    ensures |matchRight'| == |seen'| == |seen| && UsesEdges(adj, leftN, matchRight')
    ensures Seen(seen) <= Seen(seen')
    ensures SameOn(Seen(seen) + trap, matchRight, matchRight')
    ensures ok ==> multiset(matchRight') + multiset{-1} == multiset(matchRight) + multiset{u}
    ensures !ok ==> matchRight' == matchRight
    ensures !ok ==> KnowsOnly(adj, u, Seen(seen')) && Exhausted(adj, matchRight, Seen(seen), Seen(seen'))
    ensures KnowsOnly(adj, u, trap) ==> !ok
    decreases Unseen(seen)
  {
    hide Seen, Unseen, Exhausted, UsesEdges;
    seen' := seen;
    NothingExhausted(adj, matchRight, Seen(seen));
    for k := 0 to |adj[u]|
      invariant |seen'| == |seen|
      invariant Exhausted(adj, matchRight, Seen(seen), Seen(seen'))
      invariant Seen(seen) <= Seen(seen')
      invariant forall i :: 0 <= i < k ==> adj[u][i] in Seen(seen')
    {
      var v := adj[u][k];
      SeenPartition(seen', v);
      if seen'[v] { continue; }
      ghost var before := seen';
      seen' := seen'[v := true];
      Mark(before, v);
      FewerUnseen(seen, before);
      PartnerKnows(adj, leftN, matchRight, v);
      if matchRight[v] < 0 {
        Reassign(adj, leftN, matchRight, matchRight, v, u);
        return true, matchRight[v := u], seen';
      }
      var rehomed, moved;
      rehomed, moved, seen' := TryAugment(matchRight[v], adj, leftN, matchRight, seen', trap);
      if rehomed {
        Reassign(adj, leftN, matchRight, moved, v, u);
        return true, moved[v := u], seen';
      }
      ExhaustThrough(adj, matchRight, Seen(seen), Seen(before), v, Seen(seen'));
    }
    return false, matchRight, seen';
  }

  // --------------------------------------------------------------------------------------- counting

  lemma {:induction false} MatchedPlusFree(matchRight: seq<int>)
    ensures |MatchedColumns(matchRight)| + multiset(matchRight)[-1] == |matchRight|
  {
    if matchRight != [] {
      var n := |matchRight| - 1;
      var init := matchRight[..n];
      MatchedPlusFree(init);
      assert matchRight == init + [matchRight[n]];
      assert MatchedColumns(matchRight) - {n} == MatchedColumns(init);
      assert matchRight[n] == -1 ==> MatchedColumns(matchRight) == MatchedColumns(init);
    }
  }

  lemma OnceMeansInjective(matchRight: seq<int>, v: nat, w: nat)
    requires v < w < |matchRight| && multiset(matchRight)[matchRight[v]] <= 1
    ensures matchRight[v] != matchRight[w]
  {
    assert matchRight == matchRight[..w] + matchRight[w..];
    assert matchRight[v] in matchRight[..w] && matchRight[w] in matchRight[w..];
  }

  // ------------------------------------------------------------------------------------- maximality

  /** Every left vertex is matched or knows only trapped columns. */
  ghost predicate Settled(adj: Graph, n: nat, matchRight: seq<int>, trap: set<nat>)
    requires n <= |adj|
  {
    forall u: nat :: u < n ==> u in matchRight || KnowsOnly(adj, u, trap)
  }

  /** The columns of a settled matching outside the trap absorb those of any other matching outside the trap. */
  lemma TrapBound(adj: Graph, leftN: nat, matchRight: seq<int>, trap: set<nat>, other: seq<int>)
    requires leftN <= |adj| && |other| == |matchRight|
    requires ValidMatching(adj, leftN, matchRight) && ValidMatching(adj, leftN, other)
    requires Trap(adj, matchRight, trap) && Settled(adj, leftN, matchRight, trap)
    ensures |MatchedColumns(other)| <= |MatchedColumns(matchRight)|
  {
    var mine, theirs := MatchedColumns(matchRight), MatchedColumns(other);
    var f: map<nat, nat> := map v | v in theirs - trap :: ColumnOf(adj, leftN, matchRight, trap, other, v);
    InjectionSize(theirs - trap, mine - trap, f);
    assert trap <= mine;
    SizeAroundTrap(theirs, mine, trap);
  }

  lemma SizeAroundTrap(theirs: set<nat>, mine: set<nat>, trap: set<nat>)
    requires trap <= mine && |theirs - trap| <= |mine - trap|
    ensures |theirs| <= |mine|
  {
    SubsetSize(theirs * trap, trap);
    assert theirs == (theirs - trap) + (theirs * trap);
    assert mine == (mine - trap) + trap;
  }

  /** Where matchRight keeps the left vertex that other puts on a column outside the trap. */
  ghost function ColumnOf(adj: Graph, leftN: nat, matchRight: seq<int>, trap: set<nat>, other: seq<int>, v: nat): (w: nat)
    requires leftN <= |adj| && v < |other|
    requires ValidMatching(adj, leftN, matchRight) && ValidMatching(adj, leftN, other)
    requires Trap(adj, matchRight, trap) && Settled(adj, leftN, matchRight, trap)
    requires v in MatchedColumns(other) - trap
    ensures w in MatchedColumns(matchRight) - trap && matchRight[w] == other[v]
  {
    var u := other[v];
    assert v in adj[u] && !KnowsOnly(adj, u, trap) && u in matchRight;
    var w :| 0 <= w < |matchRight| && matchRight[w] == u;
    w
  }

  /**
   Maximum-cardinality matching. A left vertex whose attempt failed is never retried: the trap its attempt
   leaves behind survives every later augmentation, so a retry could not succeed.
   */
  method Kuhn(leftN: nat, rightN: nat, adj: Graph) returns (matchRight: seq<int>, count: nat)
    requires leftN <= |adj| && WellFormed(adj, rightN)
    ensures |matchRight| == rightN && ValidMatching(adj, leftN, matchRight)
    ensures count == |MatchedColumns(matchRight)|
    ensures forall other :: |other| == rightN && ValidMatching(adj, leftN, other) ==> |MatchedColumns(other)| <= count
  {
    matchRight := seq(rightN, _ => -1);
    count := 0;
    ghost var trap: set<nat> := {};
    AllFree(rightN);
    for u := 0 to leftN
      invariant |matchRight| == rightN && UsesEdges(adj, leftN, matchRight)
      invariant Trap(adj, matchRight, trap) && Settled(adj, u, matchRight, trap)
      invariant HeldOnce(matchRight, u)
      invariant multiset(matchRight)[-1] == rightN - count
    {
      ghost var before := matchRight;
      var ok, seen;
      ok, matchRight, seen := TryAugment(u, adj, leftN, matchRight, seq(rightN, _ => false), trap);
      if ok {
        count := count + 1;
        KeepAfterSuccess(adj, u, before, matchRight, trap);
      } else {
        ghost var grown := trap + Seen(seen);
        TrapAfterFailure(adj, u, matchRight, trap, Seen(seen));
        trap := grown;
      }
    }
    forall v, w | 0 <= v < w < |matchRight| && matchRight[v] != -1 ensures matchRight[v] != matchRight[w] {
      OnceMeansInjective(matchRight, v, w);
    }
    MatchedPlusFree(matchRight);
    forall other | |other| == rightN && ValidMatching(adj, leftN, other)
      ensures |MatchedColumns(other)| <= count
    {
      TrapBound(adj, leftN, matchRight, trap, other);
    }
  }

  /** No left vertex holds two columns, and none from u on holds any. */
  ghost predicate HeldOnce(matchRight: seq<int>, u: nat) {
    && (forall x :: 0 <= x < u ==> multiset(matchRight)[x] <= 1)
    && (forall x :: u <= x ==> multiset(matchRight)[x] == 0)
  }

  lemma {:induction false} AllFree(n: nat)
    ensures multiset(seq(n, _ => -1)) == multiset{}[-1 := n]
  {
    if n > 0 {
      AllFree(n - 1);
      assert seq(n, _ => -1) == seq(n - 1, _ => -1) + [-1];
    }
  }

  lemma KeepAfterSuccess(adj: Graph, u: nat, before: seq<int>, after: seq<int>, trap: set<nat>)
    requires u < |adj| && HeldOnce(before, u) && Trap(adj, before, trap) && Settled(adj, u, before, trap)
    requires multiset(after) + multiset{-1} == multiset(before) + multiset{u}
    requires SameOn(trap, before, after)
    ensures HeldOnce(after, u + 1) && Trap(adj, after, trap) && Settled(adj, u + 1, after, trap)
    ensures multiset(after)[-1] == multiset(before)[-1] as int - 1
  {
    forall x: int
      ensures multiset(after)[x] + (if x == -1 then 1 else 0) == multiset(before)[x] + (if x == u then 1 else 0)
    {
      assert (multiset(after) + multiset{-1})[x] == (multiset(before) + multiset{u})[x];
    }
    forall x: nat | x < u && x in before ensures x in after {
      assert multiset(after)[x] + (if x == -1 then 1 else 0) == multiset(before)[x] + (if x == u then 1 else 0);
      assert x in multiset(before) && x in multiset(after);
    }
    assert multiset(after)[u as int] == 1 && u in multiset(after);
  }

  lemma TrapAfterFailure(adj: Graph, u: nat, matchRight: seq<int>, trap: set<nat>, seen: set<nat>)
    requires u < |adj| && Trap(adj, matchRight, trap) && Settled(adj, u, matchRight, trap)
    requires KnowsOnly(adj, u, seen) && Exhausted(adj, matchRight, {}, seen)
    ensures Trap(adj, matchRight, trap + seen) && Settled(adj, u + 1, matchRight, trap + seen)
  {
  }
}
