/**
 The evidence log: an RFC 6962 Merkle tree. Proofs are generated by recursion on the split point and
 verified by walks over the bits of a leaf index. The node hash is a parameter: completeness holds for
 every node hash, and whoever gets a wrong claim accepted has found a collision of the node hash.
 */
module MerkleLog {
  import opened PowersOfTwo
  import opened Wrappers

  type Bytes = seq<bv8>

  /** The digest of the empty input and the node hash. */
  datatype Hasher<!H> = Hasher(empty: H, pair: (H, H) -> H)

  /** A node hash without collisions. */
  ghost predicate Injective<H(!new)>(h: Hasher<H>) {
    forall a, b, c, d :: h.pair(a, b) == h.pair(c, d) ==> a == c && b == d
  }

  /** Two pairs of arguments. */
  datatype Collision<H> = Collision(a: H, b: H, c: H, d: H)

  /** Different arguments with the same node hash. */
  ghost predicate Collides<H>(h: Hasher<H>, x: Collision<H>) {
    (x.a != x.c || x.b != x.d) && h.pair(x.a, x.b) == h.pair(x.c, x.d)
  }

  lemma InjectiveMeansNone<H(!new)>(h: Hasher<H>, x: Option<Collision<H>>)
    requires Injective(h) && (x.Some? ==> Collides(h, x.value))
    ensures x.None?
  {
  }

  // ---------------------------------------------------------------- tree hash and proof generation

  /** Merkle tree hash of lv[lo..hi], RFC 6962 section 2.1. */
  function Mth<H>(h: Hasher<H>, lv: seq<H>, lo: nat, hi: nat): H
    requires lo <= hi <= |lv|
    decreases hi - lo
  {
    var n := hi - lo;
    if n == 0 then h.empty
    else if n == 1 then lv[lo]
    else
      var k := Split(n);
      h.pair(Mth(h, lv, lo, lo + k), Mth(h, lv, lo + k, hi))
  }

  /** Audit path of leaf m within lv[lo..hi], leaf to root, RFC 6962 section 2.1.1. */
  function Path<H>(h: Hasher<H>, lv: seq<H>, m: nat, lo: nat, hi: nat): seq<H>
    requires lo <= hi <= |lv| && m < hi - lo
    decreases hi - lo
  {
    var n := hi - lo;
    if n == 1 then []
    else
      var k := Split(n);
      if m < k then Path(h, lv, m, lo, lo + k) + [Mth(h, lv, lo + k, hi)]
      else Path(h, lv, m - k, lo + k, hi) + [Mth(h, lv, lo, lo + k)]
  }

  /** Consistency proof of the first m leaves of lv[lo..hi], RFC 6962 section 2.1.2. */
  function Subproof<H>(h: Hasher<H>, lv: seq<H>, m: nat, lo: nat, hi: nat, b: bool): seq<H>
    requires lo <= hi <= |lv| && 0 < m <= hi - lo
    decreases hi - lo
  {
    var n := hi - lo;
    if m == n then (if b then [] else [Mth(h, lv, lo, hi)])
    else
      var k := Split(n);
      if m <= k then Subproof(h, lv, m, lo, lo + k, b) + [Mth(h, lv, lo + k, hi)]
      else Subproof(h, lv, m - k, lo + k, hi, false) + [Mth(h, lv, lo, lo + k)]
  }

  lemma AppendAssociative<T>(a: seq<T>, b: seq<T>, c: seq<T>)
    ensures (a + b) + c == a + (b + c)
  {
  }

  lemma DropLastOfAppend<T>(a: seq<T>, x: T)
    ensures (a + [x])[..|a + [x]| - 1] == a
  {
  }

  /** The doubling search for the split point. */
  method FindSplit(n: nat) returns (k: nat)
    requires n >= 2
    ensures k == Split(n)
  {
    k := 1;
    ghost var t := 0;
    while 2 * k < n
      invariant k == Pow2(t) && k < n
    {
      k, t := 2 * k, t + 1;
    }
    SplitLevelUnique(n, t);
  }

  lemma TreeHashStep<H>(h: Hasher<H>, lv: seq<H>, lo: nat, hi: nat)
    requires lo <= hi <= |lv| && 2 <= hi - lo
    ensures var k := Split(hi - lo);
            Mth(h, lv, lo, hi) == h.pair(Mth(h, lv, lo, lo + k), Mth(h, lv, lo + k, hi))
  {
    hide SplitLevel, Pow2;
  }

  lemma SmallTreeHash<H>(h: Hasher<H>, lv: seq<H>, lo: nat, hi: nat)
    requires lo <= hi <= |lv| && hi - lo < 2
    ensures Mth(h, lv, lo, hi) == if lo == hi then h.empty else lv[lo]
  {
  }

  method TreeHash<H>(h: Hasher<H>, lv: seq<H>, lo: nat, hi: nat) returns (r: H)
    requires lo <= hi <= |lv|
    ensures r == Mth(h, lv, lo, hi)
    decreases hi - lo
  {
    hide Mth;
    var n := hi - lo;
    if n < 2 {
      SmallTreeHash(h, lv, lo, hi);
    }
    if n == 0 { return h.empty; }
    if n == 1 { return lv[lo]; }
    var k := FindSplit(n);
    TreeHashStep(h, lv, lo, hi);
    var left := TreeHash(h, lv, lo, lo + k);
    var right := TreeHash(h, lv, lo + k, hi);
    return h.pair(left, right);
  }

  /** Pushes the audit path onto out. */
  method PushPath<H>(h: Hasher<H>, lv: seq<H>, m: nat, lo: nat, hi: nat, out: seq<H>) returns (out': seq<H>)
    requires lo <= hi <= |lv| && m < hi - lo
    ensures out' == out + Path(h, lv, m, lo, hi)
    decreases hi - lo
  {
    hide Mth, SplitLevel, Pow2;
    var n := hi - lo;
    if n <= 1 { return out; }
    var k := FindSplit(n);
    var sibling;
    if m < k {
      out' := PushPath(h, lv, m, lo, lo + k, out);
      sibling := TreeHash(h, lv, lo + k, hi);
      AppendAssociative(out, Path(h, lv, m, lo, lo + k), [sibling]);
    } else {
      out' := PushPath(h, lv, m - k, lo + k, hi, out);
      sibling := TreeHash(h, lv, lo, lo + k);
      AppendAssociative(out, Path(h, lv, m - k, lo + k, hi), [sibling]);
    }
    out' := out' + [sibling];
  }

  /** Pushes the consistency proof onto out. */
  method PushSubproof<H>(h: Hasher<H>, lv: seq<H>, m: nat, lo: nat, hi: nat, b: bool, out: seq<H>)
    returns (out': seq<H>)
    requires lo <= hi <= |lv| && 0 < m <= hi - lo
    ensures out' == out + Subproof(h, lv, m, lo, hi, b)
    decreases hi - lo
  {
    hide Mth, SplitLevel, Pow2;
    var n := hi - lo;
    var top;
    if m == n {
      if b { return out; }
      top := TreeHash(h, lv, lo, hi);
      return out + [top];
    }
    var k := FindSplit(n);
    if m <= k {
      out' := PushSubproof(h, lv, m, lo, lo + k, b, out);
      top := TreeHash(h, lv, lo + k, hi);
      AppendAssociative(out, Subproof(h, lv, m, lo, lo + k, b), [top]);
    } else {
      out' := PushSubproof(h, lv, m - k, lo + k, hi, false, out);
      top := TreeHash(h, lv, lo, lo + k);
      AppendAssociative(out, Subproof(h, lv, m - k, lo + k, hi, false), [top]);
    }
    out' := out' + [top];
  }

  // ------------------------------------------------------------------------- inclusion verification

  /**
   The root that an audit path recomputes for the node with index fn in a level whose last index is sn,
   taking one level at a time: a node on the left edge of an incomplete level has no sibling there.
   */
  function RootFromPath<H>(h: Hasher<H>, node: H, fn: nat, sn: nat, path: seq<H>): Option<H>
    requires fn <= sn
    decreases sn
  {
    if sn == 0 then
      if path == [] then Some(node) else None
    else if fn % 2 == 1 then
      if path == [] then None else RootFromPath(h, h.pair(path[0], node), fn / 2, sn / 2, path[1..])
    else if fn < sn then
      if path == [] then None else RootFromPath(h, h.pair(node, path[0]), fn / 2, sn / 2, path[1..])
    else
      RootFromPath(h, node, fn / 2, sn / 2, path)
  }

  lemma {:induction false} EmptyPathNeedsRoot<H>(h: Hasher<H>, node: H, fn: nat, sn: nat)
    requires fn <= sn && 0 < sn
    ensures RootFromPath(h, node, fn, sn, []) == None
    decreases sn
  {
    if fn % 2 == 0 && fn == sn {
      EmptyPathNeedsRoot(h, node, fn / 2, sn / 2);
    }
  }

  datatype InclusionProof<H> = InclusionProof(index: nat, size: nat, path: seq<H>)

  ghost predicate AcceptsInclusion<H>(h: Hasher<H>, p: InclusionProof<H>, leaf: H, root: H) {
    p.index < p.size && RootFromPath(h, leaf, p.index, p.size - 1, p.path) == Some(root)
  }

  /** The verifier: one iteration per path element, skipping the levels without a sibling. */
  method VerifyInclusion<H(==)>(h: Hasher<H>, p: InclusionProof<H>, leaf: H, root: H) returns (ok: bool)
    ensures ok <==> AcceptsInclusion(h, p, leaf, root)
  {
    if p.index >= p.size { return false; }
    var fn: nat, sn: nat := p.index, p.size - 1;
    var node := leaf;
    ghost var goal := RootFromPath(h, leaf, fn, sn, p.path);
    var i := 0;
    while i < |p.path|
      invariant 0 <= i <= |p.path|
      invariant fn <= sn
      invariant RootFromPath(h, node, fn, sn, p.path[i..]) == goal
    {
      if sn == 0 { return false; }
      var s := p.path[i];
      assert p.path[i..][0] == s && p.path[i..][1..] == p.path[i + 1..];
      if fn % 2 == 1 || fn == sn {
        ghost var before := node;
        while fn % 2 == 0
          invariant 0 < sn && fn <= sn
          invariant fn % 2 == 1 || fn == sn
          invariant RootFromPath(h, before, fn, sn, p.path[i..]) == goal
          decreases fn
        {
          fn, sn := fn / 2, sn / 2;
        }
        node := h.pair(s, node);
      } else {
        node := h.pair(node, s);
      }
      fn, sn := fn / 2, sn / 2;
      i := i + 1;
    }
    assert p.path[i..] == [];
    if sn != 0 {
      EmptyPathNeedsRoot(h, node, fn, sn);
    }
    return sn == 0 && node == root;
  }

  // ------------------------------------------------------------------- inclusion: walk versus recursion

  /** What a walk over the levels below the split yields, once the sibling at the split is added. */
  function AddSibling<H>(h: Hasher<H>, below: Option<H>, sibling: H, onLeft: bool): Option<H> {
    match below
    case None => None
    case Some(x) => Some(if onLeft then h.pair(sibling, x) else h.pair(x, sibling))
  }

  /** The node one level up: combined with its sibling on the left or on the right. */
  function Raised<H>(h: Hasher<H>, node: H, fn: nat, sibling: H): H {
    if fn % 2 == 1 then h.pair(sibling, node) else h.pair(node, sibling)
  }

  lemma WalkStep<H>(h: Hasher<H>, node: H, fn: nat, sn: nat, path: seq<H>)
    requires fn <= sn && 0 < sn
    ensures RootFromPath(h, node, fn, sn, path) ==
            if fn % 2 == 0 && fn == sn then RootFromPath(h, node, fn / 2, sn / 2, path)
            else if path == [] then None
            else RootFromPath(h, Raised(h, node, fn, path[0]), fn / 2, sn / 2, path[1..])
  {
  }

  /** Dropping the last element commutes with dropping the first. */
  lemma DropBoth<T>(s: seq<T>)
    requires 2 <= |s|
    ensures s[..|s| - 1][0] == s[0] && s[..|s| - 1][1..] == s[1..][..|s[1..]| - 1] && s[1..][|s[1..]| - 1] == s[|s| - 1]
  {
  }

  /** Left of the split: the walk is the walk of the complete left subtree, then one right sibling. */
  lemma {:induction false} WalkLeftOfSplit<H>(h: Hasher<H>, t: nat, node: H, fn: nat, sn: nat, path: seq<H>)
    requires fn < Pow2(t) <= sn < 2 * Pow2(t)
    ensures RootFromPath(h, node, fn, sn, path) ==
            if path == [] then None
            else AddSibling(h, RootFromPath(h, node, fn, Pow2(t) - 1, path[..|path| - 1]), path[|path| - 1], false)
    decreases t
  {
    if path == [] {
      EmptyPathNeedsRoot(h, node, fn, sn);
    } else if t == 0 {
    } else {
      WalkLeftDeep(h, t, node, fn, sn, path);
    }
  }

  lemma {:induction false} WalkLeftDeep<H>(h: Hasher<H>, t: nat, node: H, fn: nat, sn: nat, path: seq<H>)
    requires fn < Pow2(t) <= sn < 2 * Pow2(t) && 0 < t && path != []
    ensures RootFromPath(h, node, fn, sn, path) ==
            AddSibling(h, RootFromPath(h, node, fn, Pow2(t) - 1, path[..|path| - 1]), path[|path| - 1], false)
    decreases t, 0
  {
    hide RootFromPath, Raised;
    var up := Raised(h, node, fn, path[0]);
    WalkStep(h, node, fn, sn, path);
    if |path| == 1 {
      assert path[..|path| - 1] == [] && path[1..] == [];
      EmptyPathNeedsRoot(h, node, fn, Pow2(t) - 1);
      EmptyPathNeedsRoot(h, up, fn / 2, sn / 2);
    } else {
      DropBoth(path);
      WalkStep(h, node, fn, Pow2(t) - 1, path[..|path| - 1]);
      WalkLeftOfSplit(h, t - 1, up, fn / 2, sn / 2, path[1..]);
    }
  }

  /** Right of the split: the walk is the walk of the right subtree, then one left sibling. */
  lemma {:induction false} WalkRightOfSplit<H>(h: Hasher<H>, t: nat, node: H, fn: nat, sn: nat, path: seq<H>)
    requires Pow2(t) <= fn <= sn < 2 * Pow2(t)
    ensures RootFromPath(h, node, fn, sn, path) ==
            if path == [] then None
            else AddSibling(h, RootFromPath(h, node, fn - Pow2(t), sn - Pow2(t), path[..|path| - 1]),
                            path[|path| - 1], true)
    decreases t
  {
    if path == [] {
      EmptyPathNeedsRoot(h, node, fn, sn);
    } else if t == 0 {
    } else {
      WalkRightDeep(h, t, node, fn, sn, path);
    }
  }

  lemma {:induction false} WalkRightDeep<H>(h: Hasher<H>, t: nat, node: H, fn: nat, sn: nat, path: seq<H>)
    requires Pow2(t) <= fn <= sn < 2 * Pow2(t) && 0 < t && path != []
    ensures RootFromPath(h, node, fn, sn, path) ==
            AddSibling(h, RootFromPath(h, node, fn - Pow2(t), sn - Pow2(t), path[..|path| - 1]), path[|path| - 1], true)
    decreases t, 0
  {
    hide RootFromPath, Raised;
    var P := Pow2(t);
    HalvePastSplit(t, fn);
    HalvePastSplit(t, sn);
    WalkStep(h, node, fn, sn, path);
    if fn % 2 == 0 && fn == sn {
      WalkRightOfSplit(h, t - 1, node, fn / 2, sn / 2, path);
      if 0 < sn - P {
        WalkStep(h, node, fn - P, sn - P, path[..|path| - 1]);
      }
    } else {
      WalkRightOfSplit(h, t - 1, Raised(h, node, fn, path[0]), fn / 2, sn / 2, path[1..]);
      SameParityRaised(h, node, fn, fn - P, path[0]);
      if |path| == 1 {
        EmptyPathNeedsRoot(h, node, fn - P, sn - P);
      } else {
        DropBoth(path);
        WalkStep(h, node, fn - P, sn - P, path[..|path| - 1]);
      }
    }
  }

  lemma SameParityRaised<H>(h: Hasher<H>, node: H, a: nat, b: nat, sibling: H)
    requires a % 2 == b % 2
    ensures Raised(h, node, a, sibling) == Raised(h, node, b, sibling)
  {
  }

  lemma PathStep<H>(h: Hasher<H>, lv: seq<H>, m: nat, lo: nat, hi: nat)
    requires lo <= hi <= |lv| && m < hi - lo && 2 <= hi - lo
    ensures var k := Split(hi - lo);
            Path(h, lv, m, lo, hi) ==
            if m < k then Path(h, lv, m, lo, lo + k) + [Mth(h, lv, lo + k, hi)]
            else Path(h, lv, m - k, lo + k, hi) + [Mth(h, lv, lo, lo + k)]
  {
    hide Mth, SplitLevel, Pow2;
  }

  /** A tree of one leaf is its own root, with the empty audit path. */
  lemma InclusionSingle<H>(h: Hasher<H>, lv: seq<H>, m: nat, lo: nat, hi: nat, leaf: H, path: seq<H>)
    requires m == 0 && hi == lo + 1 <= |lv|
    ensures Mth(h, lv, lo, hi) == lv[lo] && Path(h, lv, m, lo, hi) == []
    ensures RootFromPath(h, leaf, m, hi - lo - 1, path) == if path == [] then Some(leaf) else None
  {
  }

  /** Completeness: the recursive audit path recomputes the tree hash. */
  lemma {:induction false} InclusionComplete<H>(h: Hasher<H>, lv: seq<H>, m: nat, lo: nat, hi: nat)
    requires lo <= hi <= |lv| && m < hi - lo
    ensures RootFromPath(h, lv[lo + m], m, hi - lo - 1, Path(h, lv, m, lo, hi)) == Some(Mth(h, lv, lo, hi))
    decreases hi - lo
  {
    hide Mth, Path, RootFromPath, SplitLevel, Pow2;
    var n := hi - lo;
    if n == 1 {
      InclusionSingle(h, lv, m, lo, hi, lv[lo], []);
    } else {
      var k := Split(n);
      var path := Path(h, lv, m, lo, hi);
      TreeHashStep(h, lv, lo, hi);
      PathStep(h, lv, m, lo, hi);
      if m < k {
        DropLastOfAppend(Path(h, lv, m, lo, lo + k), Mth(h, lv, lo + k, hi));
        InclusionComplete(h, lv, m, lo, lo + k);
        WalkLeftOfSplit(h, SplitLevel(n), lv[lo + m], m, n - 1, path);
      } else {
        DropLastOfAppend(Path(h, lv, m - k, lo + k, hi), Mth(h, lv, lo, lo + k));
        InclusionComplete(h, lv, m - k, lo + k, hi);
        WalkRightOfSplit(h, SplitLevel(n), lv[lo + m], m, n - 1, path);
      }
    }
  }

  /** Soundness for every node hash: whatever recomputes the tree hash is leaf m with its own audit path, or gives a
      collision away. */
  lemma {:induction false} InclusionOrCollision<H>(h: Hasher<H>, lv: seq<H>, m: nat, lo: nat, hi: nat, leaf: H, path: seq<H>)
    returns (x: Option<Collision<H>>)
    requires lo <= hi <= |lv| && m < hi - lo
    requires RootFromPath(h, leaf, m, hi - lo - 1, path) == Some(Mth(h, lv, lo, hi))
    ensures x.None? ==> leaf == lv[lo + m] && path == Path(h, lv, m, lo, hi)
    ensures x.Some? ==> Collides(h, x.value)
    decreases hi - lo
  {
    hide Mth, Path, RootFromPath, SplitLevel, Pow2;
    var n := hi - lo;
    x := None;
    if n == 1 {
      InclusionSingle(h, lv, m, lo, hi, leaf, path);
    } else {
      var k := Split(n);
      var left, right := Mth(h, lv, lo, lo + k), Mth(h, lv, lo + k, hi);
      TreeHashStep(h, lv, lo, hi);
      PathStep(h, lv, m, lo, hi);
      if m < k {
        WalkLeftOfSplit(h, SplitLevel(n), leaf, m, n - 1, path);
        var below := RootFromPath(h, leaf, m, k - 1, path[..|path| - 1]).value;
        if (below, path[|path| - 1]) != (left, right) {
          return Some(Collision(below, path[|path| - 1], left, right));
        }
        x := InclusionOrCollision(h, lv, m, lo, lo + k, leaf, path[..|path| - 1]);
      } else {
        WalkRightOfSplit(h, SplitLevel(n), leaf, m, n - 1, path);
        var below := RootFromPath(h, leaf, m - k, n - k - 1, path[..|path| - 1]).value;
        if (path[|path| - 1], below) != (left, right) {
          return Some(Collision(path[|path| - 1], below, left, right));
        }
        x := InclusionOrCollision(h, lv, m - k, lo + k, hi, leaf, path[..|path| - 1]);
      }
      assert path == path[..|path| - 1] + [path[|path| - 1]];
    }
  }

  /** Under an injective node hash only leaf m with its own audit path recomputes the tree hash. */
  lemma InclusionSound<H(!new)>(h: Hasher<H>, lv: seq<H>, m: nat, lo: nat, hi: nat, leaf: H, path: seq<H>)
    requires Injective(h)
    requires lo <= hi <= |lv| && m < hi - lo
    requires RootFromPath(h, leaf, m, hi - lo - 1, path) == Some(Mth(h, lv, lo, hi))
    ensures leaf == lv[lo + m] && path == Path(h, lv, m, lo, hi)
  {
    var x := InclusionOrCollision(h, lv, m, lo, hi, leaf, path);
    InjectiveMeansNone(h, x);
  }

  // ----------------------------------------------------------------------- consistency verification

  /** The old and the new root that a consistency proof recomputes, one level at a time. */
  function Climb<H>(h: Hasher<H>, node: nat, last: nat, oldHash: H, newHash: H, proof: seq<H>): Option<(H, H)>
    requires node <= last
    decreases last
  {
    if last == 0 then
      if proof == [] then Some((oldHash, newHash)) else None
    else if node % 2 == 1 then
      if proof == [] then None
      else Climb(h, node / 2, last / 2, h.pair(proof[0], oldHash), h.pair(proof[0], newHash), proof[1..])
    else if node < last then
      if proof == [] then None
      else Climb(h, node / 2, last / 2, oldHash, h.pair(newHash, proof[0]), proof[1..])
    else
      Climb(h, node / 2, last / 2, oldHash, newHash, proof)
  }

  /** The climb starts above the levels on which the last old leaf sits in a right child. */
  function Rebased<H>(h: Hasher<H>, node: nat, last: nat, seed: H, proof: seq<H>): Option<(H, H)>
    requires node <= last
  {
    if node % 2 == 1 then Rebased(h, node / 2, last / 2, seed, proof)
    else Climb(h, node, last, seed, seed, proof)
  }

  /** The index left once the trailing one bits are shifted out: zero exactly when node + 1 is a power of two. */
  function StripOnes(node: nat): nat {
    if node % 2 == 1 then StripOnes(node / 2) else node
  }

  ghost predicate AcceptsConsistency<H>(h: Hasher<H>, oldSize: nat, oldRoot: H, newSize: nat, newRoot: H,
                                        proof: seq<H>)
  {
    if oldSize > newSize then false
    else if oldSize == newSize then proof == [] && oldRoot == newRoot
    else if oldSize == 0 then true
    else if StripOnes(oldSize - 1) == 0 then
      Rebased(h, oldSize - 1, newSize - 1, oldRoot, proof) == Some((oldRoot, newRoot))
    else
      proof != [] && Rebased(h, oldSize - 1, newSize - 1, proof[0], proof[1..]) == Some((oldRoot, newRoot))
  }

  /** The last index of the level at which the climb starts. */
  function LastAfterStrip(node: nat, last: nat): (r: nat)
    requires node <= last
    ensures StripOnes(node) <= r
  {
    if node % 2 == 1 then LastAfterStrip(node / 2, last / 2) else last
  }

  lemma {:induction false} RebasedIsClimb<H>(h: Hasher<H>, node: nat, last: nat, seed: H, proof: seq<H>)
    requires node <= last
    ensures Rebased(h, node, last, seed, proof) ==
            Climb(h, StripOnes(node), LastAfterStrip(node, last), seed, seed, proof)
  {
    hide Climb;
    if node % 2 == 1 {
      RebasedIsClimb(h, node / 2, last / 2, seed, proof);
    }
  }

  /** The loop that rebases past right children. */
  method Rebase(node0: nat, last0: nat) returns (node: nat, last: nat)
    requires node0 <= last0
    ensures node == StripOnes(node0) && last == LastAfterStrip(node0, last0)
  {
    node, last := node0, last0;
    while node % 2 == 1
      invariant node <= last
      invariant StripOnes(node) == StripOnes(node0)
      invariant LastAfterStrip(node, last) == LastAfterStrip(node0, last0)
      decreases node
    {
      node, last := node / 2, last / 2;
    }
  }

  /** The two loops that consume the proof from position it on. */
  method ClimbProof<H>(h: Hasher<H>, node0: nat, last0: nat, seed: H, proof: seq<H>, it0: nat)
    returns (ok: bool, h1: H, h2: H)
    requires node0 <= last0 && it0 <= |proof|
    ensures Climb(h, node0, last0, seed, seed, proof[it0..]) == if ok then Some((h1, h2)) else None
  {
    var node, last, it := node0, last0, it0;
    h1, h2 := seed, seed;
    ghost var goal := Climb(h, node, last, h1, h2, proof[it..]);
    while node != 0
      invariant 0 <= it <= |proof| && node <= last
      invariant Climb(h, node, last, h1, h2, proof[it..]) == goal
    {
      assert it < |proof| ==> proof[it..][0] == proof[it] && proof[it..][1..] == proof[it + 1..];
      if node % 2 == 1 {
        if it >= |proof| { return false, h1, h2; }
        h1 := h.pair(proof[it], h1);
        h2 := h.pair(proof[it], h2);
        it := it + 1;
      } else if node < last {
        if it >= |proof| { return false, h1, h2; }
        h2 := h.pair(h2, proof[it]);
        it := it + 1;
      }
      node, last := node / 2, last / 2;
    }
    while last != 0
      invariant 0 <= it <= |proof| && node == 0
      invariant Climb(h, node, last, h1, h2, proof[it..]) == goal
    {
      if it >= |proof| { return false, h1, h2; }
      assert proof[it..][0] == proof[it] && proof[it..][1..] == proof[it + 1..];
      h2 := h.pair(h2, proof[it]);
      it := it + 1;
      last := last / 2;
    }
    ok := it == |proof|;
  }

  method VerifyConsistency<H(==)>(h: Hasher<H>, oldSize: nat, oldRoot: H, newSize: nat, newRoot: H, proof: seq<H>)
    returns (ok: bool)
    ensures ok <==> AcceptsConsistency(h, oldSize, oldRoot, newSize, newRoot, proof)
  {
    hide Climb, Rebased, StripOnes, LastAfterStrip;
    if oldSize > newSize { return false; }
    if oldSize == newSize { return proof == [] && oldRoot == newRoot; }
    if oldSize == 0 { return true; }
    var node, last := Rebase(oldSize - 1, newSize - 1);
    var it, seed := 0, oldRoot;
    if node != 0 {
      if it >= |proof| { return false; }
      seed := proof[it];
      it := it + 1;
    }
    assert proof[0..] == proof;
    RebasedIsClimb(h, oldSize - 1, newSize - 1, seed, proof[it..]);
    var consumed, h1, h2 := ClimbProof(h, node, last, seed, proof, it);
    return consumed && h1 == oldRoot && h2 == newRoot;
  }

  // ----------------------------------------------------------------- consistency: climb versus recursion

  lemma {:induction false} ClimbEmptyProof<H>(h: Hasher<H>, node: nat, last: nat, a: H, b: H)
    requires node <= last && 0 < last
    ensures Climb(h, node, last, a, b, []) == None
    decreases last
  {
    if node % 2 == 0 && node == last {
      ClimbEmptyProof(h, node / 2, last / 2, a, b);
    }
  }

  /** The effect of the last proof element, which belongs to the split: it extends the new root, and the old root
      too when the old tree reaches past the split. */
  function AddAtSplit<H>(h: Hasher<H>, below: Option<(H, H)>, sibling: H, onLeft: bool): Option<(H, H)> {
    match below
    case None => None
    case Some((a, b)) => Some(if onLeft then (h.pair(sibling, a), h.pair(sibling, b)) else (a, h.pair(b, sibling)))
  }

  /** The old root takes part in a level only as a right child. */
  function RaisedOld<H>(h: Hasher<H>, a: H, node: nat, sibling: H): H {
    if node % 2 == 1 then h.pair(sibling, a) else a
  }

  lemma ClimbStep<H>(h: Hasher<H>, node: nat, last: nat, a: H, b: H, proof: seq<H>)
    requires node <= last && 0 < last
    ensures Climb(h, node, last, a, b, proof) ==
            if node % 2 == 0 && node == last then Climb(h, node / 2, last / 2, a, b, proof)
            else if proof == [] then None
            else Climb(h, node / 2, last / 2, RaisedOld(h, a, node, proof[0]), Raised(h, b, node, proof[0]), proof[1..])
  {
  }

  lemma {:induction false} ClimbLeftOfSplit<H>(h: Hasher<H>, t: nat, node: nat, last: nat, a: H, b: H, proof: seq<H>)
    requires node < Pow2(t) <= last < 2 * Pow2(t)
    ensures Climb(h, node, last, a, b, proof) ==
            if proof == [] then None
            else AddAtSplit(h, Climb(h, node, Pow2(t) - 1, a, b, proof[..|proof| - 1]), proof[|proof| - 1], false)
    decreases t
  {
    if proof == [] {
      ClimbEmptyProof(h, node, last, a, b);
    } else if t > 0 {
      ClimbLeftDeep(h, t, node, last, a, b, proof);
    }
  }

  lemma {:induction false} ClimbLeftDeep<H>(h: Hasher<H>, t: nat, node: nat, last: nat, a: H, b: H, proof: seq<H>)
    requires node < Pow2(t) <= last < 2 * Pow2(t) && 0 < t && proof != []
    ensures Climb(h, node, last, a, b, proof) ==
            AddAtSplit(h, Climb(h, node, Pow2(t) - 1, a, b, proof[..|proof| - 1]), proof[|proof| - 1], false)
    decreases t, 0
  {
    hide Climb, Raised, RaisedOld;
    var a', b' := RaisedOld(h, a, node, proof[0]), Raised(h, b, node, proof[0]);
    ClimbStep(h, node, last, a, b, proof);
    if |proof| == 1 {
      assert proof[..|proof| - 1] == [] && proof[1..] == [];
      ClimbEmptyProof(h, node, Pow2(t) - 1, a, b);
      ClimbEmptyProof(h, node / 2, last / 2, a', b');
    } else {
      DropBoth(proof);
      ClimbStep(h, node, Pow2(t) - 1, a, b, proof[..|proof| - 1]);
      ClimbLeftOfSplit(h, t - 1, node / 2, last / 2, a', b', proof[1..]);
    }
  }

  lemma {:induction false} ClimbRightOfSplit<H>(h: Hasher<H>, t: nat, node: nat, last: nat, a: H, b: H, proof: seq<H>)
    requires Pow2(t) <= node <= last < 2 * Pow2(t)
    ensures Climb(h, node, last, a, b, proof) ==
            if proof == [] then None
            else AddAtSplit(h, Climb(h, node - Pow2(t), last - Pow2(t), a, b, proof[..|proof| - 1]),
                            proof[|proof| - 1], true)
    decreases t
  {
    if proof == [] {
      ClimbEmptyProof(h, node, last, a, b);
    } else if t > 0 {
      ClimbRightDeep(h, t, node, last, a, b, proof);
    }
  }

  lemma {:induction false} ClimbRightDeep<H>(h: Hasher<H>, t: nat, node: nat, last: nat, a: H, b: H, proof: seq<H>)
    requires Pow2(t) <= node <= last < 2 * Pow2(t) && 0 < t && proof != []
    ensures Climb(h, node, last, a, b, proof) ==
            AddAtSplit(h, Climb(h, node - Pow2(t), last - Pow2(t), a, b, proof[..|proof| - 1]), proof[|proof| - 1], true)
    decreases t, 0
  {
    hide Climb, Raised, RaisedOld;
    var P := Pow2(t);
    HalvePastSplit(t, node);
    HalvePastSplit(t, last);
    ClimbStep(h, node, last, a, b, proof);
    if node % 2 == 0 && node == last {
      ClimbRightOfSplit(h, t - 1, node / 2, last / 2, a, b, proof);
      if 0 < last - P {
        ClimbStep(h, node - P, last - P, a, b, proof[..|proof| - 1]);
      }
    } else {
      ClimbRightOfSplit(h, t - 1, node / 2, last / 2, RaisedOld(h, a, node, proof[0]), Raised(h, b, node, proof[0]), proof[1..]);
      SameParityRaised(h, b, node, node - P, proof[0]);
      SameParityRaisedOld(h, a, node, node - P, proof[0]);
      if |proof| == 1 {
        ClimbEmptyProof(h, node - P, last - P, a, b);
      } else {
        DropBoth(proof);
        ClimbStep(h, node - P, last - P, a, b, proof[..|proof| - 1]);
      }
    }
  }

  lemma SameParityRaisedOld<H>(h: Hasher<H>, a: H, m: nat, n: nat, sibling: H)
    requires m % 2 == n % 2
    ensures RaisedOld(h, a, m, sibling) == RaisedOld(h, a, n, sibling)
  {
  }

  lemma {:induction false} RebasedLeftOfSplit<H>(h: Hasher<H>, t: nat, node: nat, last: nat, seed: H, proof: seq<H>)
    requires node < Pow2(t) <= last < 2 * Pow2(t)
    ensures Rebased(h, node, last, seed, proof) ==
            if proof == [] then None
            else AddAtSplit(h, Rebased(h, node, Pow2(t) - 1, seed, proof[..|proof| - 1]), proof[|proof| - 1], false)
    decreases t
  {
    hide Climb;
    if node % 2 == 1 {
      RebasedLeftOfSplit(h, t - 1, node / 2, last / 2, seed, proof);
    } else {
      ClimbLeftOfSplit(h, t, node, last, seed, seed, proof);
    }
  }

  lemma {:induction false} RebasedRightOfSplit<H>(h: Hasher<H>, t: nat, node: nat, last: nat, seed: H, proof: seq<H>)
    requires Pow2(t) <= node <= last < 2 * Pow2(t) && node < 2 * Pow2(t) - 1
    ensures Rebased(h, node, last, seed, proof) ==
            if proof == [] then None
            else AddAtSplit(h, Rebased(h, node - Pow2(t), last - Pow2(t), seed, proof[..|proof| - 1]),
                            proof[|proof| - 1], true)
    decreases t
  {
    hide Climb;
    HalvePastSplit(t, node);
    HalvePastSplit(t, last);
    if node % 2 == 1 {
      RebasedRightOfSplit(h, t - 1, node / 2, last / 2, seed, proof);
    } else {
      ClimbRightOfSplit(h, t, node, last, seed, seed, proof);
    }
  }

  // ------------------------------------------------------------------------- consistency: the theorems

  /** The subtree hash that seeds the climb: the largest complete subtree that ends the old tree. */
  function Seed<H>(h: Hasher<H>, lv: seq<H>, m: nat, lo: nat, hi: nat): H
    requires lo <= hi <= |lv| && 0 < m <= hi - lo
    decreases hi - lo
  {
    if m == hi - lo then Mth(h, lv, lo, hi)
    else
      var k := Split(hi - lo);
      if m <= k then Seed(h, lv, m, lo, lo + k) else Seed(h, lv, m - k, lo + k, hi)
  }

  /** The proof elements after the seed. */
  function Siblings<H>(h: Hasher<H>, lv: seq<H>, m: nat, lo: nat, hi: nat): seq<H>
    requires lo <= hi <= |lv| && 0 < m <= hi - lo
    decreases hi - lo
  {
    if m == hi - lo then []
    else
      var k := Split(hi - lo);
      if m <= k then Siblings(h, lv, m, lo, lo + k) + [Mth(h, lv, lo + k, hi)]
      else Siblings(h, lv, m - k, lo + k, hi) + [Mth(h, lv, lo, lo + k)]
  }

  lemma SubproofStep<H>(h: Hasher<H>, lv: seq<H>, m: nat, lo: nat, hi: nat, b: bool)
    requires lo <= hi <= |lv| && 0 < m < hi - lo
    ensures var k := Split(hi - lo);
            Subproof(h, lv, m, lo, hi, b) ==
            if m <= k then Subproof(h, lv, m, lo, lo + k, b) + [Mth(h, lv, lo + k, hi)]
            else Subproof(h, lv, m - k, lo + k, hi, false) + [Mth(h, lv, lo, lo + k)]
  {
    hide Mth, SplitLevel, Pow2;
  }

  lemma SeedStep<H>(h: Hasher<H>, lv: seq<H>, m: nat, lo: nat, hi: nat)
    requires lo <= hi <= |lv| && 0 < m < hi - lo
    ensures var k := Split(hi - lo);
            && Seed(h, lv, m, lo, hi) == (if m <= k then Seed(h, lv, m, lo, lo + k) else Seed(h, lv, m - k, lo + k, hi))
            && Siblings(h, lv, m, lo, hi) ==
               if m <= k then Siblings(h, lv, m, lo, lo + k) + [Mth(h, lv, lo + k, hi)]
               else Siblings(h, lv, m - k, lo + k, hi) + [Mth(h, lv, lo, lo + k)]
  {
    hide Mth, SplitLevel, Pow2;
  }

  /** At m == n nothing is left to climb. */
  lemma WholeTree<H>(h: Hasher<H>, lv: seq<H>, m: nat, lo: nat, hi: nat, b: bool)
    requires lo <= hi <= |lv| && 0 < m == hi - lo
    ensures Subproof(h, lv, m, lo, hi, b) == (if b then [] else [Mth(h, lv, lo, hi)])
    ensures Seed(h, lv, m, lo, hi) == Mth(h, lv, lo, hi) && Siblings(h, lv, m, lo, hi) == []
  {
    hide Mth, Split;
  }

  /** Below the top the generated proof is the seed and then the siblings. */
  lemma {:induction false} InnerShape<H>(h: Hasher<H>, lv: seq<H>, m: nat, lo: nat, hi: nat)
    requires lo <= hi <= |lv| && 0 < m <= hi - lo
    ensures Subproof(h, lv, m, lo, hi, false) == [Seed(h, lv, m, lo, hi)] + Siblings(h, lv, m, lo, hi)
    decreases hi - lo
  {
    hide Mth, Subproof, Seed, Siblings, SplitLevel, Pow2, Split;
    var n := hi - lo;
    if m == n {
      WholeTree(h, lv, m, lo, hi, false);
    } else {
      var k := Split(n);
      SubproofStep(h, lv, m, lo, hi, false);
      SeedStep(h, lv, m, lo, hi);
      if m <= k {
        InnerShape(h, lv, m, lo, lo + k);
        AppendAssociative([Seed(h, lv, m, lo, lo + k)], Siblings(h, lv, m, lo, lo + k), [Mth(h, lv, lo + k, hi)]);
      } else {
        InnerShape(h, lv, m - k, lo + k, hi);
        AppendAssociative([Seed(h, lv, m - k, lo + k, hi)], Siblings(h, lv, m - k, lo + k, hi), [Mth(h, lv, lo, lo + k)]);
      }
    }
  }

  /** What the whole generated proof is: the siblings, preceded by the seed unless the verifier can supply it. */
  function Shape<H>(seed: H, siblings: seq<H>, m: nat): seq<H>
    requires 0 < m
  {
    if StripOnes(m - 1) == 0 then siblings else [seed] + siblings
  }

  lemma ShapeAppend<H>(seed: H, siblings: seq<H>, m: nat, x: H)
    requires 0 < m
    ensures Shape(seed, siblings, m) + [x] == Shape(seed, siblings + [x], m)
  {
    hide StripOnes;
    AppendAssociative([seed], siblings, [x]);
  }

  lemma {:induction false} SubproofShape<H>(h: Hasher<H>, lv: seq<H>, m: nat, lo: nat, hi: nat, t: nat)
    requires lo <= hi <= |lv| && 0 < m <= hi - lo
    requires m < hi - lo || m == Pow2(t)
    ensures Subproof(h, lv, m, lo, hi, true) == Shape(Seed(h, lv, m, lo, hi), Siblings(h, lv, m, lo, hi), m)
    decreases hi - lo
  {
    hide Mth, Subproof, Seed, Siblings, StripOnes, SplitLevel, Pow2;
    var n := hi - lo;
    if m == n {
      WholeTree(h, lv, m, lo, hi, true);
      StripOnesOfPower(t);
    } else {
      var k := Split(n);
      SubproofStep(h, lv, m, lo, hi, true);
      SeedStep(h, lv, m, lo, hi);
      if m <= k {
        SubproofShape(h, lv, m, lo, lo + k, SplitLevel(n));
        ShapeAppend(Seed(h, lv, m, lo, lo + k), Siblings(h, lv, m, lo, lo + k), m, Mth(h, lv, lo + k, hi));
      } else {
        InnerShape(h, lv, m - k, lo + k, hi);
        StripOnesPastSplit(SplitLevel(n), m - 1);
        AppendAssociative([Seed(h, lv, m - k, lo + k, hi)], Siblings(h, lv, m - k, lo + k, hi), [Mth(h, lv, lo, lo + k)]);
      }
    }
  }

  lemma {:induction false} StripOnesOfPower(t: nat)
    ensures StripOnes(Pow2(t) - 1) == 0
  {
    if t > 0 {
      StripOnesOfPower(t - 1);
    }
  }

  lemma {:induction false} StripOnesPastSplit(t: nat, x: nat)
    requires Pow2(t) <= x < 2 * Pow2(t) - 1
    ensures StripOnes(x) != 0
    decreases t
  {
    if x % 2 == 1 {
      StripOnesPastSplit(t - 1, x / 2);
    }
  }

  /** When the old size is a power of two the seed is the old root itself. */
  lemma {:induction false} SeedOfPower<H>(h: Hasher<H>, lv: seq<H>, m: nat, lo: nat, hi: nat)
    requires lo <= hi <= |lv| && 0 < m <= hi - lo
    requires StripOnes(m - 1) == 0
    ensures Seed(h, lv, m, lo, hi) == Mth(h, lv, lo, lo + m)
    decreases hi - lo
  {
    hide Mth, Seed, Siblings, StripOnes, SplitLevel, Pow2;
    var n := hi - lo;
    if m == n {
      WholeTree(h, lv, m, lo, hi, true);
    } else {
      SeedStep(h, lv, m, lo, hi);
      if m > Split(n) {
        StripOnesPastSplit(SplitLevel(n), m - 1);
        assert false;
      }
      SeedOfPower(h, lv, m, lo, lo + Split(n));
    }
  }

  /** A tree that reaches past the split of a larger one splits at the same place. */
  lemma SameSplit(m: nat, n: nat)
    requires 2 <= n && Split(n) < m <= n
    ensures Split(m) == Split(n)
  {
    SplitLevelUnique(m, SplitLevel(n));
  }

  /** One level up on the left of the split: the right half is a sibling of the new tree only. */
  lemma RebasedUpLeft<H>(h: Hasher<H>, lv: seq<H>, m: nat, lo: nat, hi: nat)
    requires lo <= hi <= |lv| && 0 < m < hi - lo && m <= Split(hi - lo)
    requires var k := Split(hi - lo);
             Rebased(h, m - 1, k - 1, Seed(h, lv, m, lo, lo + k), Siblings(h, lv, m, lo, lo + k)) ==
             Some((Mth(h, lv, lo, lo + m), Mth(h, lv, lo, lo + k)))
    ensures Rebased(h, m - 1, hi - lo - 1, Seed(h, lv, m, lo, hi), Siblings(h, lv, m, lo, hi)) ==
            Some((Mth(h, lv, lo, lo + m), Mth(h, lv, lo, hi)))
  {
    hide Mth, Seed, Siblings, Rebased, SplitLevel, Pow2;
    var n, k, l := hi - lo, Split(hi - lo), SplitLevel(hi - lo);
    SeedStep(h, lv, m, lo, hi);
    TreeHashStep(h, lv, lo, hi);
    DropLastOfAppend(Siblings(h, lv, m, lo, lo + k), Mth(h, lv, lo + k, hi));
    RebasedLeftOfSplit(h, l, m - 1, n - 1, Seed(h, lv, m, lo, hi), Siblings(h, lv, m, lo, hi));
  }

  /** One level up on the right of the split: the left half is a sibling of both trees. */
  lemma RebasedUpRight<H>(h: Hasher<H>, lv: seq<H>, m: nat, lo: nat, hi: nat)
    requires lo <= hi <= |lv| && 2 <= hi - lo && Split(hi - lo) < m < hi - lo
    requires var k := Split(hi - lo);
             Rebased(h, m - k - 1, hi - lo - k - 1, Seed(h, lv, m - k, lo + k, hi), Siblings(h, lv, m - k, lo + k, hi)) ==
             Some((Mth(h, lv, lo + k, lo + m), Mth(h, lv, lo + k, hi)))
    ensures Rebased(h, m - 1, hi - lo - 1, Seed(h, lv, m, lo, hi), Siblings(h, lv, m, lo, hi)) ==
            Some((Mth(h, lv, lo, lo + m), Mth(h, lv, lo, hi)))
  {
    hide Mth, Seed, Siblings, Rebased, SplitLevel, Pow2;
    var n, k, l := hi - lo, Split(hi - lo), SplitLevel(hi - lo);
    SeedStep(h, lv, m, lo, hi);
    TreeHashStep(h, lv, lo, hi);
    SameSplit(m, n);
    TreeHashStep(h, lv, lo, lo + m);
    DropLastOfAppend(Siblings(h, lv, m - k, lo + k, hi), Mth(h, lv, lo, lo + k));
    RebasedRightOfSplit(h, l, m - 1, n - 1, Seed(h, lv, m, lo, hi), Siblings(h, lv, m, lo, hi));
  }

  /** The climb from the seed over the generated siblings reaches both tree hashes. */
  lemma {:induction false} RebasedComplete<H>(h: Hasher<H>, lv: seq<H>, m: nat, lo: nat, hi: nat, t: nat)
    requires lo <= hi <= |lv| && 0 < m <= hi - lo
    requires m < hi - lo || m == Pow2(t)
    ensures Rebased(h, m - 1, hi - lo - 1, Seed(h, lv, m, lo, hi), Siblings(h, lv, m, lo, hi)) ==
            Some((Mth(h, lv, lo, lo + m), Mth(h, lv, lo, hi)))
    decreases hi - lo
  {
    hide Mth, Seed, Siblings, Rebased, SplitLevel, Pow2;
    var n := hi - lo;
    if m == n {
      WholeTree(h, lv, m, lo, hi, true);
      RebasedWhole(h, t, m - 1, Seed(h, lv, m, lo, hi), []);
    } else if m <= Split(n) {
      RebasedComplete(h, lv, m, lo, lo + Split(n), SplitLevel(n));
      RebasedUpLeft(h, lv, m, lo, hi);
    } else {
      var k := Split(n);
      RebasedComplete(h, lv, m - k, lo + k, hi, 0);
      RebasedUpRight(h, lv, m, lo, hi);
    }
  }

  /** In a complete tree compared with itself the seed is both roots. */
  lemma {:induction false} RebasedWhole<H>(h: Hasher<H>, t: nat, node: nat, seed: H, proof: seq<H>)
    requires node == Pow2(t) - 1
    ensures Rebased(h, node, node, seed, proof) == if proof == [] then Some((seed, seed)) else None
    decreases t
  {
    if t > 0 {
      RebasedWhole(h, t - 1, node / 2, seed, proof);
    }
  }

  /** A climb that ends in the new tree hash started at the seed and used exactly the generated siblings, or gives a
      collision away. */
  lemma {:induction false} RebasedOrCollision<H>(h: Hasher<H>, lv: seq<H>, m: nat, lo: nat, hi: nat, t: nat,
                                                 seed: H, proof: seq<H>)
    returns (x: Option<Collision<H>>)
    requires lo <= hi <= |lv| && 0 < m <= hi - lo
    requires m < hi - lo || m == Pow2(t)
    requires Rebased(h, m - 1, hi - lo - 1, seed, proof).Some?
    requires Rebased(h, m - 1, hi - lo - 1, seed, proof).value.1 == Mth(h, lv, lo, hi)
    ensures x.None? ==> seed == Seed(h, lv, m, lo, hi) && proof == Siblings(h, lv, m, lo, hi)
    ensures x.Some? ==> Collides(h, x.value)
    decreases hi - lo
  {
    hide Mth, Seed, Siblings, Rebased, SplitLevel, Pow2;
    var n := hi - lo;
    x := None;
    if m == n {
      WholeTree(h, lv, m, lo, hi, true);
      RebasedWhole(h, t, m - 1, seed, proof);
    } else {
      var k, l := Split(n), SplitLevel(n);
      var left, right := Mth(h, lv, lo, lo + k), Mth(h, lv, lo + k, hi);
      SeedStep(h, lv, m, lo, hi);
      TreeHashStep(h, lv, lo, hi);
      if m <= k {
        RebasedLeftOfSplit(h, l, m - 1, n - 1, seed, proof);
        var below := Rebased(h, m - 1, k - 1, seed, proof[..|proof| - 1]).value.1;
        if (below, proof[|proof| - 1]) != (left, right) {
          return Some(Collision(below, proof[|proof| - 1], left, right));
        }
        x := RebasedOrCollision(h, lv, m, lo, lo + k, l, seed, proof[..|proof| - 1]);
      } else {
        RebasedRightOfSplit(h, l, m - 1, n - 1, seed, proof);
        var below := Rebased(h, m - 1 - k, n - 1 - k, seed, proof[..|proof| - 1]).value.1;
        if (proof[|proof| - 1], below) != (left, right) {
          return Some(Collision(proof[|proof| - 1], below, left, right));
        }
        x := RebasedOrCollision(h, lv, m - k, lo + k, hi, 0, seed, proof[..|proof| - 1]);
      }
      assert proof == proof[..|proof| - 1] + [proof[|proof| - 1]];
    }
  }

  /** The tree hash of the first m leaves only depends on those leaves. */
  lemma {:induction false} TreeHashOfPrefix<H>(h: Hasher<H>, lv: seq<H>, m: nat, lo: nat, hi: nat)
    requires lo <= hi <= m <= |lv|
    ensures Mth(h, lv[..m], lo, hi) == Mth(h, lv, lo, hi)
    decreases hi - lo
  {
    if 2 <= hi - lo {
      hide Mth, SplitLevel, Pow2;
      TreeHashStep(h, lv, lo, hi);
      TreeHashStep(h, lv[..m], lo, hi);
      TreeHashOfPrefix(h, lv, m, lo, lo + Split(hi - lo));
      TreeHashOfPrefix(h, lv, m, lo + Split(hi - lo), hi);
    }
  }

  function Root<H>(h: Hasher<H>, lv: seq<H>): H {
    Mth(h, lv, 0, |lv|)
  }

  /** What a log with the given leaves hands out as the proof that it extends its first m leaves. */
  function ConsistencyProof<H>(h: Hasher<H>, lv: seq<H>, m: nat): seq<H> {
    if m == 0 || m >= |lv| then [] else Subproof(h, lv, m, 0, |lv|, true)
  }

  /** Consistency completeness, for every node hash: the proof a log generates for any earlier size is accepted
      against the two true roots. */
  lemma ConsistencyComplete<H>(h: Hasher<H>, lv: seq<H>, m: nat)
    requires m <= |lv|
    ensures AcceptsConsistency(h, m, Root(h, lv[..m]), |lv|, Root(h, lv), ConsistencyProof(h, lv, m))
  {
    hide Mth, Seed, Siblings, Rebased, StripOnes;
    assert lv[..|lv|] == lv;
    if 0 < m < |lv| {
      TreeHashOfPrefix(h, lv, m, 0, m);
      SubproofShape(h, lv, m, 0, |lv|, 0);
      RebasedComplete(h, lv, m, 0, |lv|, 0);
      if StripOnes(m - 1) == 0 {
        SeedOfPower(h, lv, m, 0, |lv|);
      }
    }
  }

  /** Consistency soundness for every node hash: whatever proof is accepted, the old root is the root of the first m
      leaves of the list behind the new root, and the proof is the generated one, or a collision is given away. */
  lemma ConsistencyOrCollision<H>(h: Hasher<H>, lv: seq<H>, m: nat, oldRoot: H, proof: seq<H>)
    returns (x: Option<Collision<H>>)
    requires 0 < m <= |lv| && AcceptsConsistency(h, m, oldRoot, |lv|, Root(h, lv), proof)
    ensures x.None? ==> oldRoot == Root(h, lv[..m]) && proof == ConsistencyProof(h, lv, m)
    ensures x.Some? ==> Collides(h, x.value)
  {
    hide Mth, Seed, Siblings, Rebased, StripOnes;
    x := None;
    assert lv[..|lv|] == lv;
    if m < |lv| {
      TreeHashOfPrefix(h, lv, m, 0, m);
      SubproofShape(h, lv, m, 0, |lv|, 0);
      RebasedComplete(h, lv, m, 0, |lv|, 0);
      if StripOnes(m - 1) == 0 {
        SeedOfPower(h, lv, m, 0, |lv|);
        x := RebasedOrCollision(h, lv, m, 0, |lv|, 0, oldRoot, proof);
      } else {
        x := RebasedOrCollision(h, lv, m, 0, |lv|, 0, proof[0], proof[1..]);
        assert proof == [proof[0]] + proof[1..];
      }
    }
  }

  /** Under an injective node hash history was only appended to. */
  lemma ConsistencySound<H(!new)>(h: Hasher<H>, lv: seq<H>, m: nat, oldRoot: H, proof: seq<H>)
    requires Injective(h) && 0 < m <= |lv|
    requires AcceptsConsistency(h, m, oldRoot, |lv|, Root(h, lv), proof)
    ensures oldRoot == Root(h, lv[..m]) && proof == ConsistencyProof(h, lv, m)
  {
    var x := ConsistencyOrCollision(h, lv, m, oldRoot, proof);
    InjectiveMeansNone(h, x);
  }

  /** Consistency, both ways and for every old size. The one case in which acceptance says nothing about the old
      root is an old size of zero against a non-empty log: that is accepted with any root and any proof. */
  lemma ConsistencyExact<H(!new)>(h: Hasher<H>, lv: seq<H>, m: nat, oldRoot: H, proof: seq<H>)
    requires Injective(h)
    ensures AcceptsConsistency(h, m, oldRoot, |lv|, Root(h, lv), proof) <==>
            || (m == 0 && lv != [])
            || (m <= |lv| && oldRoot == Root(h, lv[..m]) && proof == ConsistencyProof(h, lv, m))
  {
    hide Mth, Rebased, StripOnes;
    if m <= |lv| {
      ConsistencyComplete(h, lv, m);
      if 0 < m && AcceptsConsistency(h, m, oldRoot, |lv|, Root(h, lv), proof) {
        ConsistencySound(h, lv, m, oldRoot, proof);
      }
    }
    assert lv == [] ==> lv[..0] == lv;
  }

  /** Inclusion, both ways: against the root of lv the verifier accepts exactly leaf m with its audit path. */
  lemma InclusionExact<H(!new)>(h: Hasher<H>, lv: seq<H>, p: InclusionProof<H>, leaf: H)
    requires Injective(h) && p.size == |lv|
    ensures AcceptsInclusion(h, p, leaf, Root(h, lv)) <==>
            p.index < |lv| && leaf == lv[p.index] && p.path == Path(h, lv, p.index, 0, |lv|)
  {
    hide Mth, Path, RootFromPath;
    if p.index < |lv| {
      InclusionComplete(h, lv, p.index, 0, |lv|);
      if AcceptsInclusion(h, p, leaf, Root(h, lv)) {
        InclusionSound(h, lv, p.index, 0, |lv|, leaf, p.path);
      }
    }
  }

  /** A root of known size commits to every leaf. */
  lemma RootBindsLeaves<H(!new)>(h: Hasher<H>, lv: seq<H>, other: seq<H>)
    requires Injective(h) && |lv| == |other| && Root(h, lv) == Root(h, other)
    ensures lv == other
  {
    hide Mth, Path, RootFromPath;
    forall i | 0 <= i < |lv| ensures lv[i] == other[i] {
      InclusionComplete(h, lv, i, 0, |lv|);
      InclusionSound(h, other, i, 0, |lv|, lv[i], Path(h, lv, i, 0, |lv|));
    }
  }

  // ------------------------------------------------------------------------------------------- the log

  /** The log keeps every entry and its leaf hash; both lists only grow. */
  class Log<H(==)> {
    const hasher: Hasher<H>
    const leafHash: Bytes -> H
    var leaves: seq<H>
    var entries: seq<Bytes>

    ghost predicate Valid()
      reads this
    {
      |leaves| == |entries| && forall i :: 0 <= i < |entries| ==> leaves[i] == leafHash(entries[i])
    }

    constructor (hasher: Hasher<H>, leafHash: Bytes -> H)
      ensures Valid() && entries == [] && this.hasher == hasher && this.leafHash == leafHash
    {
      this.hasher, this.leafHash := hasher, leafHash;
      leaves, entries := [], [];
    }

    method Append(entry: Bytes) returns (index: nat)
      requires Valid()
      modifies this
      ensures Valid() && index == |old(entries)|
      ensures entries == old(entries) + [entry] && leaves == old(leaves) + [leafHash(entry)]
    {
      leaves := leaves + [leafHash(entry)];
      entries := entries + [entry];
      index := |leaves| - 1;
    }

    method CurrentRoot() returns (r: H)
      ensures r == Root(hasher, leaves)
    {
      r := TreeHash(hasher, leaves, 0, |leaves|);
    }

    /** The proof for an entry of the log is accepted for that entry's leaf hash and the current root. */
    method Prove(index: nat) returns (p: InclusionProof<H>)
      requires Valid()
      ensures p.index == index && p.size == |leaves|
      ensures index >= |leaves| ==> p.path == []
      ensures index < |leaves| ==> AcceptsInclusion(hasher, p, leafHash(entries[index]), Root(hasher, leaves))
    {
      hide Mth, Path, RootFromPath;
      var path := [];
      if index < |leaves| {
        path := PushPath(hasher, leaves, index, 0, |leaves|, path);
        assert path == Path(hasher, leaves, index, 0, |leaves|);
        InclusionComplete(hasher, leaves, index, 0, |leaves|);
      }
      p := InclusionProof(index, |leaves|, path);
    }

    method Get(index: nat) returns (entry: Option<Bytes>)
      requires Valid()
      ensures entry == if index < |entries| then Some(entries[index]) else None
    {
      if index >= |entries| { return None; }
      return Some(entries[index]);
    }

    /** The proof is accepted between the root of any earlier size and the current root. */
    method ProveConsistency(oldSize: nat) returns (proof: seq<H>)
      ensures proof == ConsistencyProof(hasher, leaves, oldSize)
      ensures oldSize <= |leaves| ==>
                AcceptsConsistency(hasher, oldSize, Root(hasher, leaves[..oldSize]), |leaves|, Root(hasher, leaves), proof)
    {
      hide Mth, Subproof;
      proof := [];
      if oldSize != 0 && oldSize < |leaves| {
        proof := PushSubproof(hasher, leaves, oldSize, 0, |leaves|, true, proof);
      }
      if oldSize <= |leaves| {
        ConsistencyComplete(hasher, leaves, oldSize);
      }
    }
  }
}
