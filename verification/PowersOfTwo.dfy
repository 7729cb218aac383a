/** Powers of two, and the split point of RFC 6962: the largest power of two strictly below n. */
module PowersOfTwo {

  function Pow2(t: nat): (p: nat)
    ensures p >= 1
  {
    if t == 0 then 1 else 2 * Pow2(t - 1)
  }

  lemma {:induction false} Pow2Monotone(s: nat, t: nat)
    requires s <= t
    ensures Pow2(s) <= Pow2(t)
    decreases t
  {
    if s < t {
      Pow2Monotone(s, t - 1);
    }
  }

  /** The exponent of the split point of a tree with n leaves. */
  function SplitLevel(n: nat): (t: nat)
    requires n >= 2
    ensures Pow2(t) < n <= 2 * Pow2(t)
  {
    if n == 2 then 0 else 1 + SplitLevel((n + 1) / 2)
  }

  /** A bracketing level is at most every level whose double power reaches n. */
  lemma Pow2Order(s: nat, t: nat, n: nat)
    requires Pow2(s) < n <= 2 * Pow2(t)
    ensures s <= t
  {
    if t < s {
      Pow2Monotone(t + 1, s);
    }
  }

  /** The level is determined by its bracket, so any search that finds a bracket finds it. */
  lemma SplitLevelUnique(n: nat, t: nat)
    requires n >= 2
    requires Pow2(t) < n <= 2 * Pow2(t)
    ensures SplitLevel(n) == t
  {
    var s := SplitLevel(n);
    Pow2Order(s, t, n);
    Pow2Order(t, s, n);
  }

  function Split(n: nat): (k: nat)
    requires n >= 2
    ensures 1 <= k < n <= 2 * k
  {
    Pow2(SplitLevel(n))
  }

  /** Removing the top bit commutes with shifting out the lowest one. */
  lemma HalvePastSplit(t: nat, x: nat)
    requires 0 < t && Pow2(t) <= x
    ensures x / 2 - Pow2(t - 1) == (x - Pow2(t)) / 2
    ensures (x - Pow2(t)) % 2 == x % 2
  {
  }
}
