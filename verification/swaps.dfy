/** Transpositions: the elementary move of both example problems, the ordered
    enumeration of all moves, and the swap-based shuffle the problems draw from. */
module Swaps {
  import opened Seqs

  /** `s[i], s[j] = s[j], s[i]` applied to a copy; `i == j` leaves `s` alone. */
  function Swap<T>(s: seq<T>, i: nat, j: nat): (r: seq<T>)
    requires i < |s| && j < |s|
    ensures |r| == |s|
    ensures r[i] == s[j] && r[j] == s[i]
    ensures forall k :: 0 <= k < |s| && k != i && k != j ==> r[k] == s[k]
    ensures multiset(r) == multiset(s)
  {
    s[i := s[j]][j := s[i]]
  }

  lemma SwapSelfInverse<T>(s: seq<T>, i: nat, j: nat)
    requires i < |s| && j < |s|
    ensures Swap(Swap(s, i, j), i, j) == s
  {
  }

  lemma SwapSymmetric<T>(s: seq<T>, i: nat, j: nat)
    requires i < |s| && j < |s|
    ensures Swap(s, i, j) == Swap(s, j, i)
  {
  }

  /** The index pairs `(i, j)` with `lo <= i < j < n`, in the order of the
      loops `for i in range(lo, n): for j in range(i + 1, n)`. */
  function PairsFrom(lo: nat, n: nat): seq<(nat, nat)>
    decreases n - lo
  {
    if lo >= n then []
    else seq(n - lo - 1, k => (lo, lo + 1 + k)) + PairsFrom(lo + 1, n)
  }

  function Pairs(n: nat): seq<(nat, nat)>
  {
    PairsFrom(0, n)
  }

  predicate LexLess(p: (nat, nat), q: (nat, nat))
  {
    p.0 < q.0 || (p.0 == q.0 && p.1 < q.1)
  }

  lemma {:induction false} PairsFromLength(lo: nat, n: nat)
    ensures 2 * |PairsFrom(lo, n)| == if lo >= n then 0 else (n - lo) * (n - lo - 1)
    decreases n - lo
  {
    if lo < n {
      PairsFromLength(lo + 1, n);
      var m := n - lo;
      assert |PairsFrom(lo, n)| == (m - 1) + |PairsFrom(lo + 1, n)|;
      if lo + 1 < n {
        assert 2 * (m - 1) + (m - 1) * (m - 2) == m * (m - 1);
      }
    }
  }

  lemma {:induction false} PairsFromMembers(lo: nat, n: nat)
    ensures forall p :: p in PairsFrom(lo, n) <==> lo <= p.0 < p.1 < n
    decreases n - lo
  {
    if lo < n {
      var row := seq(n - lo - 1, k => (lo, lo + 1 + k));
      PairsFromMembers(lo + 1, n);
      assert PairsFrom(lo, n) == row + PairsFrom(lo + 1, n);
      forall p: (nat, nat) | lo <= p.0 < p.1 < n && p.0 == lo
        ensures p in row
      {
        assert row[p.1 - lo - 1] == p;
      }
    }
  }

  lemma {:induction false} PairsFromOrdered(lo: nat, n: nat)
    ensures forall a, b :: 0 <= a < b < |PairsFrom(lo, n)| ==> LexLess(PairsFrom(lo, n)[a], PairsFrom(lo, n)[b])
    decreases n - lo
  {
    if lo < n {
      var row := seq(n - lo - 1, k => (lo, lo + 1 + k));
      var rest := PairsFrom(lo + 1, n);
      PairsFromOrdered(lo + 1, n);
      PairsFromMembers(lo + 1, n);
      var all := row + rest;
      assert PairsFrom(lo, n) == all;
      forall a, b | 0 <= a < b < |all|
        ensures LexLess(all[a], all[b])
      {
        if b < |row| {
        } else if a < |row| {
          assert all[b] == rest[b - |row|];
          assert all[b] in rest;
        } else {
          assert all[a] == rest[a - |row|] && all[b] == rest[b - |row|];
        }
      }
    }
  }

  /** All transpositions of `n` positions, each once, in lexicographic order:
      `n(n-1)/2` of them. */
  lemma PairsFacts(n: nat)
    ensures 2 * |Pairs(n)| == n * (n - 1)
    ensures forall p :: p in Pairs(n) <==> p.0 < p.1 < n
    ensures forall a, b :: 0 <= a < b < |Pairs(n)| ==> LexLess(Pairs(n)[a], Pairs(n)[b])
  {
    PairsFromLength(0, n);
    PairsFromMembers(0, n);
    PairsFromOrdered(0, n);
  }

  /** The random draws of CPython's `random.shuffle` on a list of length `n`:
      for `i` from `n - 1` down to `1`, one index `j` with `0 <= j <= i`. */
  ghost predicate ShuffleDraws(n: nat, draws: seq<nat>)
  {
    && |draws| == (if n == 0 then 0 else n - 1)
    && forall k :: 0 <= k < |draws| ==> draws[k] <= n - 1 - k
  }

  function ShuffleFrom<T>(s: seq<T>, draws: seq<nat>, k: nat): (r: seq<T>)
    requires ShuffleDraws(|s|, draws) && k <= |draws|
    ensures multiset(r) == multiset(s) && |r| == |s|
    decreases |draws| - k
  {
    if k == |draws| then s
    else ShuffleFrom(Swap(s, |s| - 1 - k, draws[k]), draws, k + 1)
  }

  /** `random.shuffle(s)` with its random draws made explicit: a sequence of
      swaps, so the result is a rearrangement of `s`. */
  function Shuffle<T>(s: seq<T>, draws: seq<nat>): (r: seq<T>)
    requires ShuffleDraws(|s|, draws)
    ensures |r| == |s|
    ensures multiset(r) == multiset(s)
  {
    ShuffleFrom(s, draws, 0)
  }
}
