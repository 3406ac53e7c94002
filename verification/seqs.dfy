/** Sequence vocabulary shared by the engine and the two example problems. */
module Seqs {

  /** `n * [x]` in Python: `n` copies of `x`. */
  function Repeat<T>(n: nat, x: T): (r: seq<T>)
    ensures |r| == n
    ensures forall i :: 0 <= i < |r| ==> r[i] == x
  {
    seq(n, _ => x)
  }

  /** `n * xs` in Python for a list `xs`: `xs` concatenated `n` times. */
  function Cycle<T>(n: nat, xs: seq<T>): seq<T>
  {
    if n == 0 then [] else Cycle(n - 1, xs) + xs
  }

  lemma {:induction false} CycleCounts<T>(n: nat, xs: seq<T>)
    ensures |Cycle(n, xs)| == n * |xs|
    ensures forall x {:trigger multiset(xs)[x]} :: multiset(Cycle(n, xs))[x] == n * multiset(xs)[x]
  {
    if n > 0 {
      CycleCounts(n - 1, xs);
      assert multiset(Cycle(n, xs)) == multiset(Cycle(n - 1, xs)) + multiset(xs);
      forall x
        ensures multiset(Cycle(n, xs))[x] == n * multiset(xs)[x]
      {
        var m := multiset(xs)[x];
        assert multiset(Cycle(n, xs))[x] == (n - 1) * m + m;
        assert (n - 1) * m + m == n * m;
      }
      assert |Cycle(n, xs)| == (n - 1) * |xs| + |xs|;
    }
  }

  /** A non-empty sequence is its front followed by its last element. */
  lemma FrontLast<T>(xs: seq<T>)
    requires |xs| > 0
    ensures xs[..|xs| - 1] + [xs[|xs| - 1]] == xs
  {
  }

  /** Concatenation of a sequence of sequences, in order. */
  function Flatten<T>(xss: seq<seq<T>>): seq<T>
  {
    if |xss| == 0 then [] else xss[0] + Flatten(xss[1..])
  }

  lemma {:induction false} FlattenSnoc<T>(xss: seq<seq<T>>, ys: seq<T>)
    ensures Flatten(xss + [ys]) == Flatten(xss) + ys
  {
    if |xss| == 0 {
      assert xss + [ys] == [ys];
    } else {
      assert (xss + [ys])[1..] == xss[1..] + [ys];
      FlattenSnoc(xss[1..], ys);
    }
  }

  function Sum(ns: seq<nat>): nat
  {
    if |ns| == 0 then 0 else Sum(ns[..|ns| - 1]) + ns[|ns| - 1]
  }

  /** A cost history that never goes up. */
  ghost predicate NonIncreasing(h: seq<real>)
  {
    forall i, j :: 0 <= i <= j < |h| ==> h[j] <= h[i]
  }

  /** `list(range(n))`. */
  function Iota(n: nat): (r: seq<nat>)
    ensures |r| == n
    ensures forall i :: 0 <= i < n ==> r[i] == i
  {
    seq(n, i => i)
  }

  /** `r` holds each of `0 .. n-1` exactly once and nothing else. */
  ghost predicate IsPermutationOf(r: seq<nat>, n: nat)
  {
    multiset(r) == multiset(Iota(n))
  }

  lemma IotaMultiset(n: nat, x: nat)
    ensures multiset(Iota(n))[x] == if x < n then 1 else 0
  {
    if n > 0 {
      assert Iota(n) == Iota(n - 1) + [n - 1];
      IotaMultiset(n - 1, x);
    }
  }

  /** What being a permutation means element-wise: the right length, every
      element in range, no element twice, every city present. */
  lemma PermutationFacts(r: seq<nat>, n: nat)
    requires IsPermutationOf(r, n)
    ensures |r| == n
    ensures forall i :: 0 <= i < |r| ==> r[i] < n
    ensures forall i, j :: 0 <= i < j < |r| ==> r[i] != r[j]
    ensures forall c :: 0 <= c < n ==> c in r
  {
    calc {
      |r|;
      |multiset(r)|;
      |multiset(Iota(n))|;
      n;
    }
    forall i | 0 <= i < |r|
      ensures r[i] < n
    {
      assert r[i] in multiset(r);
      IotaMultiset(n, r[i]);
    }
    forall i, j | 0 <= i < j < |r|
      ensures r[i] != r[j]
    {
      if r[i] == r[j] {
        var x := r[i];
        assert r == r[..i] + [x] + r[i + 1..j] + [x] + r[j + 1..];
        assert multiset(r)[x] >= 2;
        IotaMultiset(n, x);
      }
    }
    forall c | 0 <= c < n
      ensures c in r
    {
      IotaMultiset(n, c);
      assert c in multiset(r);
    }
  }

  /** Position of the first occurrence of `x`. */
  function IndexOf<T(==)>(xs: seq<T>, x: T): (i: nat)
    requires x in xs
    ensures i < |xs| && xs[i] == x
    ensures forall k :: 0 <= k < i ==> xs[k] != x
  {
    if xs[0] == x then 0 else 1 + IndexOf(xs[1..], x)
  }

  /** Python's `list.remove(x)`: drops the first occurrence of `x`. */
  function RemoveFirst<T(==)>(xs: seq<T>, x: T): (r: seq<T>)
    requires x in xs
    ensures |r| == |xs| - 1
  {
    if xs[0] == x then xs[1..] else [xs[0]] + RemoveFirst(xs[1..], x)
  }

  /** `remove` takes away exactly one `x` and nothing else. */
  lemma {:induction false} RemoveFirstMultiset<T>(xs: seq<T>, x: T)
    requires x in xs
    ensures multiset(RemoveFirst(xs, x)) == multiset(xs) - multiset{x}
  {
    assert xs == [xs[0]] + xs[1..];
    if xs[0] != x {
      RemoveFirstMultiset(xs[1..], x);
    }
  }

  /** `IndexOf` finds the first occurrence: none comes after one that exists. */
  lemma {:induction false} IndexOfFirst<T>(xs: seq<T>, x: T, p: nat)
    requires p < |xs| && xs[p] == x
    ensures IndexOf(xs, x) <= p
  {
    if xs[0] != x {
      IndexOfFirst(xs[1..], x, p - 1);
    }
  }

  /** `list.remove` on a concatenation whose front lacks `x` removes from the back. */
  lemma {:induction false} RemoveFirstBack<T>(xs: seq<T>, ys: seq<T>, x: T)
    requires x !in xs && x in ys
    ensures RemoveFirst(xs + ys, x) == xs + RemoveFirst(ys, x)
  {
    if |xs| == 0 {
      assert xs + ys == ys;
    } else {
      assert (xs + ys)[1..] == xs[1..] + ys;
      RemoveFirstBack(xs[1..], ys, x);
      assert xs == [xs[0]] + xs[1..];
    }
  }

  /** `list.remove` on a concatenation whose front holds `x` leaves the back alone. */
  lemma {:induction false} RemoveFirstFront<T>(xs: seq<T>, ys: seq<T>, x: T)
    requires x in xs
    ensures RemoveFirst(xs + ys, x) == RemoveFirst(xs, x) + ys
  {
    assert (xs + ys)[1..] == xs[1..] + ys;
    if xs[0] != x {
      RemoveFirstFront(xs[1..], ys, x);
    }
  }
}
