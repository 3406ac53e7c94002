/** The travelling-salesman problem of `voyage.py`: a tour is a list of the
    cities `0 .. nb_cities-1`, its cost is the length of the closed cycle, and
    its neighbours are the tours one transposition away. The coordinates and
    the Euclidean distance are abstracted into `dist`, a function of two city
    indices (`dist(a, b)` stands for `self.dist(self.cities[a], self.cities[b])`). */
module Voyage {
  import opened Outcomes
  import opened Seqs
  import opened Swaps
  import opened Generic

  datatype ProblemVC = ProblemVC(nbCities: nat, dist: (nat, nat) -> real)

  /** No distance is negative (the Euclidean distance never is). */
  ghost predicate NonNegative(dist: (nat, nat) -> real)
  {
    forall a, b :: 0.0 <= dist(a, b)
  }

  // ---------------------------------------------------------------------
  // Random solution

  /** `ProblemVC.random_solution` with the shuffle's draws as input:
      `list(range(n))` shuffled. */
  function RandomSolution(pb: ProblemVC, draws: seq<nat>): (r: seq<nat>)
    requires ShuffleDraws(pb.nbCities, draws)
    ensures IsPermutationOf(r, pb.nbCities)
  {
    Shuffle(Iota(pb.nbCities), draws)
  }

  /** Whatever the draws, each city appears in a random solution exactly
      once, and nothing else does. */
  lemma RandomSolutionVisitsAll(pb: ProblemVC, draws: seq<nat>)
    requires ShuffleDraws(pb.nbCities, draws)
    ensures |RandomSolution(pb, draws)| == pb.nbCities
    ensures forall c :: 0 <= c < pb.nbCities <==> c in RandomSolution(pb, draws)
    ensures forall i, j :: 0 <= i < j < pb.nbCities ==> RandomSolution(pb, draws)[i] != RandomSolution(pb, draws)[j]
  {
    var r := RandomSolution(pb, draws);
    PermutationFacts(r, pb.nbCities);
    forall c | c in r
      ensures c < pb.nbCities
    {
      var i :| 0 <= i < |r| && r[i] == c;
    }
  }

  // ---------------------------------------------------------------------
  // Neighbourhoods

  /** `ProblemVC.random_neighbor` with its two `randint(0, n - 1)` draws as
      input: a copy of `s` with positions `i` and `j` (possibly equal)
      exchanged. With no city the draw itself fails; a tour shorter than
      `nb_cities` can make the subscript fail. */
  function RandomNeighbor(pb: ProblemVC, s: seq<nat>, i: nat, j: nat): (r: Result<seq<nat>, Fault>)
    requires pb.nbCities == 0 || (i < pb.nbCities && j < pb.nbCities)
    ensures r == Failure(EmptyRange) <==> pb.nbCities == 0
    ensures r == Failure(IndexOutOfRange) <==> 0 < pb.nbCities && (|s| <= i || |s| <= j)
    ensures r.Success? ==> |r.value| == |s| && multiset(r.value) == multiset(s)
    ensures r.Success? ==> r.value[i] == s[j] && r.value[j] == s[i]
    ensures r.Success? ==> forall k :: 0 <= k < |s| && k != i && k != j ==> r.value[k] == s[k]
  {
    if pb.nbCities == 0 then Failure(EmptyRange)
    else if |s| <= i || |s| <= j then Failure(IndexOutOfRange)
    else Success(Swap(s, i, j))
  }

  /** A random neighbour of a tour is a tour. */
  lemma RandomNeighborTour(pb: ProblemVC, s: seq<nat>, i: nat, j: nat)
    requires pb.nbCities == 0 || (i < pb.nbCities && j < pb.nbCities)
    requires IsPermutationOf(s, pb.nbCities)
    ensures pb.nbCities > 0 ==> RandomNeighbor(pb, s, i, j).Success?
    ensures RandomNeighbor(pb, s, i, j).Success? ==> IsPermutationOf(RandomNeighbor(pb, s, i, j).value, pb.nbCities)
  {
    PermutationFacts(s, pb.nbCities);
  }

  /** What `all_neighbors` subscripts: with two cities or more, positions
      `0 .. nb_cities-1` exist. */
  predicate Shaped(pb: ProblemVC, s: seq<nat>)
  {
    pb.nbCities < 2 || pb.nbCities <= |s|
  }

  /** `ProblemVC.all_neighbors`: a copy of `s`, then `s` with positions `i`
      and `j` exchanged for every `i < j` in lexicographic order. The
      generator swaps in one buffer, yields it and swaps back; each yield is
      modelled by the buffer's contents at that moment. */
  function AllNeighbors(pb: ProblemVC, s: seq<nat>): (r: seq<seq<nat>>)
    requires Shaped(pb, s)
    ensures |r| == 1 + |Pairs(pb.nbCities)| && r[0] == s
  {
    var ps := Pairs(pb.nbCities);
    PairsFacts(pb.nbCities);
    assert forall k :: 0 <= k < |ps| ==> ps[k] in ps;
    [s] + seq(|ps|, k requires 0 <= k < |ps| => Swap(s, ps[k].0, ps[k].1))
  }

  /** The neighbourhood holds `1 + n (n - 1) / 2` tours: `s` itself, then
      at position `1 + k` the `k`-th pair `i < j` in lexicographic order
      applied to `s`, and only that transposition. */
  lemma AllNeighborsAt(pb: ProblemVC, s: seq<nat>)
    requires Shaped(pb, s)
    ensures 2 * (|AllNeighbors(pb, s)| - 1) == pb.nbCities * (pb.nbCities - 1)
    ensures forall k :: 0 <= k < |Pairs(pb.nbCities)| ==>
      && Pairs(pb.nbCities)[k].0 < Pairs(pb.nbCities)[k].1 < pb.nbCities
      && AllNeighbors(pb, s)[1 + k] == Swap(s, Pairs(pb.nbCities)[k].0, Pairs(pb.nbCities)[k].1)
    ensures forall a, b :: 0 <= a < b < |Pairs(pb.nbCities)| ==> LexLess(Pairs(pb.nbCities)[a], Pairs(pb.nbCities)[b])
  {
    PairsFacts(pb.nbCities);
    forall k | 0 <= k < |Pairs(pb.nbCities)|
      ensures Pairs(pb.nbCities)[k].0 < Pairs(pb.nbCities)[k].1 < pb.nbCities
    {
      assert Pairs(pb.nbCities)[k] in Pairs(pb.nbCities);
    }
  }

  /** Every neighbour of a tour is a tour. */
  lemma AllNeighborsTours(pb: ProblemVC, s: seq<nat>)
    requires IsPermutationOf(s, pb.nbCities)
    ensures Shaped(pb, s)
    ensures forall k :: 0 <= k < |AllNeighbors(pb, s)| ==> IsPermutationOf(AllNeighbors(pb, s)[k], pb.nbCities)
  {
    PermutationFacts(s, pb.nbCities);
    AllNeighborsAt(pb, s);
  }

  /** A random neighbour is always one of the listed neighbours: `s` itself
      when both draws pick the same position, the transposition of the
      ordered pair otherwise. */
  lemma RandomNeighborListed(pb: ProblemVC, s: seq<nat>, i: nat, j: nat)
    requires pb.nbCities == 0 || (i < pb.nbCities && j < pb.nbCities)
    requires Shaped(pb, s)
    ensures RandomNeighbor(pb, s, i, j).Success? ==> RandomNeighbor(pb, s, i, j).value in AllNeighbors(pb, s)
  {
    var r := RandomNeighbor(pb, s, i, j);
    if r.Success? {
      var n := pb.nbCities;
      if i == j {
        assert r.value == s;
      } else {
        var lo, hi := if i < j then i else j, if i < j then j else i;
        SwapSymmetric(s, i, j);
        assert r.value == Swap(s, lo, hi);
        PairsFacts(n);
        assert (lo, hi) in Pairs(n);
        var k :| 0 <= k < |Pairs(n)| && Pairs(n)[k] == (lo, hi);
        assert AllNeighbors(pb, s)[1 + k] == r.value;
      }
    }
  }

  // ---------------------------------------------------------------------
  // Cost

  /** The legs `s[t-1] -> s[t]` of the open path, each measured as
      `dist(s[t], s[t-1])`. */
  function PathLength(dist: (nat, nat) -> real, s: seq<nat>): real
  {
    if |s| < 2 then 0.0 else PathLength(dist, s[..|s| - 1]) + dist(s[|s| - 1], s[|s| - 2])
  }

  /** The length of the closed tour: the open path plus the leg from the
      last city back to the first. */
  function TourLength(dist: (nat, nat) -> real, s: seq<nat>): real
    requires |s| > 0
  {
    dist(s[0], s[|s| - 1]) + PathLength(dist, s)
  }

  /** What `cost` can evaluate: a non-empty list of known cities. A city may
      appear more than once, since `cost` does not check that the list is a
      permutation. */
  predicate Evaluable(pb: ProblemVC, s: seq<nat>)
  {
    |s| > 0 && forall t :: 0 <= t < |s| ==> s[t] < pb.nbCities
  }

  /** `ProblemVC.cost`: one leg per city, starting with the leg from the
      last city (`s[-1]`) to the first, accumulated in list order. The empty
      list fails at `s[-1]`, an unknown city at `self.cities[c]`. */
  method Cost(pb: ProblemVC, s: seq<nat>) returns (r: Result<real, Fault>)
    ensures r.Failure? <==> !Evaluable(pb, s)
    ensures r.Failure? ==> r.error == IndexOutOfRange
    ensures r.Success? ==> r.value == TourLength(pb.dist, s)
  {
    if |s| == 0 {
      return Failure(IndexOutOfRange);
    }
    var res := 0.0;
    var prev := s[|s| - 1];
    for k := 0 to |s|
      invariant prev == if k == 0 then s[|s| - 1] else s[k - 1]
      invariant res == if k == 0 then 0.0 else ClosingLeg(pb, s) + PathLength(pb.dist, s[..k])
      invariant forall t :: 0 <= t < k ==> s[t] < pb.nbCities
    {
      if pb.nbCities <= s[k] || pb.nbCities <= prev {
        if k == 0 {
          assert pb.nbCities <= s[0] || pb.nbCities <= s[|s| - 1];
        }
        return Failure(IndexOutOfRange);
      }
      if k > 0 {
        assert s[..k + 1][..k] == s[..k];
      }
      res := res + pb.dist(s[k], prev);
      prev := s[k];
    }
    assert s[..|s|] == s;
    return Success(res);
  }

  /** The closing leg `s[0] -> s[-1]` that `cost` adds first. */
  function ClosingLeg(pb: ProblemVC, s: seq<nat>): real
    requires |s| > 0
  {
    pb.dist(s[0], s[|s| - 1])
  }

  /** With non-negative distances no path or tour has a negative length. */
  lemma {:induction false} PathLengthNonNegative(dist: (nat, nat) -> real, s: seq<nat>)
    requires NonNegative(dist)
    ensures 0.0 <= PathLength(dist, s)
  {
    if |s| >= 2 {
      PathLengthNonNegative(dist, s[..|s| - 1]);
    }
  }

  lemma CostNonNegative(pb: ProblemVC, s: seq<nat>)
    requires NonNegative(pb.dist) && |s| > 0
    ensures 0.0 <= TourLength(pb.dist, s)
  {
    PathLengthNonNegative(pb.dist, s);
  }

  /** Peeling the first leg off a path. */
  lemma {:induction false} PathLengthCons(dist: (nat, nat) -> real, s: seq<nat>)
    requires |s| >= 2
    ensures PathLength(dist, s) == dist(s[1], s[0]) + PathLength(dist, s[1..])
    decreases |s|
  {
    if |s| > 2 {
      var front := s[..|s| - 1];
      PathLengthCons(dist, front);
      assert front[1..] == s[1..][..|s[1..]| - 1];
    }
  }

  /** The tour's cost does not depend on the city it starts from: starting
      one city later gives the same length. */
  lemma TourLengthRotate(dist: (nat, nat) -> real, s: seq<nat>)
    requires |s| > 0
    ensures TourLength(dist, s[1..] + [s[0]]) == TourLength(dist, s)
  {
    var r := s[1..] + [s[0]];
    if |s| >= 2 {
      PathLengthCons(dist, s);
      assert r[..|r| - 1] == s[1..];
    } else {
      assert r == s;
    }
  }

  // ---------------------------------------------------------------------
  // Nearest-neighbour construction

  /** `r` is the first entry of `cs`, in list order, at the least distance
      from `city`. */
  ghost predicate FirstNearest(dist: (nat, nat) -> real, city: nat, cs: seq<nat>, r: nat)
  {
    && r in cs
    && (forall c :: c in cs ==> dist(city, r) <= dist(city, c))
    && forall m :: 0 <= m < IndexOf(cs, r) ==> dist(city, r) < dist(city, cs[m])
  }

  /** `nearest_city`: the running minimum starts at infinity and moves only
      on a strictly shorter distance, so the earliest closest city wins. */
  method NearestCity(pb: ProblemVC, city: nat, cs: seq<nat>) returns (r: nat)
    requires |cs| > 0
    ensures FirstNearest(pb.dist, city, cs, r)
  {
    var shorter := Infinite;
    var k := 0;
    r := cs[0];
    ghost var at := 0;
    while k < |cs|
      invariant k <= |cs|
      invariant k == 0 <==> shorter.Infinite?
      invariant k > 0 ==> at < k && cs[at] == r && shorter == Finite(pb.dist(city, r))
      invariant k > 0 ==> forall m :: 0 <= m < k ==> pb.dist(city, r) <= pb.dist(city, cs[m])
      invariant k > 0 ==> forall m :: 0 <= m < at ==> pb.dist(city, r) < pb.dist(city, cs[m])
    {
      var d := pb.dist(city, cs[k]);
      if Below(d, shorter) {
        r, shorter, at := cs[k], Finite(d), k;
      }
      k := k + 1;
    }
    FirstNearestAt(pb.dist, city, cs, r, at);
  }

  /** The minimum found at position `at` is the first occurrence of its
      city, because an earlier occurrence would be as close. */
  lemma FirstNearestAt(dist: (nat, nat) -> real, city: nat, cs: seq<nat>, r: nat, at: nat)
    requires at < |cs| && cs[at] == r
    requires forall m :: 0 <= m < |cs| ==> dist(city, r) <= dist(city, cs[m])
    requires forall m :: 0 <= m < at ==> dist(city, r) < dist(city, cs[m])
    ensures FirstNearest(dist, city, cs, r)
  {
    IndexOfFirst(cs, r, at);
  }

  /** The cities below `n` that are not in `visited`, in increasing order:
      what `remaining` holds once the cities of `visited` are removed. */
  function Unvisited(n: nat, visited: seq<nat>): seq<nat>
  {
    if n == 0 then []
    else Unvisited(n - 1, visited) + (if n - 1 in visited then [] else [n - 1])
  }

  /** A city remains exactly when it is known and not yet visited. */
  lemma {:induction false} UnvisitedMembers(n: nat, visited: seq<nat>)
    ensures forall c: nat :: c in Unvisited(n, visited) <==> c < n && c !in visited
  {
    if n > 0 {
      UnvisitedMembers(n - 1, visited);
    }
  }

  /** Nobody has been visited yet: every city remains. */
  lemma {:induction false} UnvisitedNone(n: nat)
    ensures Unvisited(n, []) == Iota(n)
  {
    if n > 0 {
      UnvisitedNone(n - 1);
      assert Iota(n) == Iota(n - 1) + [n - 1];
    }
  }

  /** Visiting a city of `m` or above leaves the cities below `m` alone. */
  lemma {:induction false} UnvisitedAbove(m: nat, visited: seq<nat>, c: nat)
    requires m <= c
    ensures Unvisited(m, visited + [c]) == Unvisited(m, visited)
  {
    if m > 0 {
      UnvisitedAbove(m - 1, visited, c);
      assert (m - 1 in visited + [c]) == (m - 1 in visited);
    }
  }

  /** `remaining.remove(city)` on the cities not yet visited is the list of
      cities not visited once `city` is. */
  lemma {:induction false} UnvisitedRemove(n: nat, visited: seq<nat>, c: nat)
    requires c < n && c !in visited
    ensures c in Unvisited(n, visited)
    ensures RemoveFirst<nat>(Unvisited(n, visited), c) == Unvisited(n, visited + [c])
  {
    UnvisitedMembers(n, visited);
    if c == n - 1 {
      UnvisitedRemoveLast(n, visited);
    } else {
      var front := Unvisited(n - 1, visited);
      var tail: seq<nat> := if n - 1 in visited then [] else [n - 1];
      assert Unvisited(n, visited) == front + tail;
      UnvisitedMembers(n - 1, visited);
      UnvisitedRemove(n - 1, visited, c);
      RemoveFirstFront<nat>(front, tail, c);
      assert (n - 1 in visited + [c]) == (n - 1 in visited);
      assert Unvisited(n, visited + [c]) == Unvisited(n - 1, visited + [c]) + tail;
      assert RemoveFirst<nat>(front + tail, c) == Unvisited(n, visited + [c]);
    }
  }

  /** Removing the highest remaining city drops the last entry. */
  lemma UnvisitedRemoveLast(n: nat, visited: seq<nat>)
    requires 0 < n && n - 1 !in visited
    ensures RemoveFirst<nat>(Unvisited(n, visited), n - 1) == Unvisited(n, visited + [n - 1])
  {
    var c: nat := n - 1;
    var front := Unvisited(c, visited);
    assert Unvisited(n, visited) == front + [c];
    UnvisitedMembers(c, visited);
    RemoveFirstBack<nat>(front, [c], c);
    assert RemoveFirst<nat>([c], c) == [];
    UnvisitedAbove(c, visited, c);
    assert front + [] == front;
  }

  /** The greedy tour after `path`: each city after the first is the first
      nearest, to the city before it, among the cities not yet visited. */
  ghost predicate NearestFirst(pb: ProblemVC, path: seq<nat>)
  {
    forall k :: 1 <= k < |path| ==> FirstNearest(pb.dist, path[k - 1], Unvisited(pb.nbCities, path[..k]), path[k])
  }

  /** `ProblemVC.naive_solution` with its `randint(0, n - 1)` start as input:
      start there, then repeatedly move to the first nearest remaining city
      and remove it from `remaining`, until none remains. It builds a tour
      that starts at `start` and follows the nearest-neighbour rule; the
      loop runs once per city after the first. */
  method NaiveSolution(pb: ProblemVC, start: nat) returns (r: Result<seq<nat>, Fault>, ghost rounds: nat)
    requires pb.nbCities == 0 || start < pb.nbCities
    ensures r.Failure? <==> pb.nbCities == 0
    ensures r.Failure? ==> r.error == EmptyRange
    ensures r.Success? ==> IsPermutationOf(r.value, pb.nbCities) && r.value[0] == start
    ensures r.Success? ==> NearestFirst(pb, r.value)
    ensures r.Success? ==> rounds == pb.nbCities - 1
  {
    var n := pb.nbCities;
    if n == 0 {
      return Failure(EmptyRange), 0;
    }
    var path := [start];
    assert Iota(n)[start] == start;
    var remaining := RemoveFirst(Iota(n), start);
    ProgressStart(n, start);
    var city := start;
    rounds := 0;
    while |remaining| > 0
      invariant |path| > 0 && path[0] == start && city == path[|path| - 1]
      invariant Progress(n, path, remaining)
      invariant |path| + |remaining| == n && rounds == |path| - 1
      invariant NearestFirst(pb, path)
      decreases |remaining|
    {
      var next := NearestCity(pb, city, remaining);
      GreedyExtend(pb, path, next);
      ProgressStep(n, path, remaining, next);
      path := path + [next];
      remaining := RemoveFirst(remaining, next);
      city := next;
      rounds := rounds + 1;
    }
    ProgressDone(n, path);
    return Success(path), rounds;
  }

  /** The loop's bookkeeping: `remaining` lists, in increasing order, the
      cities not on the path, and together the two hold every city once. */
  ghost predicate Progress(n: nat, path: seq<nat>, remaining: seq<nat>)
  {
    && remaining == Unvisited(n, path)
    && multiset(path) + multiset(remaining) == multiset(Iota(n))
  }

  lemma ProgressStart(n: nat, start: nat)
    requires start < n
    ensures start in Iota(n) && Progress(n, [start], RemoveFirst(Iota(n), start))
  {
    assert Iota(n)[start] == start;
    UnvisitedNone(n);
    UnvisitedRemove(n, [], start);
    assert [] + [start] == [start];
    RemoveFirstMultiset(Iota(n), start);
  }

  lemma ProgressStep(n: nat, path: seq<nat>, remaining: seq<nat>, next: nat)
    requires Progress(n, path, remaining) && next in remaining
    ensures Progress(n, path + [next], RemoveFirst(remaining, next))
  {
    UnvisitedMembers(n, path);
    UnvisitedRemove(n, path, next);
    RemoveFirstMultiset(remaining, next);
  }

  lemma ProgressDone(n: nat, path: seq<nat>)
    requires Progress(n, path, [])
    ensures IsPermutationOf(path, n)
  {
  }

  /** Appending the first nearest unvisited city keeps the path greedy. */
  lemma GreedyExtend(pb: ProblemVC, path: seq<nat>, next: nat)
    requires |path| > 0 && NearestFirst(pb, path)
    requires FirstNearest(pb.dist, path[|path| - 1], Unvisited(pb.nbCities, path), next)
    ensures NearestFirst(pb, path + [next])
  {
    var p := path + [next];
    forall k | 1 <= k < |p|
      ensures FirstNearest(pb.dist, p[k - 1], Unvisited(pb.nbCities, p[..k]), p[k])
    {
      GreedyStep(pb, path, next, k);
    }
  }

  /** Step `k` of the extended path: an earlier step as it was, or the
      appended city, the first nearest unvisited one to its predecessor. */
  lemma GreedyStep(pb: ProblemVC, path: seq<nat>, next: nat, k: nat)
    requires |path| > 0 && NearestFirst(pb, path)
    requires FirstNearest(pb.dist, path[|path| - 1], Unvisited(pb.nbCities, path), next)
    requires 1 <= k <= |path|
    ensures FirstNearest(pb.dist, (path + [next])[k - 1], Unvisited(pb.nbCities, (path + [next])[..k]), (path + [next])[k])
  {
    var p := path + [next];
    if k < |path| {
      GreedyKept(pb, path, next, k);
    } else {
      assert p[..k] == path;
    }
  }

  /** Appending leaves the earlier steps of the path as they were. */
  lemma GreedyKept(pb: ProblemVC, path: seq<nat>, next: nat, k: nat)
    requires NearestFirst(pb, path) && 1 <= k < |path|
    ensures FirstNearest(pb.dist, (path + [next])[k - 1], Unvisited(pb.nbCities, (path + [next])[..k]), (path + [next])[k])
  {
    var p := path + [next];
    assert p[..k] == path[..k] && p[k - 1] == path[k - 1] && p[k] == path[k];
  }
}
