/** The problem abstraction the search engine is written against, and the two
    pieces of bookkeeping the searches share: the full-neighbourhood argmin and
    the bounded FIFO tabu list. */
module Generic {
  import opened Outcomes

  /** A concrete problem as the engine sees it: a cost per solution and the
      deterministic list `all_neighbors` yields (which, by the problems'
      convention, starts with a copy of the solution itself). The random
      generators are not fields: the searches take their draws as inputs. */
  datatype Problem<!S> = Problem(cost: S -> real, allNeighbors: S -> seq<S>)

  /** Python's `math.inf` as the initial best cost, or a finite cost. */
  datatype Bound = Infinite | Finite(value: real)

  /** `c < bound`, with every cost below infinity. */
  predicate Below(c: real, bound: Bound)
  {
    bound.Infinite? || c < bound.value
  }

  /** What `neigh_argmin_cost` returns: the chosen solution and the number of
      neighbours it evaluated. */
  datatype Argmin<S> = Argmin(res: S, steps: nat)

  /** The neighbours that are not structurally equal to a tabu entry, in order. */
  function NotTabu<S(==,!new)>(ns: seq<S>, tabu: seq<S>): (r: seq<S>)
    ensures forall n :: n in r <==> n in ns && n !in tabu
    ensures forall n :: multiset(r)[n] == if n in tabu then 0 else multiset(ns)[n]
  {
    if |ns| == 0 then []
    else
      assert ns == [ns[0]] + ns[1..];
      if ns[0] in tabu then NotTabu(ns[1..], tabu)
      else [ns[0]] + NotTabu(ns[1..], tabu)
  }

  /** `ns[k]` is the first non-tabu entry of `ns` whose cost is strictly below
      every earlier non-tabu entry's cost and below `bar`. */
  ghost predicate FirstStrictlyBetter<S(!new)>(cost: S -> real, ns: seq<S>, tabu: seq<S>, k: int, bar: real)
  {
    && 0 <= k < |ns|
    && ns[k] !in tabu
    && cost(ns[k]) < bar
    && forall m :: 0 <= m < k && ns[m] !in tabu ==> cost(ns[k]) < cost(ns[m])
  }

  /** The loop of `neigh_argmin_cost` over the neighbours still to come, with
      the solution kept so far and the evaluations counted so far. */
  function Scan<S(==)>(cost: S -> real, ns: seq<S>, tabu: seq<S>, kept: S, steps: nat): (r: Argmin<S>)
    ensures cost(r.res) <= cost(kept)
  {
    if |ns| == 0 then Argmin(kept, steps)
    else
      var evaluated := ns[0] !in tabu;
      var next := if evaluated && cost(ns[0]) < cost(kept) then ns[0] else kept;
      Scan(cost, ns[1..], tabu, next, if evaluated then steps + 1 else steps)
  }

  /** What the scan finds: nothing non-tabu is cheaper than its result, the
      result is the kept solution or the earliest strictly better non-tabu
      entry, and it counts every non-tabu entry once. */
  lemma {:induction false} ScanFacts<S(!new)>(cost: S -> real, ns: seq<S>, tabu: seq<S>, kept: S, steps: nat)
    ensures forall n :: n in ns && n !in tabu ==> cost(Scan(cost, ns, tabu, kept, steps).res) <= cost(n)
    ensures var res := Scan(cost, ns, tabu, kept, steps).res;
            res == kept || exists k :: FirstStrictlyBetter(cost, ns, tabu, k, cost(kept)) && ns[k] == res
    ensures Scan(cost, ns, tabu, kept, steps).steps == steps + |NotTabu(ns, tabu)|
  {
    if |ns| > 0 {
      var evaluated := ns[0] !in tabu;
      var next := if evaluated && cost(ns[0]) < cost(kept) then ns[0] else kept;
      var steps' := if evaluated then steps + 1 else steps;
      ScanFacts(cost, ns[1..], tabu, next, steps');
      ScanStep(cost, ns, tabu, kept, next, Scan(cost, ns[1..], tabu, next, steps').res);
      assert forall n :: n in ns ==> n == ns[0] || n in ns[1..];
    }
  }

  /** One step of `Scan`: the earliest strictly better entry of the tail is,
      one position further on, the earliest strictly better entry of `ns`. */
  lemma ScanStep<S(!new)>(cost: S -> real, ns: seq<S>, tabu: seq<S>, kept: S, next: S, res: S)
    requires |ns| > 0
    requires next == if ns[0] !in tabu && cost(ns[0]) < cost(kept) then ns[0] else kept
    requires res == next || exists k :: FirstStrictlyBetter(cost, ns[1..], tabu, k, cost(next)) && ns[1..][k] == res
    ensures res == kept || exists k :: FirstStrictlyBetter(cost, ns, tabu, k, cost(kept)) && ns[k] == res
  {
    if res != kept {
      if res == next {
        assert FirstStrictlyBetter(cost, ns, tabu, 0, cost(kept));
      } else {
        var k :| FirstStrictlyBetter(cost, ns[1..], tabu, k, cost(next)) && ns[1..][k] == res;
        assert FirstStrictlyBetter(cost, ns, tabu, k + 1, cost(kept));
      }
    }
  }

  /** `base_problem.neigh_argmin_cost`: scan the whole neighbourhood of `s`,
      skip entries equal to a tabu entry, count the others, and keep `s` unless
      something is strictly cheaper, in which case the earliest of the cheapest
      wins. */
  function NeighArgminCost<S(==)>(pb: Problem<S>, s: S, tabu: seq<S>): (r: Argmin<S>)
    ensures pb.cost(r.res) <= pb.cost(s)
  {
    Scan(pb.cost, pb.allNeighbors(s), tabu, s, 0)
  }

  /** The argmin is no dearer than any non-tabu neighbour; it is `s` or the
      earliest strictly better non-tabu neighbour; the count is the number of
      non-tabu neighbours; and with every neighbour tabu nothing moves and
      nothing is counted. */
  lemma NeighArgminFacts<S(!new)>(pb: Problem<S>, s: S, tabu: seq<S>)
    ensures var r := NeighArgminCost(pb, s, tabu);
            forall n :: n in pb.allNeighbors(s) && n !in tabu ==> pb.cost(r.res) <= pb.cost(n)
    ensures var r := NeighArgminCost(pb, s, tabu);
            r.res == s || exists k :: FirstStrictlyBetter(pb.cost, pb.allNeighbors(s), tabu, k, pb.cost(s)) && pb.allNeighbors(s)[k] == r.res
    ensures NeighArgminCost(pb, s, tabu).res != s ==> pb.cost(NeighArgminCost(pb, s, tabu).res) < pb.cost(s)
    ensures NeighArgminCost(pb, s, tabu).steps == |NotTabu(pb.allNeighbors(s), tabu)|
    ensures (forall n :: n in pb.allNeighbors(s) ==> n in tabu) ==>
              NeighArgminCost(pb, s, tabu).res == s && NeighArgminCost(pb, s, tabu).steps == 0
  {
    var ns := pb.allNeighbors(s);
    ScanFacts(pb.cost, ns, tabu, s, 0);
    var r := NeighArgminCost(pb, s, tabu);
    if r.res != s {
      var k :| FirstStrictlyBetter(pb.cost, ns, tabu, k, pb.cost(s)) && ns[k] == r.res;
    }
    if forall n :: n in ns ==> n in tabu {
      NotTabuAllTabu(ns, tabu);
      ScanAllTabu(pb.cost, ns, tabu, s, 0);
    }
  }

  /** With every entry tabu the scan keeps its solution. */
  lemma {:induction false} ScanAllTabu<S(!new)>(cost: S -> real, ns: seq<S>, tabu: seq<S>, kept: S, steps: nat)
    requires forall n :: n in ns ==> n in tabu
    ensures Scan(cost, ns, tabu, kept, steps) == Argmin(kept, steps)
  {
    if |ns| > 0 {
      assert ns[0] in ns;
      ScanAllTabu(cost, ns[1..], tabu, kept, steps);
    }
  }

  lemma {:induction false} NotTabuAllTabu<S(!new)>(ns: seq<S>, tabu: seq<S>)
    requires forall n :: n in ns ==> n in tabu
    ensures NotTabu(ns, tabu) == []
  {
    if |ns| > 0 {
      NotTabuAllTabu(ns[1..], tabu);
    }
  }

  /** With an empty tabu list every neighbour is evaluated. */
  lemma {:induction false} NotTabuEmpty<S(!new)>(ns: seq<S>)
    ensures NotTabu(ns, []) == ns
  {
    if |ns| > 0 {
      assert NotTabu(ns, []) == [ns[0]] + NotTabu(ns[1..], []);
      NotTabuEmpty(ns[1..]);
      assert ns == [ns[0]] + ns[1..];
    }
  }

  /** `neigh_argmin_cost` changes the solution exactly when some non-tabu
      neighbour is strictly cheaper than it. */
  lemma NeighArgminMoves<S(!new)>(pb: Problem<S>, s: S, tabu: seq<S>)
    ensures NeighArgminCost(pb, s, tabu).res != s
        <==> exists n :: n in pb.allNeighbors(s) && n !in tabu && pb.cost(n) < pb.cost(s)
  {
    var r := NeighArgminCost(pb, s, tabu);
    NeighArgminFacts(pb, s, tabu);
    if r.res != s {
      var k :| FirstStrictlyBetter(pb.cost, pb.allNeighbors(s), tabu, k, pb.cost(s)) && pb.allNeighbors(s)[k] == r.res;
      assert pb.allNeighbors(s)[k] in pb.allNeighbors(s);
    }
  }

  /** The errors the tabu-list bookkeeping can raise. */
  datatype ListError = PopFromEmptyList

  /** One tabu update: `if len(tabu) == tabou_len_max: tabu.pop(0)` followed by
      `tabu.append(x)`. With capacity 0 the pop hits an empty list. */
  function PushTabu<S>(tabu: seq<S>, x: S, capacity: nat): (r: Result<seq<S>, ListError>)
    ensures r.Failure? <==> |tabu| == capacity == 0
    ensures r.Success? && |tabu| < capacity ==> r.value == tabu + [x]
    ensures r.Success? && |tabu| == capacity ==> r.value == tabu[1..] + [x]
    ensures r.Success? && |tabu| <= capacity ==> |r.value| <= capacity && r.value[|r.value| - 1] == x
  {
    if |tabu| == capacity then
      if |tabu| == 0 then Failure(PopFromEmptyList) else Success(tabu[1..] + [x])
    else Success(tabu + [x])
  }

  /** The last `capacity` entries of `visited` (all of them if fewer). */
  function Window<S>(visited: seq<S>, capacity: nat): seq<S>
  {
    if |visited| <= capacity then visited else visited[|visited| - capacity..]
  }

  /** Pushing onto the window of the solutions visited so far gives the window
      of the visits including the new one: the list is a FIFO of the most
      recent `capacity` currents, oldest first, newest last. */
  lemma PushTabuWindow<S>(visited: seq<S>, x: S, capacity: nat)
    requires capacity >= 1
    ensures PushTabu(Window(visited, capacity), x, capacity) == Success(Window(visited + [x], capacity))
  {
    var w := Window(visited, capacity);
    var v' := visited + [x];
    if |visited| >= capacity {
      assert w[1..] + [x] == v'[|v'| - capacity..];
    }
  }
}
