/** The five search loops of the engine, each taking its random draws as
    inputs. Every loop returns the solution it settled on and a cost history;
    ghost out-parameters expose the trace of solutions the loop went through so
    that the contracts can say how the history was built from it. */
module Search {
  import opened Outcomes
  import opened Seqs
  import opened Generic

  /** The lowest cost among `xs`, folded left to right. */
  function MinCost<S>(cost: S -> real, xs: seq<S>): real
    requires |xs| > 0
  {
    if |xs| == 1 then cost(xs[0])
    else
      var prefix := MinCost(cost, xs[..|xs| - 1]);
      if cost(xs[|xs| - 1]) < prefix then cost(xs[|xs| - 1]) else prefix
  }

  /** `MinCost` is a lower bound of the costs that some entry attains. */
  lemma {:induction false} MinCostIsMinimum<S>(cost: S -> real, xs: seq<S>)
    requires |xs| > 0
    ensures forall i :: 0 <= i < |xs| ==> MinCost(cost, xs) <= cost(xs[i])
    ensures exists i :: 0 <= i < |xs| && cost(xs[i]) == MinCost(cost, xs)
  {
    if |xs| == 1 {
      assert cost(xs[0]) == MinCost(cost, xs);
    } else {
      var p := xs[..|xs| - 1];
      MinCostIsMinimum(cost, p);
      assert forall i :: 0 <= i < |p| ==> p[i] == xs[i];
      if cost(xs[|xs| - 1]) >= MinCost(cost, p) {
        var i :| 0 <= i < |p| && cost(p[i]) == MinCost(cost, p);
        assert cost(xs[i]) == MinCost(cost, xs);
      }
    }
  }

  /** Extending a prefix by one sample lowers the minimum exactly when the
      new sample is strictly cheaper. */
  lemma MinCostExtend<S>(cost: S -> real, xs: seq<S>, k: nat)
    requires 0 < k < |xs|
    ensures MinCost(cost, xs[..k + 1]) == if cost(xs[k]) < MinCost(cost, xs[..k]) then cost(xs[k]) else MinCost(cost, xs[..k])
    ensures forall m :: 0 <= m < k ==> MinCost(cost, xs[..k]) <= cost(xs[m])
  {
    assert xs[..k + 1][..k] == xs[..k];
    MinCostIsMinimum(cost, xs[..k]);
    assert forall m :: 0 <= m < k ==> xs[..k][m] == xs[m];
  }

  /** The position of the first entry of least cost. */
  ghost function FirstCheapest<S>(cost: S -> real, xs: seq<S>): (i: nat)
    requires |xs| > 0
    ensures i < |xs|
  {
    if |xs| == 1 then 0
    else
      var i := FirstCheapest(cost, xs[..|xs| - 1]);
      if cost(xs[|xs| - 1]) < cost(xs[i]) then |xs| - 1 else i
  }

  /** No entry is cheaper than the one `FirstCheapest` picks, and every entry
      before it is strictly dearer. */
  lemma {:induction false} FirstCheapestFacts<S>(cost: S -> real, xs: seq<S>)
    requires |xs| > 0
    ensures forall m :: 0 <= m < |xs| ==> cost(xs[FirstCheapest(cost, xs)]) <= cost(xs[m])
    ensures forall m :: 0 <= m < FirstCheapest(cost, xs) ==> cost(xs[FirstCheapest(cost, xs)]) < cost(xs[m])
  {
    if |xs| > 1 {
      var p := xs[..|xs| - 1];
      FirstCheapestFacts(cost, p);
      assert forall m :: 0 <= m < |p| ==> p[m] == xs[m];
    }
  }

  /** Appending a batch of a cost no higher than anything recorded keeps the
      history non-increasing. */
  lemma AppendBatch(h: seq<real>, n: nat, c: real, hi: real)
    requires NonIncreasing(h)
    requires forall i :: 0 <= i < |h| ==> c <= h[i] <= hi
    requires c <= hi
    ensures NonIncreasing(h + Repeat(n, c))
    ensures forall i :: 0 <= i < |h| + n ==> c <= (h + Repeat(n, c))[i] <= hi
  {
  }

  /** History made of one batch per visited solution: `steps[k]` copies of the
      cost of `visited[k]`, in visiting order. */
  function Batches<S>(cost: S -> real, visited: seq<S>, steps: seq<nat>): seq<real>
    requires |visited| == |steps|
  {
    if |visited| == 0 then []
    else Batches(cost, visited[..|visited| - 1], steps[..|steps| - 1])
         + Repeat(steps[|steps| - 1], cost(visited[|visited| - 1]))
  }

  lemma {:induction false} BatchesLength<S>(cost: S -> real, visited: seq<S>, steps: seq<nat>)
    requires |visited| == |steps|
    ensures |Batches(cost, visited, steps)| == Sum(steps)
  {
    if |visited| > 0 {
      BatchesLength(cost, visited[..|visited| - 1], steps[..|steps| - 1]);
    }
  }

  /** A history built from solutions of non-increasing cost is non-increasing
      and lies between the last and the first of those costs. */
  lemma {:induction false} BatchesBounds<S>(cost: S -> real, visited: seq<S>, steps: seq<nat>)
    requires |visited| == |steps| > 0
    requires forall j :: 0 <= j < |visited| - 1 ==> cost(visited[j + 1]) <= cost(visited[j])
    ensures NonIncreasing(Batches(cost, visited, steps))
    ensures forall i :: 0 <= i < |Batches(cost, visited, steps)| ==>
              cost(visited[|visited| - 1]) <= Batches(cost, visited, steps)[i] <= cost(visited[0])
    ensures cost(visited[|visited| - 1]) <= cost(visited[0])
  {
    var n := |visited|;
    var v' := visited[..n - 1];
    var h' := Batches(cost, v', steps[..n - 1]);
    if n > 1 {
      forall j | 0 <= j < |v'| - 1
        ensures cost(v'[j + 1]) <= cost(v'[j])
      {
        assert v'[j] == visited[j] && v'[j + 1] == visited[j + 1];
      }
      BatchesBounds(cost, v', steps[..n - 1]);
      AppendBatch(h', steps[n - 1], cost(visited[n - 1]), cost(visited[0]));
    }
  }

  /** Recording the batch of a scan from `x` keeps the history in step with
      the visited solutions, non-increasing, and within `[lo, hi]`. */
  lemma RecordBatch<S>(cost: S -> real, visited: seq<S>, steps: seq<nat>, history: seq<real>,
                       x: S, n: nat, lo: real, hi: real)
    requires |visited| == |steps| && history == Batches(cost, visited, steps)
    requires NonIncreasing(history)
    requires forall k :: 0 <= k < |history| ==> cost(x) <= history[k] <= hi
    requires lo <= cost(x) <= hi
    ensures history + Repeat(n, cost(x)) == Batches(cost, visited + [x], steps + [n])
    ensures NonIncreasing(history + Repeat(n, cost(x)))
    ensures forall k :: 0 <= k < |history| + n ==> lo <= (history + Repeat(n, cost(x)))[k] <= hi
  {
    BatchesSnoc(cost, visited, steps, x, n);
    AppendBatch(history, n, cost(x), hi);
  }

  lemma BatchesSnoc<S>(cost: S -> real, visited: seq<S>, steps: seq<nat>, x: S, n: nat)
    requires |visited| == |steps|
    ensures Batches(cost, visited + [x], steps + [n]) == Batches(cost, visited, steps) + Repeat(n, cost(x))
  {
    assert (visited + [x])[..|visited|] == visited;
    assert (steps + [n])[..|steps|] == steps;
  }

  /** `monte_carlo`: one sample up front, then `iter_max - 1` more, keeping the
      first of the cheapest and recording the running best after each of the
      later samples. The first sample's cost is never recorded. */
  method MonteCarlo<S(!new)>(pb: Problem<S>, iterMax: nat, samples: seq<S>) returns (res: S, history: seq<real>)
    requires |samples| == if iterMax == 0 then 1 else iterMax
    ensures |history| == |samples| - 1
    ensures forall k :: 0 <= k < |history| ==> history[k] == MinCost(pb.cost, samples[..k + 2])
    ensures NonIncreasing(history)
    ensures pb.cost(res) == MinCost(pb.cost, samples)
    ensures exists i :: 0 <= i < |samples| && samples[i] == res
                        && forall m :: 0 <= m < i ==> pb.cost(res) < pb.cost(samples[m])
  {
    history := [];
    res := samples[0];
    var bestCost := pb.cost(res);
    ghost var at := 0;
    var k := 1;
    while k < |samples|
      invariant 1 <= k <= |samples|
      invariant |history| == k - 1
      invariant bestCost == pb.cost(res) == MinCost(pb.cost, samples[..k])
      invariant forall j :: 0 <= j < |history| ==> history[j] == MinCost(pb.cost, samples[..j + 2])
      invariant NonIncreasing(history)
      invariant 0 <= at < k && samples[at] == res
      invariant forall m :: 0 <= m < at ==> pb.cost(res) < pb.cost(samples[m])
    {
      var tmp := samples[k];
      var tmpCost := pb.cost(tmp);
      MinCostExtend(pb.cost, samples, k);
      assert |history| > 0 ==> history[|history| - 1] == bestCost;
      if tmpCost < bestCost {
        bestCost := tmpCost;
        res := tmp;
        at := k;
      }
      history := history + [bestCost];
      k := k + 1;
    }
    assert samples[..k] == samples;
  }

  /** Costs are non-negative whole numbers, as in the timetable problem; this
      is what makes the greedy descent terminate. */
  ghost predicate NaturalCosts<S(!new)>(pb: Problem<S>)
  {
    forall x :: 0.0 <= pb.cost(x) && pb.cost(x).Floor as real == pb.cost(x)
  }

  /** `visited` lists the solutions the scans of a descent from `s` started
      from: each is the neighbourhood argmin of the previous one and strictly
      cheaper than it, and `steps[k]` is the size of the `k`-th neighbourhood. */
  ghost predicate DescentTrace<S(!new)>(pb: Problem<S>, s: S, visited: seq<S>, steps: seq<nat>)
  {
    && |steps| == |visited|
    && (|visited| > 0 ==> visited[0] == s)
    && (forall k :: 0 <= k < |visited| - 1 ==>
          visited[k + 1] == NeighArgminCost(pb, visited[k], []).res
          && pb.cost(visited[k + 1]) < pb.cost(visited[k]))
    && (forall k :: 0 <= k < |visited| ==> steps[k] == |pb.allNeighbors(visited[k])|)
  }

  lemma DescentTraceExtend<S(!new)>(pb: Problem<S>, s: S, visited: seq<S>, steps: seq<nat>, x: S)
    requires DescentTrace(pb, s, visited, steps)
    requires |visited| == 0 ==> x == s
    requires |visited| > 0 ==> x == NeighArgminCost(pb, visited[|visited| - 1], []).res
                               && pb.cost(x) < pb.cost(visited[|visited| - 1])
    ensures DescentTrace(pb, s, visited + [x], steps + [|pb.allNeighbors(x)|])
  {
  }

  /** When the argmin of `last` is no cheaper than `last`, it is `last`
      itself, a local minimum. */
  lemma DescentStops<S(!new)>(pb: Problem<S>, last: S, res: S)
    requires res == NeighArgminCost(pb, last, []).res
    requires pb.cost(last) <= pb.cost(res)
    ensures res == last
    ensures NeighArgminCost(pb, res, []).res == res
    ensures forall n :: n in pb.allNeighbors(res) ==> pb.cost(res) <= pb.cost(n)
  {
    NeighArgminFacts(pb, last, []);
  }

  /** The `while` loop of `greedy`: move to the neighbourhood argmin as long as
      that strictly lowers the cost, appending one batch per scan. `visited`
      lists the solution each scan started from; the last scan found nothing
      cheaper, so the result is a local minimum. */
  method Descend<S(==,!new)>(pb: Problem<S>, s: S)
    returns (res: S, history: seq<real>, ghost visited: seq<S>, ghost steps: seq<nat>)
    requires NaturalCosts(pb)
    ensures pb.cost(res) <= pb.cost(s)
    ensures forall n :: n in pb.allNeighbors(res) ==> pb.cost(res) <= pb.cost(n)
    ensures NonIncreasing(history)
    ensures forall k :: 0 <= k < |history| ==> pb.cost(res) <= history[k] <= pb.cost(s)
    ensures |visited| >= 1 && visited[|visited| - 1] == res
    ensures NeighArgminCost(pb, res, []).res == res
    ensures DescentTrace(pb, s, visited, steps)
    ensures history == Batches(pb.cost, visited, steps)
  {
    history := [];
    res := s;
    var best := Infinite;
    var tmpCost := pb.cost(res);
    visited := [];
    steps := [];
    while Below(tmpCost, best)
      invariant tmpCost == pb.cost(res) <= pb.cost(s)
      invariant best.Infinite? <==> |visited| == 0
      invariant |visited| == 0 ==> res == s
      invariant |visited| > 0 ==> best.value == pb.cost(visited[|visited| - 1])
      invariant |visited| > 0 ==> res == NeighArgminCost(pb, visited[|visited| - 1], []).res
      invariant DescentTrace(pb, s, visited, steps)
      invariant history == Batches(pb.cost, visited, steps)
      invariant NonIncreasing(history)
      invariant forall k :: 0 <= k < |history| ==> pb.cost(res) <= history[k] <= pb.cost(s)
      decreases if best.Infinite? then tmpCost.Floor + 1 else best.value.Floor
    {
      best := Finite(tmpCost);
      var r := NeighArgminCost(pb, res, []);
      assert r.steps == |pb.allNeighbors(res)| && pb.cost(r.res) <= pb.cost(res) by {
        NeighArgminFacts(pb, res, []);
        NotTabuEmpty(pb.allNeighbors(res));
      }
      DescentTraceExtend(pb, s, visited, steps, res);
      RecordBatch(pb.cost, visited, steps, history, res, r.steps, pb.cost(r.res), pb.cost(s));
      visited := visited + [res];
      steps := steps + [r.steps];
      res := r.res;
      history := history + Repeat(r.steps, best.value);
      tmpCost := pb.cost(res);
    }
    DescentStops(pb, visited[|visited| - 1], res);
  }

  /** The error a bare `raise` outside an `except` block produces. */
  datatype GreedyError = NoActiveException

  /** `greedy` as written: after the descent, the `else` clause of the `try`
      statement runs a bare `raise` with no exception being handled, so every
      run that is not interrupted ends in an error instead of returning. */
  method Greedy<S(==,!new)>(pb: Problem<S>, s: S) returns (outcome: Result<(S, seq<real>), GreedyError>)
    requires NaturalCosts(pb)
    ensures outcome == Failure(NoActiveException)
  {
    var res, history, visited, steps := Descend(pb, s);
    outcome := Failure(NoActiveException);
  }

  /** `greedy` with the bare `raise` replaced by `return res, history`: a
      local minimum no worse than `s`, with a non-increasing history bounded
      by the start and end costs. */
  method GreedyFixed<S(==,!new)>(pb: Problem<S>, s: S) returns (outcome: Result<(S, seq<real>), GreedyError>)
    requires NaturalCosts(pb)
    ensures outcome.Success?
    ensures pb.cost(outcome.value.0) <= pb.cost(s)
    ensures forall n :: n in pb.allNeighbors(outcome.value.0) ==> pb.cost(outcome.value.0) <= pb.cost(n)
    ensures NonIncreasing(outcome.value.1)
    ensures forall k :: 0 <= k < |outcome.value.1| ==> pb.cost(outcome.value.0) <= outcome.value.1[k] <= pb.cost(s)
  {
    var res, history, visited, steps := Descend(pb, s);
    outcome := Success((res, history));
  }

  /** `random_greedy`: `draw(x, k)` is the neighbour `random_neighbor(x)`
      returns at iteration `k`. A draw replaces the current solution only when
      strictly cheaper, and the running best is recorded every iteration.
      `trace[k]` is the current solution at the start of iteration `k`. */
  method RandomGreedy<S(!new)>(pb: Problem<S>, s: S, iterMax: nat, draw: (S, nat) -> S)
    returns (res: S, history: seq<real>, ghost trace: seq<S>)
    ensures |history| == iterMax
    ensures NonIncreasing(history)
    ensures pb.cost(res) <= pb.cost(s)
    ensures forall k :: 0 <= k < iterMax ==> pb.cost(res) <= history[k] <= pb.cost(s)
    ensures iterMax > 0 ==> history[iterMax - 1] == pb.cost(res)
    ensures |trace| == iterMax + 1 && trace[0] == s && trace[iterMax] == res
    ensures forall k :: 0 <= k < iterMax ==>
              trace[k + 1] == if pb.cost(draw(trace[k], k)) < pb.cost(trace[k]) then draw(trace[k], k) else trace[k]
    ensures forall k :: 0 <= k < iterMax ==> history[k] == pb.cost(trace[k + 1])
  {
    history := [];
    res := s;
    var bestCost := pb.cost(s);
    trace := [s];
    var k := 0;
    while k < iterMax
      invariant k <= iterMax
      invariant |history| == k
      invariant bestCost == pb.cost(res) <= pb.cost(s)
      invariant |trace| == k + 1 && trace[0] == s && trace[k] == res
      invariant forall j :: 0 <= j < k ==>
                  trace[j + 1] == if pb.cost(draw(trace[j], j)) < pb.cost(trace[j]) then draw(trace[j], j) else trace[j]
      invariant forall j :: 0 <= j < k ==> history[j] == pb.cost(trace[j + 1])
      invariant NonIncreasing(history)
      invariant forall j :: 0 <= j < k ==> pb.cost(res) <= history[j] <= pb.cost(s)
    {
      var tmp := draw(res, k);
      var tmpCost := pb.cost(tmp);
      if tmpCost < bestCost {
        bestCost := tmpCost;
        res := tmp;
      }
      history := history + [bestCost];
      trace := trace + [res];
      k := k + 1;
    }
  }

  /** The variables of the `tabu` loop: the best cost and solution so far,
      the tabu list, the current solution and the history. */
  datatype TabuState<S> = TabuState(best: Bound, res: S, tabu: seq<S>, current: S, history: seq<real>)

  /** The state before the first iteration. */
  function TabuInit<S>(s: S): TabuState<S>
  {
    TabuState(Infinite, s, [], s, [])
  }

  /** One iteration of the `tabu` loop: the current solution updates the best
      if strictly cheaper, is pushed onto the bounded FIFO tabu list (which
      fails when the capacity is 0), and is replaced by the argmin of its
      non-tabu neighbourhood; one batch of the best cost per scan goes to the
      history. */
  function TabuStep<S(==)>(pb: Problem<S>, capacity: nat, st: TabuState<S>): (r: Result<TabuState<S>, ListError>)
    ensures r.Failure? <==> capacity == 0 && |st.tabu| == 0
    ensures r.Success? ==>
      && r.value.best.Finite?
      && r.value.best.value <= pb.cost(st.current)
      && (st.best.Finite? ==> r.value.best.value <= st.best.value)
      && pb.cost(r.value.current) <= pb.cost(st.current)
      && st.history <= r.value.history
  {
    var improved := Below(pb.cost(st.current), st.best);
    var bestCost := if improved then pb.cost(st.current) else st.best.value;
    var res := if improved then st.current else st.res;
    var tabu :- PushTabu(st.tabu, st.current, capacity);
    var r := NeighArgminCost(pb, st.current, tabu);
    Success(TabuState(Finite(bestCost), res, tabu, r.res, st.history + Repeat(r.steps, bestCost)))
  }

  /** The first `n` iterations, stopping at the first error. */
  function TabuRun<S(==)>(pb: Problem<S>, capacity: nat, st: TabuState<S>, n: nat): (r: Result<TabuState<S>, ListError>)
    ensures capacity > 0 ==> r.Success?
    ensures capacity == 0 && |st.tabu| == 0 && n > 0 ==> r.Failure?
    ensures r.Success? ==> st.history <= r.value.history
  {
    if n == 0 then Success(st)
    else
      var st' :- TabuRun(pb, capacity, st, n - 1);
      TabuStep(pb, capacity, st')
  }

  /** `tabu`: `iter_max` iterations from `s`; the result is the best solution
      and the history. */
  function Tabu<S(==)>(pb: Problem<S>, s: S, iterMax: nat, capacity: nat): (r: Result<(S, seq<real>), ListError>)
    ensures r.Failure? <==> capacity == 0 && iterMax > 0
    ensures iterMax == 0 ==> r == Success((s, []))
  {
    var st :- TabuRun(pb, capacity, TabuInit(s), iterMax);
    Success((st.res, st.history))
  }

  /** The current solutions of a tabu search from `s` over `n` iterations:
      each is the argmin of the previous one's neighbourhood with the window
      of the currents up to and including the previous one excluded. */
  ghost function TabuCurrents<S>(pb: Problem<S>, s: S, capacity: nat, n: nat): (c: seq<S>)
    ensures |c| == n + 1 && c[0] == s
  {
    if n == 0 then [s]
    else
      var c := TabuCurrents(pb, s, capacity, n - 1);
      c + [NeighArgminCost(pb, c[n - 1], Window(c, capacity)).res]
  }

  /** The number of evaluations of each of those `n` scans. */
  ghost function TabuSteps<S>(pb: Problem<S>, s: S, capacity: nat, n: nat): (steps: seq<nat>)
    ensures |steps| == n
  {
    if n == 0 then []
    else
      var c := TabuCurrents(pb, s, capacity, n - 1);
      TabuSteps(pb, s, capacity, n - 1) + [NeighArgminCost(pb, c[n - 1], Window(c, capacity)).steps]
  }

  /** Along the currents the cost never rises. */
  lemma {:induction false} TabuCurrentsCosts<S>(pb: Problem<S>, s: S, capacity: nat, n: nat)
    ensures forall i, j :: 0 <= i <= j <= n ==>
              pb.cost(TabuCurrents(pb, s, capacity, n)[j]) <= pb.cost(TabuCurrents(pb, s, capacity, n)[i])
  {
    if n > 0 {
      var c0 := TabuCurrents(pb, s, capacity, n - 1);
      var c := TabuCurrents(pb, s, capacity, n);
      var r := NeighArgminCost(pb, c0[n - 1], Window(c0, capacity));
      assert c == c0 + [r.res];
      TabuCurrentsCosts(pb, s, capacity, n - 1);
      forall i, j | 0 <= i <= j <= n
        ensures pb.cost(c[j]) <= pb.cost(c[i])
      {
        assert c[i] == if i < n then c0[i] else r.res;
        if j < n {
          assert c[j] == c0[j];
        } else {
          assert c[j] == r.res && c[n - 1] == c0[n - 1];
          if i < n {
            assert pb.cost(c0[n - 1]) <= pb.cost(c0[i]);
          }
        }
      }
    }
  }

  /** The state of a tabu search from `s` after `k` iterations that did not
      fail, read off its currents: the best cost is that of the previous
      current (the current cost never rises), the best solution is the first
      current of least cost, the tabu list is the window of the currents
      before the current one, and the history holds one batch per scan. */
  ghost function TabuExpected<S>(pb: Problem<S>, s: S, capacity: nat, k: nat): TabuState<S>
  {
    var c := TabuCurrents(pb, s, capacity, k);
    TabuState(if k == 0 then Infinite else Finite(pb.cost(c[k - 1])),
              if k == 0 then s else c[FirstCheapest(pb.cost, c[..k])],
              Window(c[..k], capacity),
              c[k],
              Batches(pb.cost, c[..k], TabuSteps(pb, s, capacity, k)))
  }

  /** The first current of least cost costs as much as the last one. */
  lemma TabuCheapestIsLast<S>(pb: Problem<S>, s: S, capacity: nat, k: nat)
    requires k > 0
    ensures pb.cost(TabuCurrents(pb, s, capacity, k)[FirstCheapest(pb.cost, TabuCurrents(pb, s, capacity, k)[..k])])
            == pb.cost(TabuCurrents(pb, s, capacity, k)[k - 1])
  {
    var c := TabuCurrents(pb, s, capacity, k);
    var v := c[..k];
    FirstCheapestFacts(pb.cost, v);
    TabuCurrentsCosts(pb, s, capacity, k);
    var i := FirstCheapest(pb.cost, v);
    assert v[i] == c[i] && v[k - 1] == c[k - 1];
  }

  /** The best solution after `k + 1` iterations is the `k`-th current if
      that is strictly cheaper than the best so far, and the best so far
      otherwise. */
  lemma TabuResStep<S>(pb: Problem<S>, s: S, capacity: nat, k: nat)
    ensures TabuExpected(pb, s, capacity, k + 1).res
            == if Below(pb.cost(TabuCurrents(pb, s, capacity, k)[k]), TabuExpected(pb, s, capacity, k).best)
               then TabuCurrents(pb, s, capacity, k)[k]
               else TabuExpected(pb, s, capacity, k).res
  {
    var c := TabuCurrents(pb, s, capacity, k);
    var c' := TabuCurrents(pb, s, capacity, k + 1);
    var r := NeighArgminCost(pb, c[k], Window(c, capacity));
    assert c' == c + [r.res];
    assert c'[..k + 1] == c;
    var fc := FirstCheapest(pb.cost, c);
    assert TabuExpected(pb, s, capacity, k + 1).res == c[fc];
    if k > 0 {
      var i := FirstCheapest(pb.cost, c[..k]);
      assert fc == if pb.cost(c[k]) < pb.cost(c[i]) then k else i;
      TabuCheapestIsLast(pb, s, capacity, k);
      assert c[..k][i] == c[i];
    }
  }

  /** With a positive capacity, one iteration from the state after `k`
      iterations gives the state after `k + 1`. */
  lemma TabuStepExpected<S>(pb: Problem<S>, s: S, capacity: nat, k: nat)
    requires capacity >= 1
    ensures TabuStep(pb, capacity, TabuExpected(pb, s, capacity, k)) == Success(TabuExpected(pb, s, capacity, k + 1))
  {
    var c := TabuCurrents(pb, s, capacity, k);
    var c' := TabuCurrents(pb, s, capacity, k + 1);
    var steps := TabuSteps(pb, s, capacity, k);
    var r := NeighArgminCost(pb, c[k], Window(c, capacity));
    assert c' == c + [r.res];
    assert c'[..k + 1] == c;
    assert TabuSteps(pb, s, capacity, k + 1) == steps + [r.steps];
    PushTabuWindow(c[..k], c[k], capacity);
    FrontLast(c);
    BatchesSnoc(pb.cost, c[..k], steps, c[k], r.steps);
    TabuCurrentsCosts(pb, s, capacity, k);
    var e := TabuExpected(pb, s, capacity, k);
    var e' := TabuExpected(pb, s, capacity, k + 1);
    var improved := Below(pb.cost(e.current), e.best);
    var bestCost := if improved then pb.cost(e.current) else e.best.value;
    var res := if improved then e.current else e.res;
    assert bestCost == pb.cost(c[k]);
    TabuResStep(pb, s, capacity, k);
    assert res == e'.res;
    assert e.history + Repeat(r.steps, bestCost) == e'.history;
    var next := TabuState(Finite(bestCost), res, Window(c, capacity), r.res, e.history + Repeat(r.steps, bestCost));
    assert TabuStep(pb, capacity, e) == Success(next);
    assert e' == next;
  }

  /** With a positive capacity (or no iteration at all) the loop runs to the
      end and its state is `TabuExpected`. */
  lemma {:induction false} TabuRunState<S>(pb: Problem<S>, s: S, capacity: nat, n: nat)
    requires capacity >= 1 || n == 0
    ensures TabuRun(pb, capacity, TabuInit(s), n) == Success(TabuExpected(pb, s, capacity, n))
  {
    if n == 0 {
      assert TabuCurrents(pb, s, capacity, 0)[..0] == [];
    } else {
      TabuRunState(pb, s, capacity, n - 1);
      TabuStepExpected(pb, s, capacity, n - 1);
    }
  }

  /** With capacity 0 the first push pops from an empty list, so every run
      with at least one iteration fails. */
  lemma {:induction false} TabuRunFails<S(!new)>(pb: Problem<S>, s: S, n: nat)
    ensures TabuRun(pb, 0, TabuInit(s), n).Failure? <==> n > 0
  {
    if n > 1 {
      TabuRunFails(pb, s, n - 1);
    }
  }

  /** `tabu` fails exactly when the capacity is 0 and there is an iteration. */
  lemma TabuFailure<S(!new)>(pb: Problem<S>, s: S, iterMax: nat, capacity: nat)
    ensures Tabu(pb, s, iterMax, capacity).Failure? <==> capacity == 0 && iterMax > 0
  {
    if capacity == 0 {
      TabuRunFails(pb, s, iterMax);
    } else {
      TabuRunState(pb, s, capacity, iterMax);
    }
  }

  /** What `tabu` returns on success: a solution no dearer than `s`, the first
      of the cheapest currents scanned, and a non-increasing history made of
      one batch per scan of the best cost at that iteration, bounded by the
      result's cost and the cost of `s`. */
  lemma TabuResult<S(!new)>(pb: Problem<S>, s: S, iterMax: nat, capacity: nat)
    requires Tabu(pb, s, iterMax, capacity).Success?
    ensures pb.cost(Tabu(pb, s, iterMax, capacity).value.0) <= pb.cost(s)
    ensures NonIncreasing(Tabu(pb, s, iterMax, capacity).value.1)
    ensures forall k :: 0 <= k < |Tabu(pb, s, iterMax, capacity).value.1| ==>
              pb.cost(Tabu(pb, s, iterMax, capacity).value.0) <= Tabu(pb, s, iterMax, capacity).value.1[k] <= pb.cost(s)
    ensures Tabu(pb, s, iterMax, capacity).value.1
            == Batches(pb.cost, TabuCurrents(pb, s, capacity, iterMax)[..iterMax], TabuSteps(pb, s, capacity, iterMax))
    ensures iterMax == 0 ==> Tabu(pb, s, iterMax, capacity).value == (s, [])
    ensures iterMax > 0 ==>
              pb.cost(Tabu(pb, s, iterMax, capacity).value.0) == pb.cost(TabuCurrents(pb, s, capacity, iterMax)[iterMax - 1])
    ensures iterMax > 0 ==>
              exists i :: 0 <= i < iterMax && TabuCurrents(pb, s, capacity, iterMax)[i] == Tabu(pb, s, iterMax, capacity).value.0
                          && forall m :: 0 <= m < i ==>
                               pb.cost(Tabu(pb, s, iterMax, capacity).value.0) < pb.cost(TabuCurrents(pb, s, capacity, iterMax)[m])
  {
    TabuFailure(pb, s, iterMax, capacity);
    TabuRunState(pb, s, capacity, iterMax);
    TabuFinalBest(pb, s, capacity, iterMax);
    TabuFinalHistory(pb, s, capacity, iterMax);
  }

  /** The best solution after `n` iterations is no dearer than `s` and is the
      first current of least cost. */
  lemma TabuFinalBest<S>(pb: Problem<S>, s: S, capacity: nat, n: nat)
    ensures pb.cost(TabuExpected(pb, s, capacity, n).res) <= pb.cost(s)
    ensures n > 0 ==> pb.cost(TabuExpected(pb, s, capacity, n).res) == pb.cost(TabuCurrents(pb, s, capacity, n)[n - 1])
    ensures n > 0 ==>
              exists i :: 0 <= i < n && TabuCurrents(pb, s, capacity, n)[i] == TabuExpected(pb, s, capacity, n).res
                          && forall m :: 0 <= m < i ==>
                               pb.cost(TabuExpected(pb, s, capacity, n).res) < pb.cost(TabuCurrents(pb, s, capacity, n)[m])
  {
    if n > 0 {
      var c := TabuCurrents(pb, s, capacity, n);
      var res := TabuExpected(pb, s, capacity, n).res;
      var i := FirstCheapest(pb.cost, c[..n]);
      assert res == c[i];
      assert pb.cost(res) == pb.cost(c[n - 1]) by {
        TabuCheapestIsLast(pb, s, capacity, n);
      }
      assert pb.cost(res) <= pb.cost(s) by {
        TabuCurrentsCosts(pb, s, capacity, n);
        assert pb.cost(c[n - 1]) <= pb.cost(c[0]);
      }
      assert 0 <= i < n && c[i] == res && forall m :: 0 <= m < i ==> pb.cost(res) < pb.cost(c[m]) by {
        TabuFirstCheapest(pb, s, capacity, n);
      }
    }
  }

  /** The first current of least cost among the first `n` is the first of
      the currents to reach its cost. */
  lemma TabuFirstCheapest<S>(pb: Problem<S>, s: S, capacity: nat, n: nat)
    requires n > 0
    ensures var c := TabuCurrents(pb, s, capacity, n);
            var i := FirstCheapest(pb.cost, c[..n]);
            && i < n
            && forall m :: 0 <= m < i ==> pb.cost(c[i]) < pb.cost(c[m])
  {
    var c := TabuCurrents(pb, s, capacity, n);
    var v := c[..n];
    FirstCheapestFacts(pb.cost, v);
    var i := FirstCheapest(pb.cost, v);
    assert c[i] == v[i];
    assert forall m :: 0 <= m < i ==> c[m] == v[m];
  }

  /** The history after `n` iterations is non-increasing and lies between the
      best cost and the cost of `s`. */
  lemma TabuFinalHistory<S>(pb: Problem<S>, s: S, capacity: nat, n: nat)
    ensures NonIncreasing(TabuExpected(pb, s, capacity, n).history)
    ensures forall k :: 0 <= k < |TabuExpected(pb, s, capacity, n).history| ==>
              pb.cost(TabuExpected(pb, s, capacity, n).res) <= TabuExpected(pb, s, capacity, n).history[k] <= pb.cost(s)
  {
    if n > 0 {
      var c := TabuCurrents(pb, s, capacity, n);
      var v := c[..n];
      TabuCurrentsCosts(pb, s, capacity, n);
      TabuCheapestIsLast(pb, s, capacity, n);
      assert forall j :: 0 <= j < n ==> v[j] == c[j];
      BatchesBounds(pb.cost, v, TabuSteps(pb, s, capacity, n));
    }
  }

  /** Annealing's acceptance test: a candidate no dearer than the current
      solution always passes (a strictly cheaper one without the test, an
      equally dear one because `p = exp(-beta * 0) = 1` and `random.random()`
      is below 1); otherwise the oracle bit `coin` stands for
      `random.random() < p`. */
  predicate Accepts<S>(pb: Problem<S>, current: S, candidate: S, coin: bool)
  {
    pb.cost(candidate) <= pb.cost(current) || coin
  }

  /** `simulated_annealing`: `draw(x, k)` is the neighbour drawn at iteration
      `k`, `coins[k]` the outcome of the probabilistic test there. On an
      acceptance the iterations since the previous one are recorded, all at the
      cost the current solution had before accepting, so `history[i]` is the
      cost of the current solution at the start of iteration `i`, and the
      trailing run of rejections is never recorded. */
  method SimulatedAnnealing<S(!new)>(pb: Problem<S>, s: S, iterMax: nat, draw: (S, nat) -> S, coins: seq<bool>)
    returns (res: S, history: seq<real>, ghost currents: seq<S>)
    requires |coins| == iterMax
    ensures |history| <= iterMax
    ensures (forall k :: 0 <= k < iterMax ==> coins[k]) ==> |history| == iterMax
    ensures |currents| == iterMax + 1 && currents[0] == s && currents[iterMax] == res
    ensures forall k :: 0 <= k < iterMax ==>
              currents[k + 1] == if Accepts(pb, currents[k], draw(currents[k], k), coins[k]) then draw(currents[k], k) else currents[k]
    ensures forall k :: 0 <= k < iterMax && pb.cost(draw(currents[k], k)) <= pb.cost(currents[k]) ==>
              currents[k + 1] == draw(currents[k], k)
    ensures forall i :: 0 <= i < |history| ==> history[i] == pb.cost(currents[i])
    ensures forall k :: |history| <= k < iterMax ==> !Accepts(pb, currents[k], draw(currents[k], k), coins[k])
    ensures |history| > 0 ==> Accepts(pb, currents[|history| - 1], draw(currents[|history| - 1], |history| - 1), coins[|history| - 1])
  {
    history := [];
    res := s;
    var currentCost := pb.cost(res);
    var accepted := false;
    var nbSteps: nat := 0;
    currents := [s];
    var k := 0;
    while k < iterMax
      invariant k <= iterMax
      invariant |currents| == k + 1 && currents[0] == s && currents[k] == res
      invariant currentCost == pb.cost(res)
      invariant !accepted
      invariant |history| + nbSteps == k
      invariant forall j :: 0 <= j < k ==>
                  currents[j + 1] == if Accepts(pb, currents[j], draw(currents[j], j), coins[j]) then draw(currents[j], j) else currents[j]
      invariant forall i :: 0 <= i < |history| ==> history[i] == pb.cost(currents[i])
      invariant forall j :: |history| <= j <= k ==> currents[j] == res
      invariant forall j :: |history| <= j < k ==> !Accepts(pb, currents[j], draw(currents[j], j), coins[j])
      invariant |history| > 0 ==> Accepts(pb, currents[|history| - 1], draw(currents[|history| - 1], |history| - 1), coins[|history| - 1])
      invariant (forall j :: 0 <= j < k ==> coins[j]) ==> nbSteps == 0
    {
      nbSteps := nbSteps + 1;
      var tmp := draw(res, k);
      var tmpCost := pb.cost(tmp);
      if tmpCost < currentCost {
        accepted := true;
      } else {
        // `x < p` with `p = exp(-beta * (tmpCost - currentCost))`: `p` is 1
        // on a tie, and `x` is always below 1; otherwise the oracle decides.
        var xBelowP := tmpCost == currentCost || coins[k];
        if xBelowP {
          accepted := true;
        }
      }
      if accepted {
        res := tmp;
        history := history + Repeat(nbSteps, currentCost);
        nbSteps := 0;
        currentCost := tmpCost;
        accepted := false;
      }
      currents := currents + [res];
      k := k + 1;
    }
  }
}
