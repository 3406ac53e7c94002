# Local-search toolkit, modelled in Dafny

The repository is a small local-search toolkit. It has three parts:

- A generic search engine (`generic.py`). A problem supplies a cost, a random
  solution, a random neighbour and the full, ordered sequence of its
  neighbours. The engine has one helper, `neigh_argmin_cost`, and five
  searches: Monte Carlo sampling, greedy descent, randomised greedy descent,
  tabu search and simulated annealing.
- A school timetable problem (`edt.py`, `ProblemEDT`). A solution has one row
  per group and one cell per weekly slot. A cell holds 0 for a free period, or
  the number (from 1) of the professor who teaches that group in that slot.
  The cost is the number of professor collisions.
- A travelling-salesman problem (`voyage.py`, `ProblemVC`). A solution is a
  permutation of the cities, and the cost is the length of the closed tour.

The model is functional. Solutions are immutable sequences, and every random
draw is an explicit input:

- `random.shuffle` becomes the swap indices of CPython's Fisher–Yates loop
  (`Swaps.ShuffleDraws`).
- `random.randint` becomes an index argument, with a precondition that it
  lies in the drawn range.
- In the engine, `random_solution` and `random_neighbor` become a sample
  sequence or an oracle function.
- Annealing's probabilistic test becomes one oracle bit per iteration.

A Python exception becomes a `Failure` of `Outcomes.Result`. The cases are:

- an `IndexError` (`Outcomes.Fault.IndexOutOfRange`; inside `assert_solution`,
  the short row it comes from is `Edt.Rejection.RowIndex`);
- the `ValueError` of `random.randint(0, -1)` (`Outcomes.Fault.EmptyRange`);
- the constructor's `ValueError`s (`Edt.ConfigError`);
- a failed assertion (the other `Edt.Rejection` cases);
- `pop` from an empty list (`Generic.ListError`);
- a bare `raise` with no active exception (`Search.GreedyError`).

Costs are `real` in the engine. This is exact for the timetable's integer
costs. The tour's length is a sum of floats in the source, and the model adds
exact reals instead (see "## Left out").

Files:

- `outcomes.dfy`: the `Result` type.
- `seqs.dfy`: Python list idioms (`n * [x]`, `list.remove`, `range`) and
  permutations.
- `swaps.dfy`: transpositions, the `(i, j)` pair enumeration of the
  neighbourhoods, and the shuffle.
- `tables.dfy`: row and column views of rectangular tables.
- `generic.dfy`: the problem record, the neighbourhood argmin and the tabu
  list.
- `search.dfy`: the five searches.
- `edt.dfy`: the timetable problem.
- `voyage.dfy`: the travelling-salesman problem.

Three behaviours of the code are easy to misread:

- `monte_carlo` records `iter_max - 1` history entries, not `iter_max`. The
  first sample's cost is never recorded, and `iter_max == 0` still draws one
  sample.
- `neigh_argmin_cost` starts from `s` at its own cost. Tabu search therefore
  never moves to a dearer solution. When no non-tabu neighbour is strictly
  cheaper, it stays on `s`, which is then already in its tabu list.
- `greedy` does not return normally (see Findings).

## Model

| member | source | states |
|---|---|---|
| Generic.NotTabu | generic.py:32-34 | the neighbours that get evaluated are exactly those of the neighbourhood that are not structurally equal to a tabu entry, each as many times as the neighbourhood lists it |
| Generic.NeighArgminCost | generic.py:27-39 | the argmin is never dearer than the solution it starts from, because the start is the initial candidate at its own cost |
| Generic.NeighArgminFacts | generic.py:27-39 | the argmin is no dearer than any non-tabu neighbour; it is the start itself or the first non-tabu neighbour that is strictly cheaper than every candidate before it (strict `<`, so the earliest of equal costs wins); it moves only to a strictly cheaper solution; the step count is the number of non-tabu neighbours; with every neighbour tabu it returns the start and 0 |
| Generic.NeighArgminMoves | generic.py:33-38 | the argmin leaves the start exactly when some non-tabu neighbour is strictly cheaper than the start |
| Generic.Scan | generic.py:32-38 | the loop over the neighbours still to come never ends on a solution dearer than the one kept so far; its full characterisation is `Generic.ScanFacts` |
| Generic.ScanFacts | generic.py:32-38 | the scan from any candidate keeps the cheapest non-tabu entry, breaks ties towards the earliest, and counts one step per non-tabu entry |
| Generic.PushTabu | generic.py:126-128 | pushing onto the tabu list fails (pop from an empty list) exactly when the capacity is 0 and the list is empty; below capacity it appends; at capacity it evicts the oldest entry; the list never exceeds its capacity and the newest entry is last |
| Generic.PushTabuWindow | generic.py:126-128 | with capacity at least 1, the tabu list is always the last `capacity` currents: pushing onto the window of a history gives the window of the extended history |
| Search.MinCostIsMinimum | generic.py:61-68 | the running best over a prefix of the samples is a lower bound of their costs and is attained by one of them |
| Search.MonteCarlo | generic.py:55-70 | one history entry per sample after the first (`iter_max - 1` in all); entry `k` is the least cost of the first `k + 2` samples, so the history is non-increasing; the result costs the least of all samples and is the first sample with that cost |
| Search.BatchesLength | generic.py:83 | a history made of one batch of `nb_steps` copies per scan has as many entries as the scans' step counts add up to |
| Search.BatchesBounds | generic.py:83 | batches of costs that never rise form a non-increasing history bounded by the last and the first cost |
| Search.DescentStops | generic.py:80-82 | when the argmin is no cheaper than the solution scanned, it is that solution, a local minimum no dearer than any neighbour |
| Search.Descend | generic.py:76-85 | the descent ends on a local minimum no dearer than the start; each scan but the last moved to the argmin of the previous solution and was strictly cheaper than it; the history is one batch of the current cost per scan, of the neighbourhood's size, so it is non-increasing and bounded by the final and the start cost |
| Search.Greedy | generic.py:73-91 | as written, every run that is not interrupted ends in the error of a bare `raise` with no active exception |
| Search.GreedyFixed | generic.py:73-91 | the corrected greedy returns the descent's result: a local minimum no dearer than the start with a non-increasing history between the two costs |
| Search.RandomGreedy | generic.py:94-110 | exactly `iter_max` history entries; each draw replaces the current solution only when strictly cheaper; entry `k` is the running best after iteration `k`, so the history is non-increasing, bounded by the result's cost and the start's cost, and ends at the result's cost |
| Search.TabuStep | generic.py:122-131 | one iteration fails exactly when the capacity and the tabu list are both empty (the `pop(0)` on `[]`); otherwise the best cost becomes finite, is no dearer than the current solution nor than the previous best, the next current is no dearer than this one, and the history only grows at its end; the exact state is `Search.TabuStepExpected` |
| Search.TabuRun | generic.py:121-131 | with a positive capacity the loop never fails; with capacity 0 and an empty tabu list it fails as soon as it runs; on success the history only grows at its end; the state reached is `Search.TabuRunState` |
| Search.Tabu | generic.py:113-133 | `tabu` fails exactly when the capacity is 0 and there is at least one iteration, and with no iteration returns `s` and an empty history; what it returns on success is `Search.TabuResult` |
| Search.TabuCurrentsCosts | generic.py:129-131 | the cost of the current solution never rises from one iteration to the next |
| Search.TabuStepExpected | generic.py:121-131 | with a positive capacity, one loop iteration takes the state after `k` iterations to the state after `k + 1`: best and result updated on strict improvement, current pushed with FIFO eviction, current replaced by its non-tabu argmin, one batch of the best cost appended |
| Search.TabuResStep | generic.py:122-124 | the result changes at an iteration exactly when the current is strictly cheaper than the best so far |
| Search.TabuCheapestIsLast | generic.py:122-124 | the first current of least cost costs as much as the latest current scanned, because currents never get dearer |
| Search.TabuRunState | generic.py:121-131 | with a positive capacity the loop never fails, and its state after `n` iterations is the one read off the currents |
| Search.TabuRunFails | generic.py:126-128 | with capacity 0 the first push pops from an empty list, so the loop fails exactly when it runs at least once |
| Search.TabuFailure | generic.py:113-133 | `tabu` fails exactly when the capacity is 0 and there is at least one iteration |
| Search.TabuResult | generic.py:113-133 | on success the result is no dearer than the start; it costs as much as the last current scanned and is the first current of that cost; the history is one batch of the best cost per scan, of the scan's step count, so it is non-increasing and bounded by the result's and the start's cost; with no iteration the start and an empty history are returned |
| Search.TabuFinalBest | generic.py:122-124 | after any number of iterations the best solution is no dearer than the start and is the first current of least cost |
| Search.TabuFinalHistory | generic.py:130 | the tabu history is non-increasing and lies between the best cost and the start's cost |
| Search.SimulatedAnnealing | generic.py:136-164 | a draw no dearer than the current solution is always accepted (a strictly cheaper one outright, an equally dear one because its acceptance probability is `exp(0) = 1`), and otherwise the oracle bit decides; `history[i]` is the cost of the current solution at the start of iteration `i`; the history stops at the last acceptance, so it is shorter than `iter_max` by the trailing run of rejections and is full when every iteration accepts |
| Seqs.RemoveFirstMultiset | voyage.py:53-57 | `list.remove` takes away exactly one occurrence of the city and nothing else |
| Swaps.Swap | voyage.py:64 | the exchange of two (possibly equal) positions swaps those two cells, keeps every other cell, and keeps the multiset |
| Swaps.SwapSelfInverse | voyage.py:73-75 | exchanging the same two positions again restores the buffer |
| Swaps.PairsFacts | voyage.py:71-72 | the nested loops visit every pair `i < j < n` exactly once, `n(n-1)/2` of them, in lexicographic order |
| Swaps.Shuffle | voyage.py:34 | a shuffle, for any draws, keeps the length and the multiset of its input |
| Edt.New | edt.py:25-37 | construction fails with the compatibility error exactly when `nb_profs * nb_group_per_prof != nb_groups * nb_prof_per_group`, then with the slot error exactly when there are fewer slots than `nb_course_per_prof * nb_prof_per_group`; otherwise it keeps the six arguments and builds the allocation |
| Edt.ToBeAffected | edt.py:43-46 | the list of professors to place has `nb_profs * nb_group_per_prof` entries; its contents are `Edt.ToBeAffectedCounts` |
| Edt.ToBeAffectedCounts | edt.py:43-46 | the list of professors to place holds each professor `1 .. nb_profs` exactly `nb_group_per_prof` times and nothing else |
| Edt.AllocateIndexInBounds | edt.py:48 | every index `ii + i * nb_groups` read by `allocate` lies within the list of professors to place |
| Edt.Allocate | edt.py:40-50 | the allocation has one row per group and `nb_prof_per_group` professors per row |
| Edt.AllocateRange | edt.py:43-48 | every allocated professor is numbered between 1 and `nb_profs` |
| Edt.AllocateCounts | edt.py:43-48 | under the compatibility equation each professor occurs exactly `nb_group_per_prof` times in the whole allocation, because column `i` of the allocation is block `i` of the list of professors to place |
| Edt.AllocationRowsDistinct | edt.py:48 | when no professor follows more groups than there are, no group is given the same professor twice |
| Edt.NbCollisions | edt.py:58-73 | the tally-and-reset loop computes the per-slot clash count over the first `nb_groups` rows, or the `IndexError` a short row, a missing row or a professor number above `nb_profs` raises |
| Edt.TableClashes | edt.py:59-73 | on a table whose entries are all professor numbers or 0, the slot loop adds up the clashes of every slot's column |
| Edt.SlotPass | edt.py:64-72 | one slot's pass adds that column's clashes and leaves `prof_needed` all zeros again, ready for the next slot |
| Edt.Tally | edt.py:64-65 | after tallying a slot, entry `p` of the tally is the number of groups that have professor `p` in that slot |
| Edt.Settle | edt.py:67-71 | settling a tally adds, for every professor present, one less than their number of classes in the slot, and resets every professor's tally |
| Edt.ExcessIsClashes | edt.py:67-70 | summing "tally minus one" over the professors present gives the number of entries that repeat an earlier entry of the column |
| Edt.ClashesAreRepeats | edt.py:62-73 | the clashes of a slot are its non-zero entries minus its distinct professors, so free periods never count |
| Edt.ClashesZero | edt.py:67-70 | a slot has no clash exactly when no professor appears twice in it |
| Edt.CollisionsZero | edt.py:58-73 | the cost is 0 exactly when no professor teaches two groups in the same slot |
| Edt.Validate | edt.py:85-100 | an entry outside `0 .. nb_profs` is reported before any other check, as the range assertions run first; what the checks accept is `Edt.ValidateAccepts` |
| Edt.ValidateAccepts | edt.py:85-100 | the checks of `assert_solution`, run in its order, succeed exactly when every entry is in `0 .. nb_profs`, there are no more rows than groups, and every row reaches the first row's length, holds only free periods and allocated professors there, and gives each allocated professor the required number of classes; the range error is raised exactly when some entry is out of range |
| Edt.CheckGroupsAccepts | edt.py:92-100 | the per-group checks succeed exactly when every remaining group is accepted and no group lacks an allocation row |
| Edt.CheckSlotsAccepts | edt.py:94-97 | the slot checks succeed exactly when the row is long enough and each non-zero entry is allocated to the group |
| Edt.CheckCountsAccepts | edt.py:99-100 | the count checks succeed exactly when each allocated professor gives the required number of classes |
| Edt.AssertSolution | edt.py:76-100 | as written, a solution is accepted exactly when it meets the conditions above with exactly 3 classes per allocated professor |
| Edt.CheckSolution | edt.py:76-83 | the validator with `nb_course_per_prof` in place of the literal 3 accepts exactly the solutions that give `nb_course_per_prof` classes per allocated professor |
| Edt.UnshuffledRow | edt.py:111-114 | group `g`'s row before its shuffle fills exactly `nb_slots` periods; its multiset is `Edt.RandomSolutionRows` |
| Edt.RandomSolution | edt.py:108-116 | for any shuffles, a random solution has `nb_groups` rows of `nb_slots` cells |
| Edt.RandomSolutionRows | edt.py:109-116 | for any shuffles, row `g` holds each professor `nb_course_per_prof` times per occurrence in its allocation row, and exactly `nb_slots - nb_course_per_prof * nb_prof_per_group` free periods |
| Edt.RandomSolutionCells | edt.py:109-116 | every cell of a random solution is a free period or a professor allocated to that group |
| Edt.RandomSolutionTaught | edt.py:109-116 | when a group's allocation has no repeat, each of its professors teaches it exactly `nb_course_per_prof` times in a random solution |
| Edt.RandomSolutionAccepted | edt.py:108-116 | when no group is allocated a professor twice, every random solution passes the validator with `nb_course_per_prof` in place of the literal 3 |
| Edt.Move | edt.py:123-126 | exchanging cells `i` and `j` of row `g` swaps them in that row and leaves the row count and every other row unchanged |
| Edt.AllNeighbors | edt.py:119-127 | the neighbourhood is never empty and starts with a copy of `s`; the position of every move is `Edt.AllNeighborsAt` |
| Edt.AllNeighborsAt | edt.py:119-127 | the neighbourhood is `s` followed by `nb_groups * nb_slots * (nb_slots - 1) / 2` moves; the move at position `1 + g * m + k` exchanges pair `k` (`i < j`, lexicographic order) of row `g`, so the order is group-major, then `i`, then `j`, and each move starts from the restored buffer |
| Edt.AllNeighborsKeepRows | edt.py:119-127 | every neighbour has as many rows as `s`, and each row keeps its multiset of professors |
| Edt.RandomNeighbor | edt.py:130-136 | fails with the `randint` error exactly when there is no group or no slot; fails with `IndexError` exactly when the drawn row or cell does not exist; otherwise exchanges two (possibly equal) cells of the drawn row and changes nothing else, so every row keeps its multiset |
| Edt.RandomNeighborListed | edt.py:130-136 | every random neighbour is one of the neighbours `all_neighbors` lists |
| Edt.SingleSlot | edt.py:58-116 | the instance with one slot, professor and group is accepted, its allocation is `[[1]]`, every random solution is `[[1]]`, and that solution has cost 0 |
| Edt.AssertSolutionRejectsSingleSlot | edt.py:99-100 | as written, the validator rejects that instance's only solution because the professor gives one class rather than three; the validator with `nb_course_per_prof` in place of the literal 3 accepts it |
| Voyage.RandomSolution | voyage.py:32-35 | for any shuffle, a random solution is a permutation of the cities |
| Voyage.RandomSolutionVisitsAll | voyage.py:32-35 | a random solution has one entry per city, contains exactly the cities `0 .. n-1`, and repeats none |
| Voyage.RandomNeighbor | voyage.py:61-65 | fails with the `randint` error exactly when there is no city; fails with `IndexError` exactly when a drawn position is past the end of `s`; otherwise exchanges the two (possibly equal) positions and keeps every other city |
| Voyage.RandomNeighborTour | voyage.py:61-65 | a random neighbour of a tour is always defined when there is a city, and is again a tour |
| Voyage.AllNeighbors | voyage.py:68-75 | the neighbourhood has `1 + n(n-1)/2` entries and starts with `s` |
| Voyage.AllNeighborsAt | voyage.py:68-75 | entry `1 + k` is `s` with the `k`-th pair `i < j` exchanged, the pairs in lexicographic order, each from the restored buffer |
| Voyage.AllNeighborsTours | voyage.py:68-75 | every neighbour of a tour is a tour |
| Voyage.RandomNeighborListed | voyage.py:61-75 | every random neighbour is one of the listed neighbours |
| Voyage.Cost | voyage.py:84-90 | the cost fails with `IndexError` exactly when the tour is empty or names a city that does not exist; otherwise it is the closed tour's length as an exact sum, the closing leg from the last city back to the first plus one leg per consecutive pair, `n` legs in all |
| Voyage.CostNonNegative | voyage.py:84-90 | with non-negative distances a tour's cost is non-negative |
| Voyage.TourLengthRotate | voyage.py:84-90 | starting the cycle one city later does not change its exact length |
| Voyage.NearestCity | voyage.py:40-47 | the chosen city is in the list, no farther than any listed city, and strictly nearer than every city listed before it, so the first nearest wins |
| Voyage.UnvisitedMembers | voyage.py:50-57 | the remaining list holds exactly the cities not yet on the path |
| Voyage.UnvisitedRemove | voyage.py:53-57 | removing an unvisited city from the remaining list gives the remaining list of the path extended by that city |
| Voyage.ProgressStep | voyage.py:54-57 | each round moves one city from the remaining list to the path, so the path and the remaining list together hold every city once |
| Voyage.ProgressDone | voyage.py:54-58 | when nothing remains the path is a permutation of the cities |
| Voyage.GreedyExtend | voyage.py:54-57 | appending the first nearest remaining city to the last one keeps the path nearest-neighbour built |
| Voyage.NaiveSolution | voyage.py:38-58 | fails with the `randint` error exactly when there is no city; otherwise returns a permutation of the cities that starts at the drawn city, each later city being the first nearest remaining city to its predecessor, after exactly `n - 1` rounds |

## Left out

- Console output and timing: `print`, the `name_and_time` decorator, `print_sol`, plotting, the `__main__` demos, and the random city coordinates.
- Floating point: the tour's `dist` (a square root over coordinates) is an uninterpreted function on city numbers, assumed non-negative where a lemma needs it. Annealing's `exp`, `random.random()` and the `beta` schedule become one oracle bit per iteration. Float rounding in general is not modelled: costs are exact reals.
- The `KeyboardInterrupt` branch of `greedy`: an asynchronous signal, not a sequential behaviour.
- Aliasing: every list is an immutable value. Deep copies are identities, and the inputs are never mutated.
- The shared generator buffer: `all_neighbors` yields one buffer that it swaps and restores. Each yield is modelled by the buffer's contents at that moment, which is what a consumer that evaluates or copies it at once sees.
- Negative integer arguments (and Python's negative indexing that they would trigger): every count and index is a `nat`.
- Edt.AllNeighborsAt: requires the first `nb_groups` rows to reach every slot. On a malformed solution the generator yields some neighbours before its `IndexError`, and that partial output is not modelled.
- Voyage.AllNeighborsAt: requires `s` to have at least `nb_cities` entries, for the same reason.
- Search.Descend: requires whole-number, non-negative costs, as the timetable's are. For the tour's real-valued costs the descent is not proved to terminate.
- Search.Greedy: carries the same requirement of whole-number, non-negative costs, because it runs that descent; the tour's real-valued costs, which the source accepts, are not covered.
- Search.GreedyFixed: carries the same requirement for the same reason; the tour's real-valued costs are not covered.
- Search.SimulatedAnnealing: assumes `beta` stays finite and non-negative. A negative `beta` (from `beta_0 < 0` or `eps < -1`, which the source does not reject) makes `exp(-beta * (tmp_cost - current_cost))` raise `OverflowError` for a draw dear enough that the exponent passes about 709; the model lets the oracle bit decide there instead of failing. With an infinite `beta` a tie gives `exp(nan)`, the test fails and the tie is rejected, which the model does not cover. For a strictly dearer draw the oracle bit may take any value, so the probabilities of acceptance are not modelled.
- Voyage.Cost: the tour's length is an exact sum of reals. The source accumulates floats with `res +=`, and each addition rounds, so the float result can depend on the order of the legs; that rounding is not modelled.
- Voyage.TourLengthRotate: holds for the exact sum only. For the source's float accumulation, rotating the tour changes the order of the additions and can change the last bits of the cost.
- Voyage.NearestCity: requires a non-empty list. Its callers only pass the non-empty remaining list, and the `UnboundLocalError` of an empty list (or of all-infinite distances) is not modelled.
- Edt.Allocate: requires the compatibility equation (in its weaker `<=` form). The constructor only calls `allocate` after checking it.
- Tabu search's "never returns to a tabu solution" is not claimed, because it is false as written: with no strictly cheaper non-tabu neighbour the search stays on its current solution, which is then tabu.

## Findings

| source | as written | input that shows it | evidently intended | confidence | as-written member | corrected member |
|---|---|---|---|---|---|---|
| generic.py:88-89 | when the descent loop ends normally, the `else` clause of the `try` runs a bare `raise` with no exception being handled, which raises `RuntimeError` in Python 3 | any problem and start solution, without a keyboard interrupt | return `(res, history)`, the local minimum and its history | not executed | Search.Greedy | Search.GreedyFixed |
| edt.py:100 | each allocated professor must give exactly 3 classes, a literal, whatever `nb_course_per_prof` is | the instance `(1, 1, 1, 1, 1, 1)` and its only random solution `[[1]]`, rejected because professor 1 gives one class | compare with `nb_course_per_prof`; this intent is inferred only from `random_solution` (edt.py:112-113), which places each allocated professor `nb_course_per_prof` times, while the docstring, the message and both demos say three | not executed | Edt.AssertSolutionRejectsSingleSlot | Edt.CheckSolution |
