# Ring-route Ant Colony Optimizer — a Dafny model

This project models the optimisation core of a campus bus-route planner. The
planner looks for a short closed tour (a "ring route") that leaves a start
stop, visits every other stop exactly once and comes back. It has two parts.

* **The distance matrix builder** (`Haversine`). For every pair of stops `i < j`
  it computes the great-circle distance, scales it by the road factor 1.35, and
  writes the result to both `(i, j)` and `(j, i)` of a zero-initialised n×n
  matrix. It also returns the stop names and coordinates in dictionary order,
  which fixes each stop's index.
* **The Ant Colony Optimizer** (`AntAlgorithm.AntColonyOptimizer`), a class.
  It owns an n×n pheromone matrix (an `array2<real>` that is updated in
  place), the best tour and best distance found so far, and two per-iteration
  histories. In every iteration each ant builds a tour by roulette-wheel
  selection over the unvisited stops. The best tour is replaced only on a
  strict improvement. The iteration's minimum and mean distance are appended
  to the histories. Then the whole matrix decays by `(1 - evaporation)` and
  every ant deposits `1/distance` on each directed edge it used.

Support modules:
* `Reductions` covers the folds the optimizer applies: sum, minimum, mean,
  first minimum, normalisation into probabilities, and the roulette-wheel
  pick.
* `Tours` covers ring tours, path length, per-edge deposits, and listing a set.

Three computations that real arithmetic cannot express are supplied by the
caller as function parameters:
* `pow`, the real power `x ** y`;
* `uniform`, where `uniform(k)` is the `k`-th sample of the random stream;
* `greatCircle`, the trigonometric great-circle distance.

The object's ghost fields record every tour built (`tours`, `tourDistances`)
and each iteration's distances (`rounds`). They let the object invariant
`Valid()` say:
* that the best tour is the first shortest tour ever built;
* that history entry `k` is the minimum and the mean of iteration `k`.

## Model

| member | source | states |
|---|---|---|
| Haversine.HaversineDistance | core/haversine.py:49-52 | the road distance is the great-circle distance times 1.35. It is zero exactly when the great-circle distance is zero, positive exactly when that is positive, and never below a non-negative great-circle distance |
| Haversine.CalculateDistanceMatrix | core/haversine.py:78-92 | names and coordinates follow dictionary order. The matrix is a fresh n×n array with a zero diagonal and is symmetric. For `i < j`, entry `(i, j)` is `HaversineDistance(coords[i], coords[j])` |
| AntAlgorithm.AntColonyOptimizer.constructor | core/ant_algorithm.py:30-57 | the parameters are stored (including the injected `pow` and random stream `uniform`), the draw position starts at 0, and the n×n pheromone matrix is fresh, with every entry `pheromoneInit`. There is no best path, the best distance is +inf, and both histories are empty. The object invariant holds |
| AntAlgorithm.AntColonyOptimizer.ScoresNonNegative | core/ant_algorithm.py:76-87 | when the pheromone and the power of a non-negative base are non-negative, every candidate's score `pheromone^alpha × (100/dist)^beta` is non-negative (the distance factor is 1 when `dist <= 0`) |
| AntAlgorithm.AntColonyOptimizer.CalculateProbabilities | core/ant_algorithm.py:73-98 | the candidates list every unvisited stop exactly once, with one probability per candidate. The probabilities are the normalised scores, in candidate order. For a non-empty unvisited set they sum to 1, and with a non-negative score they form a probability distribution |
| Reductions.NormalizeSumsToOne | core/ant_algorithm.py:89-96 | for at least one candidate, score/total (when total > 0) and the uniform `1/len` fallback both sum to 1 |
| Reductions.NormalizeIsDistribution | core/ant_algorithm.py:89-96 | non-negative scores for at least one candidate normalise to non-negative entries that sum to 1 |
| Tours.ListOf | core/ant_algorithm.py:74 | `list(unvisited)` holds each element of the set exactly once |
| Reductions.Roulette | core/ant_algorithm.py:125 | numpy's cumulative-sum draw always picks an index of the candidate list |
| Reductions.CountAtMostSplits | core/ant_algorithm.py:125 | with non-negative probabilities, the draw is the first slot whose cumulative probability exceeds the sample: every earlier slot's cumulative sum is at most the sample, and every later one exceeds it |
| Reductions.RouletteLandsOnPositive | core/ant_algorithm.py:125 | for a probability distribution and a sample in `[0, 1)`, the wheel never lands on a candidate of probability zero |
| AntAlgorithm.AntColonyOptimizer.BuildPath | core/ant_algorithm.py:110-139 | the result is a ring tour of all `n` stops anchored at `start`: length n+1, first and last entries `start`, and the first n entries pairwise distinct stops below n. `total` is its edge sum, and the ant consumes exactly n-1 samples of the random stream. With non-negative pheromone and power, every probability vector it draws from is a distribution, as `np.random.choice` demands |
| AntAlgorithm.UnvisitedNonEmpty | core/ant_algorithm.py:115-122 | while fewer than n stops are visited, the unvisited set is non-empty, so the `break` on an empty candidate list is never taken |
| AntAlgorithm.ClosingTheRing | core/ant_algorithm.py:115-131 | when the loop ends with every stop visited once, appending the start closes a ring tour |
| Tours.RingTourVisitsEveryStop | core/ant_algorithm.py:110-131 | the first n entries of a ring tour are exactly the stops `{0, ..., n-1}`, each once |
| Tours.RingTourInterior | core/ant_algorithm.py:110-131 | the entries strictly between the two copies of `start` are pairwise distinct and are exactly `{0, ..., n-1} \ {start}` |
| AntAlgorithm.AntColonyOptimizer.TourLength | core/ant_algorithm.py:134-137 | the returned length is the sum of `distance[path[k], path[k+1]]` over consecutive pairs |
| Tours.RingTourDistancePositive | core/ant_algorithm.py:134-137 | with positive off-diagonal distances, a ring tour of at least two stops has a positive length, so `1/distance` is defined |
| Tours.PositiveOffDiagonalRingTours | core/ant_algorithm.py:134-137 | positive distances between different stops, with at least two stops, are one sufficient condition for `RingToursPositive`: every ring tour from `start` then has positive length |
| Tours.CoincidentStopsRingToursPositive | core/ant_algorithm.py:82-85 | for three stops where stops 0 and 1 coincide (distance 0) and the other pairs are 5 apart, every ring tour from 0 has positive length. The precondition thus admits inputs that take the `dist <= 0` branch of the score |
| AntAlgorithm.BestUpdateKeepsFirst | core/ant_algorithm.py:163-165 | one step of `if distance < best_distance` keeps the best equal to the first tour of minimal distance |
| AntAlgorithm.AntColonyOptimizer.RunAnt | core/ant_algorithm.py:158-165 | one ant builds a ring tour from `start` with a positive true length. The tour is appended to the record of tours, the best remains the first shortest tour, and the best distance never increases |
| AntAlgorithm.AntColonyOptimizer.RecordTour | core/ant_algorithm.py:163-165 | the tour and its distance are appended to the record. The best becomes this tour exactly when its distance is strictly below the old best, and otherwise stays unchanged. The best remains the first shortest tour, and the best distance never increases |
| AntAlgorithm.AntColonyOptimizer.RunAnts | core/ant_algorithm.py:153-165 | exactly `nAnts` ring tours from `start` are built, in order, with their positive true lengths. The best remains the first shortest tour built, and the best distance never increases |
| AntAlgorithm.WellBuiltAppend | core/ant_algorithm.py:157-160 | appending an iteration's ring tours and their lengths keeps the record of all tours well built |
| AntAlgorithm.AntColonyOptimizer.RecordRound | core/ant_algorithm.py:167-169 | each history grows by exactly one entry: the minimum and the mean of the iteration's distances. The history invariant is re-established |
| AntAlgorithm.AntColonyOptimizer.Evaporate | core/ant_algorithm.py:171-172 | every entry of the matrix is multiplied by `1 - evaporation` |
| AntAlgorithm.AntColonyOptimizer.Deposit | core/ant_algorithm.py:174-178 | every entry `(i, j)` grows by exactly `TotalDeposit`, the sum of `1/distance` over every ant and position whose directed edge is `(i, j)` |
| Tours.PathDepositExact | core/ant_algorithm.py:177-178 | one ant's deposit on `i -> j` is non-negative, and it is positive exactly when its path takes the directed edge `i -> j` |
| Tours.TotalDepositExact | core/ant_algorithm.py:175-178 | the iteration's deposit on `i -> j` is non-negative, and it is positive exactly when some ant's tour takes `i -> j` (the reverse edge does not count) |
| AntAlgorithm.AntColonyOptimizer.UpdatePheromone | core/ant_algorithm.py:171-178 | each entry becomes its old value × `(1 - evaporation)` plus its deposit. It differs from the decayed value exactly when some ant took that directed edge. With `0 <= evaporation <= 1`, non-negative pheromone stays non-negative |
| AntAlgorithm.AntColonyOptimizer.Iterate | core/ant_algorithm.py:152-178 | one iteration keeps the object invariant and appends `nAnts` tours anchored at `start`. Each history grows by the iteration's minimum and mean, and the best distance never increases. With `0 <= evaporation <= 1`, the pheromone stays non-negative |
| AntAlgorithm.AntColonyOptimizer.Solve | core/ant_algorithm.py:141-184 | `Solve` keeps the object invariant and returns the state it ends with. Each call appends exactly `nIterations` entries to both histories without touching the earlier ones. Every new tour is a ring tour anchored at `start`, and the best distance never increases. After at least one iteration, a best path exists and the best distance equals the minimum of the best-distance history. With `0 <= evaporation <= 1`, the pheromone stays non-negative throughout |
| AntAlgorithm.AntColonyOptimizer.HistoryBestAtMostAverage | core/ant_algorithm.py:168-169 | entry `k` of the best-distance history never exceeds entry `k` of the average history |
| AntAlgorithm.AntColonyOptimizer.BestIsMinimumOfHistory | core/ant_algorithm.py:163-169 | once an iteration has run, the best distance is the minimum of the best-distance history, and so at most each entry |
| AntAlgorithm.AntColonyOptimizer.BestIsFirstShortestTour | core/ant_algorithm.py:163-165 | once a tour is built, the best path is a ring tour that some ant built and the best distance is its length. No tour built is shorter, and every tour built before it was strictly longer (a tie keeps the first) |
| Reductions.FirstArgMinIsFirstMinimum | core/ant_algorithm.py:163-165 | a scan that replaces its best only on strict improvement ends on the first position that holds the minimum |
| Reductions.Min | core/ant_algorithm.py:168 | `min` of a non-empty list is one of its entries and at most every entry |
| Reductions.MinOfConcat | core/ant_algorithm.py:163-168 | the minimum over all iterations' distances together equals the minimum of the per-iteration minima |
| Reductions.MinAtMostMean | core/ant_algorithm.py:168-169 | the minimum of a non-empty list never exceeds its mean |

## Left out

- The progress callback (core/ant_algorithm.py:181-182) is an external side effect and is not modelled.
- `np.random.choice` is modelled as the cumulative-sum draw over a sample from the injected stream `uniform`. The seeded generator that produces the samples is not modelled. numpy's rescaling of the cumulative sums by their last entry is also omitted: the probabilities sum to exactly 1 in real arithmetic, so the rescaling changes nothing.
- The real power `x ** y` is the injected `pow`. Non-negativity of the scores is proved only under the stated assumption that `pow` of a non-negative base is non-negative.
- The trigonometric body of `haversine_distance` (radians, sin, cos, arcsin, sqrt, Earth radius) is the injected `greatCircle`.
- Distances and pheromone are reals, not IEEE doubles: rounding, overflow and `nan` are not modelled.
- `RunAnt`, `RunAnts`, `Iterate` and `Solve` require `RingToursPositive`: every ring tour from `start` has positive length. With a zero-length tour, the source's `1.0 / distance` yields an infinite deposit under numpy, and the model's reals cannot represent that. Zero distances between different stops are allowed as long as no tour sums to zero, so the score's `dist <= 0` branch (`eta = 1`) stays reachable.
- `Solve` returns the histories as values. The source returns the object's own `best_distances` and `avg_distances` lists (core/ant_algorithm.py:184), so a list returned by one `solve` call keeps growing when `solve` runs again. That aliasing is not modelled.
- `Solve` requires `nAnts >= 1` whenever `nIterations >= 1`, because `min([])` raises in the source. The model does not include that exception path.
- The order of `list(unvisited)` is left open, as in Python: `Tours.ListOf` chooses elements in an unspecified order, so results are not claimed to be deterministic.
- AntAlgorithm.AntColonyOptimizer.Iterate: states its pheromone effect only as preserved non-negativity. The exact per-entry formula and the "changed exactly on traversed edges" property are stated by `UpdatePheromone`, which `Iterate` calls.
- AntAlgorithm.AntColonyOptimizer.RunAnts: does not state how many samples of the random stream the ant loop consumes. `RunAnt` and `BuildPath` state it per ant (n-1 samples).
- AntAlgorithm.AntColonyOptimizer.CalculateProbabilities: non-negativity of the probabilities holds only when `pow` of a non-negative base is non-negative and the pheromone is non-negative. The sum to 1 holds unconditionally.
- The source has no input validation: no check of the matrix shape, parameter ranges, stop count or coordinate ranges, and no error is raised. The model follows the code and states these conditions as preconditions (a square matrix, a start below n).
- The `ValueError` that `np.random.choice` raises on a negative probability is not modelled. That case arises from negative pheromone, which an evaporation rate above 1 or a negative initial pheromone produces. `BuildPath`, `RunAnt` and `RunAnts` therefore require non-negative pheromone and a power that is non-negative on a non-negative base. `Iterate` and `Solve` also require `0 <= evaporation <= 1`. Under these conditions no probability is negative, and the pheromone stays non-negative from one iteration to the next.
- The class docstring (core/ant_algorithm.py:20) and the docstring of `_calculate_probabilities` (core/ant_algorithm.py:63-64) describe the distance factor as `(1/dist)^beta`. The code computes `(100/dist)^beta`, and the model follows the code.
- The Streamlit UI (main.py), plotting and KML export (visual/plotting.py), the Google Maps client (core/matrix_utils.py), and the constants and stop data (config.py, data/coordinates.py) are I/O and presentation, and are not part of this model. The only constant taken from them is the road factor 1.35.
