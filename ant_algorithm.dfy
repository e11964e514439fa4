/**
 * The Ant Colony Optimizer for the closed travelling-salesman tour (a
 * "ring route" that leaves a start stop, visits every other stop once and
 * returns).  The optimizer owns an n×n pheromone matrix that it decays and
 * reinforces in place, the best tour found so far with its distance, and
 * the per-iteration best and average distances.
 *
 * Two things the program takes from numpy are supplied from outside:
 * `pow`, the real power `x ** y` used in the selection score, and
 * `uniform`, numpy's random stream, which gives the `n`-th uniform sample
 * that `np.random.choice` turns into a roulette-wheel pick.
 */
module AntAlgorithm {
  import opened Reductions
  import opened Tours

  datatype Option<T> = None | Some(value: T)

  /** A tour distance or the initial `float('inf')`. */
  datatype Extended = PosInf | Fin(value: real)

  /** `d < e` where `e` may be infinite. */
  predicate Below(d: real, e: Extended)
  {
    e.PosInf? || d < e.value
  }

  /** `e <= f` on extended distances. */
  predicate AtMost(e: Extended, f: Extended)
  {
    f.PosInf? || (e.Fin? && e.value <= f.value)
  }

  /** A power of a non-negative base is non-negative. */
  ghost predicate PowValid(pow: (real, real) -> real)
  {
    forall x: real, y: real :: 0.0 <= x ==> 0.0 <= pow(x, y)
  }

  /**
   * The best tour and distance that a scan over `tours` (with distances
   * `dists`) ends with when it starts from "none" and `+inf` and replaces
   * the best only on a strict improvement: the first tour of minimal
   * distance.
   */
  ghost predicate KeepsFirstBest(bestPath: Option<seq<nat>>, bestDistance: Extended, tours: seq<seq<nat>>, dists: seq<real>)
    requires |tours| == |dists|
  {
    if dists == [] then bestPath == None && bestDistance == PosInf
    else
      var i := FirstArgMin(dists);
      bestPath == Some(tours[i]) && bestDistance == Fin(dists[i])
  }

  /**
   * One step of the best-tour update (`if distance < best_distance`) keeps
   * the best equal to the first tour of minimal distance.
   */
  lemma BestUpdateKeepsFirst(bestPath: Option<seq<nat>>, bestDistance: Extended, tours: seq<seq<nat>>,
                             dists: seq<real>, path: seq<nat>, d: real)
    requires |tours| == |dists|
    requires KeepsFirstBest(bestPath, bestDistance, tours, dists)
    ensures Below(d, bestDistance) ==> KeepsFirstBest(Some(path), Fin(d), tours + [path], dists + [d])
    ensures !Below(d, bestDistance) ==> KeepsFirstBest(bestPath, bestDistance, tours + [path], dists + [d])
  {
    var ts, ds := tours + [path], dists + [d];
    assert ds[..|ds| - 1] == dists;
    if dists == [] {
      assert ts[0] == path && ds[0] == d;
    } else {
      var i := FirstArgMin(dists);
      assert FirstArgMin(ds) == if d < dists[i] then |dists| else i;
      assert ts[i] == tours[i] && ds[i] == dists[i];
      assert ts[|dists|] == path && ds[|dists|] == d;
    }
  }

  /** While fewer than `n` stops are visited, some stop is still unvisited. */
  lemma UnvisitedNonEmpty(visited: set<nat>, n: nat)
    requires visited <= Range(n) && |visited| < n
    ensures Range(n) - visited != {}
  {
  }

  /** Once every stop is visited, appending the start closes a ring tour. */
  lemma ClosingTheRing(path: seq<nat>, visited: set<nat>, start: nat, n: nat)
    requires |path| >= 1 && path[0] == start
    requires Distinct(path) && visited == Elements(path) && |visited| == |path|
    requires visited <= Range(n) && |visited| >= n
    ensures IsRingTour(path + [start], start, n)
  {
    SubsetOfSameSize(visited, Range(n));
    var t := path + [start];
    forall k | 0 <= k < n ensures t[k] < n {
      assert t[k] == path[k] && path[k] in visited;
    }
    forall a, b | 0 <= a < b < n ensures t[a] != t[b] {
      assert t[a] == path[a] && t[b] == path[b];
    }
  }

  /**
   * `bests[k]` and `avgs[k]` are the minimum and the mean of the
   * non-empty round `rounds[k]`.
   */
  ghost predicate StatsOf(rounds: seq<seq<real>>, bests: seq<real>, avgs: seq<real>)
  {
    && |rounds| == |bests| && |rounds| == |avgs|
    && AllNonEmpty(rounds)
    && (forall k :: 0 <= k < |rounds| ==> bests[k] == Min(rounds[k]) && avgs[k] == Mean(rounds[k]))
  }

  /**
   * Every tour is a ring tour of the `n` stops (anchored wherever it
   * starts) and `dists` holds its length under `d`.
   */
  ghost predicate WellBuilt(d: array2<real>, n: nat, tours: seq<seq<nat>>, dists: seq<real>)
    reads d
    requires |tours| == |dists|
  {
    forall a :: 0 <= a < |tours| ==>
      |tours[a]| > 0 && IsRingTour(tours[a], tours[a][0], n)
      && InBounds(d, tours[a]) && dists[a] == PathDistance(d, tours[a])
  }

  /** Appending ring tours anchored at `start`, with their lengths, keeps `WellBuilt`. */
  lemma WellBuiltAppend(d: array2<real>, n: nat, tours: seq<seq<nat>>, dists: seq<real>,
                        paths: seq<seq<nat>>, pathDists: seq<real>, start: nat)
    requires |tours| == |dists| && |paths| == |pathDists|
    requires WellBuilt(d, n, tours, dists)
    requires forall a :: 0 <= a < |paths| ==>
               IsRingTour(paths[a], start, n) && InBounds(d, paths[a]) && pathDists[a] == PathDistance(d, paths[a])
    ensures WellBuilt(d, n, tours + paths, dists + pathDists)
  {
  }

  class AntColonyOptimizer {
    const distance: array2<real>
    const nAnts: nat
    const nIterations: nat
    const alpha: real
    const beta: real
    const evaporation: real
    const nPoints: nat
    const pheromone: array2<real>
    const pow: (real, real) -> real
    const uniform: nat -> real

    /** Position in the random stream: the number of draws made so far. */
    var draws: nat
    var bestPath: Option<seq<nat>>
    var bestDistance: Extended
    var bestDistances: seq<real>
    var avgDistances: seq<real>

    /** Every tour the ants have built, in order, with its distance. */
    ghost var tours: seq<seq<nat>>
    ghost var tourDistances: seq<real>
    /** The ant distances of each iteration, in order. */
    ghost var rounds: seq<seq<real>>

    /** The shape the two matrices must have. */
    ghost predicate WellFormed()
    {
      && distance.Length0 == nPoints && distance.Length1 == nPoints
      && pheromone.Length0 == nPoints && pheromone.Length1 == nPoints
      && pheromone != distance
    }

    /**
     * Every tour built is a ring tour with its true distance, and the best
     * is the first tour of minimal distance.
     */
    ghost predicate ToursValid()
      reads this`tours, this`tourDistances, this`bestPath, this`bestDistance, distance
    {
      && |tours| == |tourDistances|
      && WellBuilt(distance, nPoints, tours, tourDistances)
      && KeepsFirstBest(bestPath, bestDistance, tours, tourDistances)
    }

    /**
     * Entry `k` of the two histories is the minimum and the mean of
     * iteration `k`'s distances, and the iterations together produced
     * exactly the distances of all tours built.
     */
    ghost predicate HistoryValid()
      reads this`rounds, this`bestDistances, this`avgDistances, this`tourDistances
    {
      StatsOf(rounds, bestDistances, avgDistances) && Concat(rounds) == tourDistances
    }

    /** The object invariant. */
    ghost predicate Valid()
      reads this, distance
    {
      WellFormed() && ToursValid() && HistoryValid()
    }

    /** Every pheromone entry is non-negative. */
    ghost predicate PheromoneNonNegative()
      reads pheromone
    {
      forall i, j :: 0 <= i < pheromone.Length0 && 0 <= j < pheromone.Length1 ==> 0.0 <= pheromone[i, j]
    }

    /**
     * Sets up an n×n pheromone matrix with every entry `pheromoneInit`, no
     * best tour, a best distance of `+inf` and empty histories.
     */
    constructor (distanceMatrix: array2<real>, pow: (real, real) -> real, uniform: nat -> real,
                 nAnts: nat := 30, nIterations: nat := 100, alpha: real := 1.0, beta: real := 2.0,
                 evaporation: real := 0.3, pheromoneInit: real := 0.5)
      requires distanceMatrix.Length0 == distanceMatrix.Length1
      ensures Valid() && fresh(pheromone)
      ensures distance == distanceMatrix && nPoints == distanceMatrix.Length0
      ensures this.nAnts == nAnts && this.nIterations == nIterations && this.alpha == alpha
      ensures this.beta == beta && this.evaporation == evaporation
      ensures this.pow == pow && this.uniform == uniform && draws == 0
      ensures forall i, j :: 0 <= i < nPoints && 0 <= j < nPoints ==> pheromone[i, j] == pheromoneInit
      ensures bestPath == None && bestDistance == PosInf
      ensures bestDistances == [] && avgDistances == []
      ensures tours == [] && rounds == []
    {
      distance := distanceMatrix;
      this.nAnts := nAnts;
      this.nIterations := nIterations;
      this.alpha := alpha;
      this.beta := beta;
      this.evaporation := evaporation;
      this.pow := pow;
      this.uniform := uniform;
      nPoints := distanceMatrix.Length0;
      pheromone := new real[distanceMatrix.Length0, distanceMatrix.Length0]((_, _) => pheromoneInit);
      draws := 0;
      bestPath := None;
      bestDistance := PosInf;
      bestDistances := [];
      avgDistances := [];
      tours := [];
      tourDistances := [];
      rounds := [];
    }

    /**
     * Selection score of moving from `current` to `next`:
     * `pheromone^alpha * (100/dist)^beta`, where the distance factor is 1
     * when the distance is not positive.
     */
    function Score(current: nat, next: nat): real
      reads pheromone, distance
      requires WellFormed() && current < nPoints && next < nPoints
    {
      var tau := pow(pheromone[current, next], alpha);
      var dist := distance[current, next];
      var eta := if dist > 0.0 then pow(100.0 / dist, beta) else 1.0;
      tau * eta
    }

    /** The scores of the candidates, in candidate order. */
    function Scores(current: nat, candidates: seq<nat>): (s: seq<real>)
      reads pheromone, distance
      requires WellFormed() && current < nPoints
      requires forall k :: 0 <= k < |candidates| ==> candidates[k] < nPoints
      ensures |s| == |candidates|
    {
      if candidates == [] then []
      else Scores(current, candidates[..|candidates| - 1]) + [Score(current, candidates[|candidates| - 1])]
    }

    /** With non-negative pheromone every score is non-negative. */
    lemma {:induction false} ScoresNonNegative(current: nat, candidates: seq<nat>)
      requires WellFormed() && current < nPoints && PowValid(pow) && PheromoneNonNegative()
      requires forall k :: 0 <= k < |candidates| ==> candidates[k] < nPoints
      ensures forall k :: 0 <= k < |candidates| ==> 0.0 <= Scores(current, candidates)[k]
    {
      if candidates != [] {
        var init := candidates[..|candidates| - 1];
        ScoresNonNegative(current, init);
        var next := candidates[|candidates| - 1];
        var dist := distance[current, next];
        assert 0.0 <= pow(pheromone[current, next], alpha);
        if dist > 0.0 {
          assert 0.0 <= 100.0 / dist;
          assert 0.0 <= pow(100.0 / dist, beta);
        }
        ProductNonNegative(pow(pheromone[current, next], alpha), if dist > 0.0 then pow(100.0 / dist, beta) else 1.0);
      }
    }

    /**
     * Selection probabilities for moving on from `current`: the unvisited
     * stops as a list (each once, in unspecified order) and, per entry,
     * its score over the total score, or the uniform `1/len` when the total
     * is not positive.  With non-negative pheromone and at least one
     * candidate they form a probability distribution.
     */
    method CalculateProbabilities(current: nat, unvisited: set<nat>) returns (probs: seq<real>, possibleNext: seq<nat>)
      requires WellFormed() && current < nPoints
      requires unvisited <= Range(nPoints)
      ensures Distinct(possibleNext) && Elements(possibleNext) == unvisited
      ensures |possibleNext| == |unvisited| && |probs| == |possibleNext|
      ensures forall k :: 0 <= k < |possibleNext| ==> possibleNext[k] < nPoints
      ensures probs == Normalize(Scores(current, possibleNext))
      ensures unvisited != {} ==> Sum(probs) == 1.0
      ensures PowValid(pow) && PheromoneNonNegative() && unvisited != {} ==> IsDistribution(probs)
    {
      possibleNext := ListOf(unvisited);
      assert forall k :: 0 <= k < |possibleNext| ==> possibleNext[k] in Elements(possibleNext);
      var probabilities: seq<real> := [];
      for k := 0 to |possibleNext|
        invariant probabilities == Scores(current, possibleNext[..k])
      {
        var nextNode := possibleNext[k];
        var tau := pow(pheromone[current, nextNode], alpha);
        var dist := distance[current, nextNode];
        var eta: real;
        if dist > 0.0 {
          eta := pow(100.0 / dist, beta);
        } else {
          eta := 1.0;
        }
        assert possibleNext[..k + 1][..k] == possibleNext[..k];
        assert tau * eta == Score(current, possibleNext[..k + 1][k]);
        probabilities := probabilities + [tau * eta];
      }
      assert possibleNext[..|possibleNext|] == possibleNext;
      probs := Normalize(probabilities);
      if unvisited != {} {
        NormalizeSumsToOne(probabilities);
      }
      if PowValid(pow) && PheromoneNonNegative() && unvisited != {} {
        ScoresNonNegative(current, possibleNext);
        NormalizeIsDistribution(probabilities);
      }
    }

    /**
     * One ant's tour from `start`: repeatedly draw the next stop among the
     * unvisited ones, then return to `start`.  The result is a ring tour of
     * all stops, `total` is its length, and the ant made `nPoints - 1`
     * draws from the random stream, starting at position `draw`.
     */
    method BuildPath(start: nat, draw: nat) returns (path: seq<nat>, total: real, nextDraw: nat)
      requires WellFormed() && start < nPoints
      requires PowValid(pow) && PheromoneNonNegative()
      ensures IsRingTour(path, start, nPoints)
      ensures InBounds(distance, path) && total == PathDistance(distance, path)
      ensures nextDraw == draw + nPoints - 1
    {
      path := [start];
      var visited: set<nat> := {start};
      var current := start;
      nextDraw := draw;
      while |visited| < nPoints
        invariant |path| >= 1 && path[0] == start && current == path[|path| - 1] && current < nPoints
        invariant Distinct(path) && visited == Elements(path) && |visited| == |path|
        invariant visited <= Range(nPoints)
        invariant nextDraw == draw + |path| - 1
        decreases nPoints - |visited|
      {
        var unvisited := Range(nPoints) - visited;
        UnvisitedNonEmpty(visited, nPoints);
        var probs, possibleNext := CalculateProbabilities(current, unvisited);
        if |possibleNext| == 0 {
          assert false;
          break;
        }
        // a valid argument for `np.random.choice`: no negative probability
        assert IsDistribution(probs);
        var k := Roulette(probs, uniform(nextDraw));
        nextDraw := nextDraw + 1;
        var nextNode := possibleNext[k];
        assert nextNode in Elements(possibleNext);
        AppendFresh(path, nextNode);
        path := path + [nextNode];
        visited := visited + {nextNode};
        current := nextNode;
      }
      ClosingTheRing(path, visited, start, nPoints);
      path := path + [start];
      RingTourInBounds(distance, path, start, nPoints);
      total := TourLength(path);
    }

    /** `sum(distance[path[k]][path[k+1]] for k in range(len(path) - 1))`. */
    method TourLength(path: seq<nat>) returns (total: real)
      requires InBounds(distance, path)
      ensures total == PathDistance(distance, path)
    {
      total := 0.0;
      if |path| == 0 {
        return;
      }
      for k := 0 to |path| - 1
        invariant total == PathDistance(distance, path[..k + 1])
      {
        assert path[..k + 2][..k + 1] == path[..k + 1];
        total := total + distance[path[k], path[k + 1]];
      }
      assert path[..|path|] == path;
    }

    /** `pheromone *= (1 - evaporation)`: every entry decays by the same factor. */
    method Evaporate()
      requires WellFormed()
      modifies pheromone
      ensures forall i, j :: 0 <= i < nPoints && 0 <= j < nPoints ==>
                pheromone[i, j] == old(pheromone[i, j]) * (1.0 - evaporation)
    {
      for i := 0 to nPoints
        invariant forall p, q :: 0 <= p < nPoints && 0 <= q < nPoints ==>
                    pheromone[p, q] == if p < i then old(pheromone[p, q]) * (1.0 - evaporation) else old(pheromone[p, q])
      {
        for j := 0 to nPoints
          invariant forall p, q :: 0 <= p < nPoints && 0 <= q < nPoints ==>
                      pheromone[p, q] == if p < i || (p == i && q < j) then old(pheromone[p, q]) * (1.0 - evaporation)
                                         else old(pheromone[p, q])
        {
          pheromone[i, j] := pheromone[i, j] * (1.0 - evaporation);
        }
      }
    }

    /**
     * Reinforcement: every ant adds `1/distance` to each directed edge
     * `(path[k], path[k+1])` of its tour, once per use.
     */
    method Deposit(paths: seq<seq<nat>>, dists: seq<real>)
      requires WellFormed()
      requires |paths| == |dists| && AllPositive(dists)
      requires forall a :: 0 <= a < |paths| ==> InBounds(distance, paths[a])
      modifies pheromone
      ensures forall i, j :: 0 <= i < nPoints && 0 <= j < nPoints ==>
                pheromone[i, j] == old(pheromone[i, j]) + TotalDeposit(paths, dists, i, j)
    {
      for a := 0 to |paths|
        invariant AllPositive(dists[..a])
        invariant forall i, j :: 0 <= i < nPoints && 0 <= j < nPoints ==>
                    pheromone[i, j] == old(pheromone[i, j]) + TotalDeposit(paths[..a], dists[..a], i, j)
      {
        var path := paths[a];
        var increase := 1.0 / dists[a];
        assert InBounds(distance, path);
        if |path| > 0 {
          for k := 0 to |path| - 1
            invariant forall i, j :: 0 <= i < nPoints && 0 <= j < nPoints ==>
                        pheromone[i, j] == old(pheromone[i, j]) + TotalDeposit(paths[..a], dists[..a], i, j)
                                           + PathDeposit(path[..k + 1], increase, i, j)
          {
            assert path[..k + 2][..k + 1] == path[..k + 1];
            pheromone[path[k], path[k + 1]] := pheromone[path[k], path[k + 1]] + increase;
          }
          assert path[..|path|] == path;
        }
        assert paths[..a + 1][..a] == paths[..a] && dists[..a + 1][..a] == dists[..a];
        assert AllPositive(dists[..a + 1]);
      }
      assert paths[..|paths|] == paths && dists[..|dists|] == dists;
    }

    /**
     * One ant of the ant loop: it builds a ring tour from `start` with the
     * next draws of the random stream, and the best tour and distance are
     * replaced when its distance is strictly below the best so far.
     */
    method RunAnt(start: nat) returns (path: seq<nat>, d: real)
      requires WellFormed() && start < nPoints && RingToursPositive(distance, start, nPoints)
      requires PowValid(pow) && PheromoneNonNegative()
      requires |tours| == |tourDistances| && KeepsFirstBest(bestPath, bestDistance, tours, tourDistances)
      modifies this`draws, this`bestPath, this`bestDistance, this`tours, this`tourDistances
      ensures |tours| == |tourDistances| && KeepsFirstBest(bestPath, bestDistance, tours, tourDistances)
      ensures IsRingTour(path, start, nPoints) && InBounds(distance, path)
      ensures d == PathDistance(distance, path) && d > 0.0
      ensures draws == old(draws) + nPoints - 1
      ensures tours == old(tours) + [path] && tourDistances == old(tourDistances) + [d]
      ensures AtMost(bestDistance, old(bestDistance))
    {
      var nd;
      path, d, nd := BuildPath(start, draws);
      draws := nd;
      RecordTour(path, d);
    }

    /**
     * The best-tour update after one ant: the tour replaces the best when
     * its distance is strictly below the best so far (a tie keeps the
     * earlier tour).
     */
    method RecordTour(path: seq<nat>, d: real)
      requires |tours| == |tourDistances| && KeepsFirstBest(bestPath, bestDistance, tours, tourDistances)
      modifies this`bestPath, this`bestDistance, this`tours, this`tourDistances
      ensures |tours| == |tourDistances| && KeepsFirstBest(bestPath, bestDistance, tours, tourDistances)
      ensures tours == old(tours) + [path] && tourDistances == old(tourDistances) + [d]
      ensures Below(d, old(bestDistance)) ==> bestPath == Some(path) && bestDistance == Fin(d)
      ensures !Below(d, old(bestDistance)) ==> bestPath == old(bestPath) && bestDistance == old(bestDistance)
      ensures AtMost(bestDistance, old(bestDistance))
    {
      BestUpdateKeepsFirst(bestPath, bestDistance, tours, tourDistances, path, d);
      if Below(d, bestDistance) {
        bestDistance := Fin(d);
        bestPath := Some(path);
      }
      tours := tours + [path];
      tourDistances := tourDistances + [d];
    }

    /**
     * The ant loop of one iteration of `solve`: each of the `nAnts` ants
     * in turn runs `RunAnt`; the tours and distances are collected in
     * order.
     */
    method RunAnts(start: nat) returns (allPaths: seq<seq<nat>>, allDistances: seq<real>)
      requires WellFormed() && start < nPoints && RingToursPositive(distance, start, nPoints)
      requires PowValid(pow) && PheromoneNonNegative()
      requires |tours| == |tourDistances| && KeepsFirstBest(bestPath, bestDistance, tours, tourDistances)
      modifies this`draws, this`bestPath, this`bestDistance, this`tours, this`tourDistances
      ensures |tours| == |tourDistances| && KeepsFirstBest(bestPath, bestDistance, tours, tourDistances)
      ensures |allPaths| == nAnts && |allDistances| == nAnts && AllPositive(allDistances)
      ensures forall a :: 0 <= a < nAnts ==>
                IsRingTour(allPaths[a], start, nPoints) && InBounds(distance, allPaths[a])
                && allDistances[a] == PathDistance(distance, allPaths[a])
      ensures tours == old(tours) + allPaths && tourDistances == old(tourDistances) + allDistances
      ensures AtMost(bestDistance, old(bestDistance))
    {
      allPaths := [];
      allDistances := [];
      for ant := 0 to nAnts
        invariant |tours| == |tourDistances| && KeepsFirstBest(bestPath, bestDistance, tours, tourDistances)
        invariant |allPaths| == ant && |allDistances| == ant && AllPositive(allDistances)
        invariant forall a :: 0 <= a < ant ==>
                    IsRingTour(allPaths[a], start, nPoints) && InBounds(distance, allPaths[a])
                    && allDistances[a] == PathDistance(distance, allPaths[a])
        invariant tours == old(tours) + allPaths && tourDistances == old(tourDistances) + allDistances
        invariant AtMost(bestDistance, old(bestDistance))
      {
        var path, d := RunAnt(start);
        allPaths := allPaths + [path];
        allDistances := allDistances + [d];
      }
    }

    /**
     * The statistics step of one iteration: the minimum and the mean of
     * the iteration's distances are appended to the two histories.
     */
    method RecordRound(allDistances: seq<real>)
      requires allDistances != []
      requires StatsOf(rounds, bestDistances, avgDistances)
      requires tourDistances == Concat(rounds) + allDistances
      modifies this`bestDistances, this`avgDistances, this`rounds
      ensures HistoryValid()
      ensures bestDistances == old(bestDistances) + [Min(allDistances)]
      ensures avgDistances == old(avgDistances) + [Mean(allDistances)]
      ensures rounds == old(rounds) + [allDistances]
    {
      bestDistances := bestDistances + [Min(allDistances)];
      avgDistances := avgDistances + [Mean(allDistances)];
      assert (rounds + [allDistances])[..|rounds|] == rounds;
      rounds := rounds + [allDistances];
    }

    /**
     * The pheromone step of one iteration: the whole matrix decays, then
     * every ant deposits on the edges it used.  An entry ends up different
     * from its decayed value exactly when some ant took that directed
     * edge, and with an evaporation rate in `[0, 1]` no entry turns
     * negative.
     */
    method UpdatePheromone(paths: seq<seq<nat>>, dists: seq<real>)
      requires WellFormed()
      requires |paths| == |dists| && AllPositive(dists)
      requires forall a :: 0 <= a < |paths| ==> InBounds(distance, paths[a])
      modifies pheromone
      ensures forall i, j :: 0 <= i < nPoints && 0 <= j < nPoints ==>
                pheromone[i, j] == old(pheromone[i, j]) * (1.0 - evaporation) + TotalDeposit(paths, dists, i, j)
      ensures forall i, j :: 0 <= i < nPoints && 0 <= j < nPoints ==>
                (pheromone[i, j] != old(pheromone[i, j]) * (1.0 - evaporation)
                 <==> exists a :: 0 <= a < |paths| && Traverses(paths[a], i, j))
      ensures 0.0 <= evaporation <= 1.0 && old(PheromoneNonNegative()) ==> PheromoneNonNegative()
    {
      Evaporate();
      Deposit(paths, dists);
      forall i, j | 0 <= i < nPoints && 0 <= j < nPoints
        ensures pheromone[i, j] != old(pheromone[i, j]) * (1.0 - evaporation)
                <==> exists a :: 0 <= a < |paths| && Traverses(paths[a], i, j)
        ensures 0.0 <= evaporation <= 1.0 && 0.0 <= old(pheromone[i, j]) ==> 0.0 <= pheromone[i, j]
      {
        TotalDepositExact(paths, dists, i, j);
        if 0.0 <= evaporation <= 1.0 && 0.0 <= old(pheromone[i, j]) {
          ProductNonNegative(old(pheromone[i, j]), 1.0 - evaporation);
        }
      }
    }

    /**
     * One iteration of `solve`: the ant loop, the statistics step and the
     * pheromone step, in that order.
     */
    method Iterate(start: nat) returns (allPaths: seq<seq<nat>>, allDistances: seq<real>)
      requires Valid() && start < nPoints && RingToursPositive(distance, start, nPoints) && nAnts >= 1
      requires PowValid(pow) && 0.0 <= evaporation <= 1.0 && PheromoneNonNegative()
      modifies this, pheromone
      ensures Valid()
      ensures |allPaths| == nAnts && |allDistances| == nAnts
      ensures forall a :: 0 <= a < nAnts ==> |allPaths[a]| > 0 && allPaths[a][0] == start
      ensures tours == old(tours) + allPaths && tourDistances == old(tourDistances) + allDistances
      ensures rounds == old(rounds) + [allDistances]
      ensures bestDistances == old(bestDistances) + [Min(allDistances)]
      ensures avgDistances == old(avgDistances) + [Mean(allDistances)]
      ensures AtMost(bestDistance, old(bestDistance))
      ensures PheromoneNonNegative()
    {
      allPaths, allDistances := RunAnts(start);
      WellBuiltAppend(distance, nPoints, old(tours), old(tourDistances), allPaths, allDistances, start);
      RecordRound(allDistances);
      UpdatePheromone(allPaths, allDistances);
    }

    /**
     * Runs `nIterations` iterations from `start` and returns the best tour,
     * its distance and the two histories.  The state is not reset, so
     * repeated calls keep accumulating.  Each call appends exactly
     * `nIterations` entries to both histories, never increases the best
     * distance, and every tour built on the way is a ring tour anchored at
     * `start`.
     */
    method Solve(start: nat := 0) returns (path: Option<seq<nat>>, dist: Extended, bests: seq<real>, avgs: seq<real>)
      requires Valid() && start < nPoints && RingToursPositive(distance, start, nPoints)
      requires nIterations == 0 || nAnts >= 1
      requires PowValid(pow) && 0.0 <= evaporation <= 1.0 && PheromoneNonNegative()
      modifies this, pheromone
      ensures Valid()
      ensures path == bestPath && dist == bestDistance && bests == bestDistances && avgs == avgDistances
      ensures |bestDistances| == |old(bestDistances)| + nIterations
      ensures old(bestDistances) <= bestDistances
      ensures |avgDistances| == |old(avgDistances)| + nIterations
      ensures old(avgDistances) <= avgDistances
      ensures old(tours) <= tours
      ensures forall a :: |old(tours)| <= a < |tours| ==> IsRingTour(tours[a], start, nPoints)
      ensures AtMost(bestDistance, old(bestDistance))
      ensures nIterations >= 1 ==> tours != [] && bestPath.Some?
      ensures nIterations >= 1 ==> bestDistances != [] && bestDistance == Fin(Min(bestDistances))
      ensures PheromoneNonNegative()
    {
      for iteration := 0 to nIterations
        invariant Valid()
        invariant |bestDistances| == |old(bestDistances)| + iteration
        invariant old(bestDistances) <= bestDistances
        invariant |avgDistances| == |old(avgDistances)| + iteration
        invariant old(avgDistances) <= avgDistances
        invariant old(tours) <= tours
        invariant forall a :: |old(tours)| <= a < |tours| ==> |tours[a]| > 0 && tours[a][0] == start
        invariant AtMost(bestDistance, old(bestDistance))
        invariant iteration >= 1 ==> tours != []
        invariant PheromoneNonNegative()
      {
        var paths, dists := Iterate(start);
        assert tours[0] == tours[..1][0];
      }
      forall a | |old(tours)| <= a < |tours| ensures IsRingTour(tours[a], start, nPoints) {
        assert |tours[a]| > 0 && tours[a][0] == start;
      }
      if tours != [] {
        BestIsFirstShortestTour();
      }
      if bestDistances != [] {
        BestIsMinimumOfHistory();
      }
      path, dist, bests, avgs := bestPath, bestDistance, bestDistances, avgDistances;
    }

    /** Entry `k` of the best-distance history never exceeds entry `k` of the average history. */
    lemma HistoryBestAtMostAverage()
      requires Valid()
      ensures forall k :: 0 <= k < |bestDistances| ==> bestDistances[k] <= avgDistances[k]
    {
      forall k | 0 <= k < |bestDistances| ensures bestDistances[k] <= avgDistances[k] {
        MinAtMostMean(rounds[k]);
      }
    }

    /**
     * Once some iteration has run, the best distance is the minimum of the
     * best-distance history, so it is at most every entry of it.
     */
    lemma BestIsMinimumOfHistory()
      requires Valid() && bestDistances != []
      ensures bestDistance == Fin(Min(bestDistances))
      ensures forall k :: 0 <= k < |bestDistances| ==> bestDistance.value <= bestDistances[k]
    {
      MinOfConcat(rounds);
      assert Mins(rounds) == bestDistances;
      FirstArgMinIsFirstMinimum(tourDistances);
    }

    /**
     * Once some tour has been built, the best is a ring tour that an ant
     * built, its distance is that tour's length, no tour built is shorter,
     * and every tour built before it was strictly longer (ties keep the
     * first).
     */
    lemma BestIsFirstShortestTour()
      requires Valid() && tours != []
      ensures bestPath.Some? && bestDistance.Fin?
      ensures IsRingTour(bestPath.value, bestPath.value[0], nPoints)
      ensures InBounds(distance, bestPath.value) && bestDistance.value == PathDistance(distance, bestPath.value)
      ensures forall a :: 0 <= a < |tours| ==> bestDistance.value <= tourDistances[a]
      ensures exists i :: 0 <= i < |tours| && bestPath.value == tours[i]
                && forall a :: 0 <= a < i ==> tourDistances[a] > bestDistance.value
    {
      var i := FirstArgMin(tourDistances);
      FirstArgMinIsFirstMinimum(tourDistances);
      assert bestPath.value == tours[i];
    }
  }
}
