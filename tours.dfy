/**
 * Ring tours over stop indices, their length under a distance matrix and
 * the pheromone an ant leaves on the directed edges of its tour.
 */
module Tours {

  /** The stop indices `0 .. n-1` (`set(range(n))`). */
  function Range(n: nat): (r: set<nat>)
    ensures forall x: nat :: x in r <==> x < n
    ensures |r| == n
  {
    if n == 0 then {} else Range(n - 1) + {n - 1}
  }

  /** The stops a sequence mentions. */
  function Elements(s: seq<nat>): set<nat>
  {
    set x | x in s
  }

  /** No stop occurs twice. */
  predicate Distinct(s: seq<nat>)
  {
    forall a, b :: 0 <= a < b < |s| ==> s[a] != s[b]
  }

  /**
   * A closed tour ("ring route") of `n` stops anchored at `start`:
   * `n + 1` entries, first and last equal to `start`, and the first `n`
   * entries are `n` different stops below `n`.
   */
  predicate IsRingTour(t: seq<nat>, start: nat, n: nat)
  {
    && |t| == n + 1
    && t[0] == start
    && t[n] == start
    && (forall k :: 0 <= k < n ==> t[k] < n)
    && (forall a, b :: 0 <= a < b < n ==> t[a] != t[b])
  }

  /** A repetition-free sequence mentions as many stops as it has entries. */
  lemma {:induction false} DistinctElements(s: seq<nat>)
    requires Distinct(s)
    ensures |Elements(s)| == |s|
  {
    if s != [] {
      var init := s[..|s| - 1];
      assert Distinct(init);
      DistinctElements(init);
      assert Elements(s) == Elements(init) + {s[|s| - 1]};
      forall k | 0 <= k < |init| ensures init[k] != s[|s| - 1] {
        assert init[k] == s[k];
      }
      assert s[|s| - 1] !in Elements(init);
    }
  }

  /** A subset at least as large as its superset is the whole superset. */
  lemma SubsetOfSameSize(a: set<nat>, b: set<nat>)
    requires a <= b && |a| >= |b|
    ensures a == b
  {
    var rest := b - a;
    assert b == a + rest;
    assert a * rest == {};
    assert |rest| == 0;
  }

  /** A ring tour visits every stop exactly once before returning. */
  lemma RingTourVisitsEveryStop(t: seq<nat>, start: nat, n: nat)
    requires IsRingTour(t, start, n)
    ensures Distinct(t[..n])
    ensures Elements(t[..n]) == Range(n)
  {
    var body := t[..n];
    forall a, b | 0 <= a < b < |body| ensures body[a] != body[b] {
      assert body[a] == t[a] && body[b] == t[b];
    }
    DistinctElements(body);
    forall x | x in Elements(body) ensures x in Range(n) {
      var k :| 0 <= k < n && body[k] == x;
      assert t[k] == x;
    }
    SubsetOfSameSize(Elements(body), Range(n));
  }

  /**
   * Between leaving and returning to `start`, a ring tour of `n >= 1`
   * stops visits every other stop exactly once.
   */
  lemma RingTourInterior(t: seq<nat>, start: nat, n: nat)
    requires IsRingTour(t, start, n) && n >= 1
    ensures start < n
    ensures Distinct(t[1..n])
    ensures Elements(t[1..n]) == Range(n) - {start}
  {
    RingTourVisitsEveryStop(t, start, n);
    RingTourTail(t, start, n);
    RingTourSplit(t, start, n);
    RemoveFresh(Elements(t[1..n]), start);
  }

  /** The first `n` entries of a ring tour are `start` followed by its interior. */
  lemma RingTourSplit(t: seq<nat>, start: nat, n: nat)
    requires IsRingTour(t, start, n) && n >= 1
    ensures Elements(t[..n]) == {start} + Elements(t[1..n])
  {
    assert t[..n] == [start] + t[1..n];
    ElementsCons(start, t[1..n]);
  }

  /** After its first entry, a ring tour repeats no stop and avoids `start`. */
  lemma RingTourTail(t: seq<nat>, start: nat, n: nat)
    requires IsRingTour(t, start, n) && n >= 1
    ensures Distinct(t[1..n])
    ensures start !in Elements(t[1..n])
  {
    var rest := t[1..n];
    forall k | 0 <= k < |rest| ensures rest[k] != start {
      assert rest[k] == t[k + 1] && t[0] == start;
    }
    forall a, b | 0 <= a < b < |rest| ensures rest[a] != rest[b] {
      assert rest[a] == t[a + 1] && rest[b] == t[b + 1];
    }
  }

  /** The stops of `[x] + rest` are `x` and the stops of `rest`. */
  lemma ElementsCons(x: nat, rest: seq<nat>)
    ensures Elements([x] + rest) == {x} + Elements(rest)
  {
    assert forall y :: y in [x] + rest <==> y == x || y in rest;
  }

  /** Adding a fresh element and removing it again gives back the set. */
  lemma RemoveFresh(a: set<nat>, x: nat)
    requires x !in a
    ensures ({x} + a) - {x} == a
  {
  }

  /** Every entry of a ring tour of `n >= 1` stops is a stop below `n`. */
  lemma RingTourInBounds(d: array2<real>, t: seq<nat>, start: nat, n: nat)
    requires IsRingTour(t, start, n) && n >= 1
    requires d.Length0 == n && d.Length1 == n
    ensures start < n
    ensures InBounds(d, t)
  {
  }

  /** Appending a stop not yet on a path keeps it repetition-free. */
  lemma AppendFresh(path: seq<nat>, x: nat)
    requires Distinct(path) && x !in Elements(path)
    ensures Distinct(path + [x])
    ensures Elements(path + [x]) == Elements(path) + {x}
  {
  }

  /** Every entry of `path` indexes a row and a column of `d`. */
  predicate InBounds(d: array2<real>, path: seq<nat>)
  {
    forall k :: 0 <= k < |path| ==> path[k] < d.Length0 && path[k] < d.Length1
  }

  /**
   * Total length of a path: the sum of `d[path[k], path[k+1]]` over its
   * consecutive pairs, accumulated from the front.
   */
  function PathDistance(d: array2<real>, path: seq<nat>): real
    reads d
    requires InBounds(d, path)
  {
    if |path| < 2 then 0.0
    else PathDistance(d, path[..|path| - 1]) + d[path[|path| - 2], path[|path| - 1]]
  }

  /** Every edge between two different stops is strictly positive. */
  predicate PositiveOffDiagonal(d: array2<real>)
    reads d
  {
    forall i, j :: 0 <= i < d.Length0 && 0 <= j < d.Length1 && i != j ==> d[i, j] > 0.0
  }

  /** A path whose consecutive entries always differ has positive length. */
  lemma {:induction false} PathDistancePositive(d: array2<real>, path: seq<nat>)
    requires InBounds(d, path) && PositiveOffDiagonal(d)
    requires |path| >= 2
    requires forall k :: 0 <= k < |path| - 1 ==> path[k] != path[k + 1]
    ensures PathDistance(d, path) > 0.0
  {
    var init := path[..|path| - 1];
    if |path| > 2 {
      PathDistancePositive(d, init);
    }
  }

  /** Every ring tour of at least two stops has positive length. */
  lemma RingTourDistancePositive(d: array2<real>, t: seq<nat>, start: nat, n: nat)
    requires IsRingTour(t, start, n) && n >= 2
    requires d.Length0 == n && d.Length1 == n && PositiveOffDiagonal(d)
    ensures InBounds(d, t)
    ensures PathDistance(d, t) > 0.0
  {
    RingTourInBounds(d, t, start, n);
    forall k | 0 <= k < |t| - 1 ensures t[k] != t[k + 1] {
      if k + 1 == n {
        assert t[k + 1] == t[0];
      }
    }
    PathDistancePositive(d, t);
  }

  /**
   * Every ring tour of the `n` stops anchored at `start` has positive
   * length under `d`, so `1/length` is defined for every tour an ant can
   * build.
   */
  ghost predicate RingToursPositive(d: array2<real>, start: nat, n: nat)
    reads d
  {
    forall t {:trigger PathDistance(d, t)} :: IsRingTour(t, start, n) && InBounds(d, t) ==> PathDistance(d, t) > 0.0
  }

  /**
   * Positive distances between different stops are one way to meet
   * `RingToursPositive` once there are at least two stops.
   */
  lemma PositiveOffDiagonalRingTours(d: array2<real>, start: nat, n: nat)
    requires n >= 2 && d.Length0 == n && d.Length1 == n && PositiveOffDiagonal(d)
    ensures RingToursPositive(d, start, n)
  {
    forall t | IsRingTour(t, start, n) && InBounds(d, t) ensures PathDistance(d, t) > 0.0 {
      RingTourDistancePositive(d, t, start, n);
    }
  }

  /**
   * Three stops where stops 0 and 1 coincide (distance 0 both ways) and
   * every other pair is 5 apart: both ring tours from 0 have length 10, so
   * the precondition admits a zero distance between two different stops.
   */
  lemma CoincidentStopsRingToursPositive(d: array2<real>)
    requires d.Length0 == 3 && d.Length1 == 3
    requires d[0, 1] == 0.0 && d[1, 0] == 0.0
    requires d[0, 2] == 5.0 && d[2, 0] == 5.0 && d[1, 2] == 5.0 && d[2, 1] == 5.0
    ensures RingToursPositive(d, 0, 3)
  {
    forall t | IsRingTour(t, 0, 3) && InBounds(d, t) ensures PathDistance(d, t) > 0.0 {
      assert t[1] != t[0] && t[2] != t[0] && t[1] != t[2];
      var p2, p3 := [t[0], t[1]], [t[0], t[1], t[2]];
      assert t[..3] == p3 && p3[..2] == p2 && p2[..1] == [t[0]];
      assert PathDistance(d, p2) == d[t[0], t[1]];
      assert PathDistance(d, p3) == d[t[0], t[1]] + d[t[1], t[2]];
      assert PathDistance(d, t) == d[t[0], t[1]] + d[t[1], t[2]] + d[t[2], t[3]];
    }
  }

  /** The path takes the directed edge `i -> j` at some position. */
  predicate Traverses(path: seq<nat>, i: nat, j: nat)
  {
    exists k :: 0 <= k < |path| - 1 && path[k] == i && path[k + 1] == j
  }

  /**
   * Pheromone one ant leaves on edge `i -> j`: `amount` for every position
   * at which its path takes that directed edge.
   */
  function PathDeposit(path: seq<nat>, amount: real, i: nat, j: nat): real
  {
    if |path| < 2 then 0.0
    else
      PathDeposit(path[..|path| - 1], amount, i, j)
      + (if path[|path| - 2] == i && path[|path| - 1] == j then amount else 0.0)
  }

  /** Tour lengths that can be inverted. */
  predicate AllPositive(dists: seq<real>)
  {
    forall a :: 0 <= a < |dists| ==> dists[a] > 0.0
  }

  /** Pheromone all ants of one iteration leave on edge `i -> j`: `1/distance` per use. */
  function TotalDeposit(paths: seq<seq<nat>>, dists: seq<real>, i: nat, j: nat): real
    requires |paths| == |dists| && AllPositive(dists)
  {
    if paths == [] then 0.0
    else
      var n := |paths|;
      TotalDeposit(paths[..n - 1], dists[..n - 1], i, j) + PathDeposit(paths[n - 1], 1.0 / dists[n - 1], i, j)
  }

  /** One ant deposits on `i -> j` exactly when its path takes that edge. */
  lemma {:induction false} PathDepositExact(path: seq<nat>, amount: real, i: nat, j: nat)
    requires amount > 0.0
    ensures PathDeposit(path, amount, i, j) >= 0.0
    ensures PathDeposit(path, amount, i, j) > 0.0 <==> Traverses(path, i, j)
  {
    if |path| >= 2 {
      var init := path[..|path| - 1];
      PathDepositExact(init, amount, i, j);
      if Traverses(init, i, j) {
        var k :| 0 <= k < |init| - 1 && init[k] == i && init[k + 1] == j;
        assert path[k] == i && path[k + 1] == j;
      }
      if Traverses(path, i, j) && !(path[|path| - 2] == i && path[|path| - 1] == j) {
        var k :| 0 <= k < |path| - 1 && path[k] == i && path[k + 1] == j;
        assert init[k] == i && init[k + 1] == j;
      }
    }
  }

  /**
   * Reinforcement touches exactly the traversed directed edges: the
   * deposit on `i -> j` is never negative, and it is positive if and only
   * if some ant's tour takes `i -> j` (the reverse edge `j -> i` only
   * counts when some tour takes it in that direction).
   */
  lemma {:induction false} TotalDepositExact(paths: seq<seq<nat>>, dists: seq<real>, i: nat, j: nat)
    requires |paths| == |dists| && AllPositive(dists)
    ensures TotalDeposit(paths, dists, i, j) >= 0.0
    ensures TotalDeposit(paths, dists, i, j) > 0.0
            <==> exists a :: 0 <= a < |paths| && Traverses(paths[a], i, j)
  {
    if paths != [] {
      var n := |paths|;
      var initP, initD := paths[..n - 1], dists[..n - 1];
      assert AllPositive(initD) by {
        forall a | 0 <= a < |initD| ensures initD[a] > 0.0 {
          assert initD[a] == dists[a];
        }
      }
      TotalDepositExact(initP, initD, i, j);
      assert 1.0 / dists[n - 1] > 0.0;
      PathDepositExact(paths[n - 1], 1.0 / dists[n - 1], i, j);
      if exists a :: 0 <= a < |initP| && Traverses(initP[a], i, j) {
        var a :| 0 <= a < |initP| && Traverses(initP[a], i, j);
        assert paths[a] == initP[a];
      }
      if exists a :: 0 <= a < |paths| && Traverses(paths[a], i, j) {
        var a :| 0 <= a < |paths| && Traverses(paths[a], i, j);
        if a < n - 1 {
          assert initP[a] == paths[a];
        }
      }
    }
  }

  /**
   * The entries of `s` in some order (`list(s)`: Python leaves the order
   * of a set's iteration unspecified, and so does this method).
   */
  method ListOf(s: set<nat>) returns (xs: seq<nat>)
    ensures Distinct(xs)
    ensures Elements(xs) == s
    ensures |xs| == |s|
  {
    xs := [];
    var rest := s;
    while rest != {}
      invariant Distinct(xs)
      invariant Elements(xs) !! rest
      invariant Elements(xs) + rest == s
      invariant |xs| + |rest| == |s|
      decreases rest
    {
      var x :| x in rest;
      xs := xs + [x];
      rest := rest - {x};
    }
  }
}
