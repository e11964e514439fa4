/**
 * Reductions over sequences of reals that the optimizer applies to the
 * distances of one iteration (`min`, `np.mean`, `sum`) and to the scores of
 * the candidate stops (`probs_array / probs_sum`).  Every fold runs from
 * left to right, the order in which Python accumulates.
 */
module Reductions {

  /** Left-to-right sum of a sequence (Python's `sum`, numpy's `.sum()`). */
  function Sum(s: seq<real>): real
  {
    if s == [] then 0.0 else Sum(s[..|s| - 1]) + s[|s| - 1]
  }

  /** Python's `min` over a non-empty list. */
  function Min(s: seq<real>): (m: real)
    requires s != []
    ensures exists k :: 0 <= k < |s| && s[k] == m
    ensures forall k :: 0 <= k < |s| ==> m <= s[k]
  {
    if |s| == 1 then s[0]
    else
      var rest := Min(s[..|s| - 1]);
      assert forall k :: 0 <= k < |s| - 1 ==> s[..|s| - 1][k] == s[k];
      if s[|s| - 1] < rest then s[|s| - 1] else rest
  }

  /** numpy's `mean` of a non-empty list. */
  function Mean(s: seq<real>): real
    requires s != []
  {
    Sum(s) / (|s| as real)
  }

  /**
   * The index that a scan keeping the running best "only on a strict
   * improvement" ends with.
   */
  function FirstArgMin(s: seq<real>): (i: nat)
    requires s != []
    ensures i < |s|
  {
    if |s| == 1 then 0
    else
      var j := FirstArgMin(s[..|s| - 1]);
      if s[|s| - 1] < s[j] then |s| - 1 else j
  }

  /**
   * The scan ends on the FIRST position holding the minimum: its entry is
   * the minimum, and every earlier entry is strictly larger.
   */
  lemma {:induction false} FirstArgMinIsFirstMinimum(s: seq<real>)
    requires s != []
    ensures s[FirstArgMin(s)] == Min(s)
    ensures forall k :: 0 <= k < |s| ==> s[FirstArgMin(s)] <= s[k]
    ensures forall k :: 0 <= k < FirstArgMin(s) ==> s[FirstArgMin(s)] < s[k]
  {
    if |s| > 1 {
      var init := s[..|s| - 1];
      FirstArgMinIsFirstMinimum(init);
      assert forall k :: 0 <= k < |init| ==> init[k] == s[k];
    }
  }

  /** The sequences of a list of rounds, one after the other. */
  function Concat(rs: seq<seq<real>>): seq<real>
  {
    if rs == [] then [] else Concat(rs[..|rs| - 1]) + rs[|rs| - 1]
  }

  /** No round is empty. */
  predicate AllNonEmpty(rs: seq<seq<real>>)
  {
    forall k :: 0 <= k < |rs| ==> rs[k] != []
  }

  /** The minimum of every round. */
  function Mins(rs: seq<seq<real>>): (ms: seq<real>)
    requires AllNonEmpty(rs)
    ensures |ms| == |rs|
  {
    seq(|rs|, k requires 0 <= k < |rs| => Min(rs[k]))
  }

  /** The minimum of a concatenation is the smaller of the two minima. */
  lemma MinOfAppend(a: seq<real>, b: seq<real>)
    requires a != [] && b != []
    ensures Min(a + b) == if Min(b) < Min(a) then Min(b) else Min(a)
  {
    var m := Min(a + b);
    var k :| 0 <= k < |a + b| && (a + b)[k] == m;
    var ka :| 0 <= ka < |a| && a[ka] == Min(a);
    var kb :| 0 <= kb < |b| && b[kb] == Min(b);
    assert (a + b)[ka] == a[ka];
    assert (a + b)[|a| + kb] == b[kb];
    if k < |a| {
      assert (a + b)[k] == a[k];
    } else {
      assert (a + b)[k] == b[k - |a|];
    }
  }

  /** The per-round minima of one more round gain that round's minimum. */
  lemma MinsOfAppend(rs: seq<seq<real>>, last: seq<real>)
    requires AllNonEmpty(rs) && last != []
    ensures AllNonEmpty(rs + [last])
    ensures Mins(rs + [last]) == Mins(rs) + [Min(last)]
  {
  }

  /**
   * The minimum over all rounds together equals the minimum of the
   * per-round minima.
   */
  lemma {:induction false} MinOfConcat(rs: seq<seq<real>>)
    requires rs != [] && AllNonEmpty(rs)
    ensures Concat(rs) != []
    ensures Min(Concat(rs)) == Min(Mins(rs))
  {
    var init := rs[..|rs| - 1];
    var last := rs[|rs| - 1];
    assert rs == init + [last];
    assert Concat(rs) == Concat(init) + last;
    assert AllNonEmpty(init) by {
      forall k | 0 <= k < |init| ensures init[k] != [] {
        assert init[k] == rs[k];
      }
    }
    MinsOfAppend(init, last);
    if init == [] {
      assert Concat(rs) == last;
      assert Mins(rs) == [Min(last)];
    } else {
      MinOfConcat(init);
      MinOfAppend(Concat(init), last);
      MinOfAppend(Mins(init), [Min(last)]);
    }
  }

  /** A lower bound of every element, times the length, bounds the sum. */
  lemma {:induction false} SumAtLeast(s: seq<real>, c: real)
    requires forall k :: 0 <= k < |s| ==> c <= s[k]
    ensures (|s| as real) * c <= Sum(s)
  {
    if s != [] {
      var init := s[..|s| - 1];
      assert forall k :: 0 <= k < |init| ==> init[k] == s[k];
      SumAtLeast(init, c);
    }
  }

  /** The minimum of a round never exceeds its mean. */
  lemma MinAtMostMean(s: seq<real>)
    requires s != []
    ensures Min(s) <= Mean(s)
  {
    SumAtLeast(s, Min(s));
    DividedBound(Min(s), Sum(s), |s| as real);
  }

  lemma DividedBound(a: real, b: real, n: real)
    requires n > 0.0 && n * a <= b
    ensures a <= b / n
  {
  }

  /** Dividing every element by `c` divides the sum by `c`. */
  lemma {:induction false} SumDivided(s: seq<real>, t: seq<real>, c: real)
    requires c != 0.0 && |s| == |t|
    requires forall k :: 0 <= k < |s| ==> t[k] == s[k] / c
    ensures Sum(t) == Sum(s) / c
  {
    if s != [] {
      var n := |s|;
      SumDivided(s[..n - 1], t[..n - 1], c);
      assert Sum(t) == Sum(s[..n - 1]) / c + s[n - 1] / c;
    }
  }

  /** A sequence of `n` copies of `c` sums to `n * c`. */
  lemma {:induction false} SumConstant(t: seq<real>, c: real)
    requires forall k :: 0 <= k < |t| ==> t[k] == c
    ensures Sum(t) == (|t| as real) * c
  {
    if t != [] {
      SumConstant(t[..|t| - 1], c);
    }
  }

  /** Every entry is a probability and together they sum to one. */
  predicate IsDistribution(p: seq<real>)
  {
    (forall k :: 0 <= k < |p| ==> 0.0 <= p[k]) && Sum(p) == 1.0
  }

  /**
   * Turns scores into selection probabilities: each score divided by the
   * total when the total is positive, otherwise the uniform `1/len`.
   */
  function Normalize(scores: seq<real>): (p: seq<real>)
    ensures |p| == |scores|
  {
    var total := Sum(scores);
    if total > 0.0 then seq(|scores|, k requires 0 <= k < |scores| => scores[k] / total)
    else seq(|scores|, k requires 0 <= k < |scores| => 1.0 / (|scores| as real))
  }

  /** A product of two non-negative factors is non-negative. */
  lemma ProductNonNegative(a: real, b: real)
    requires 0.0 <= a && 0.0 <= b
    ensures 0.0 <= a * b
  {
  }

  lemma QuotientNonNegative(a: real, b: real)
    requires 0.0 <= a && b > 0.0
    ensures 0.0 <= a / b
  {
  }

  lemma QuotientSelf(a: real)
    requires a > 0.0
    ensures a / a == 1.0
  {
  }

  lemma ReciprocalTimes(n: real)
    requires n > 0.0
    ensures n * (1.0 / n) == 1.0
  {
  }

  /** The probabilities of at least one candidate always add up to one. */
  lemma NormalizeSumsToOne(scores: seq<real>)
    requires scores != []
    ensures Sum(Normalize(scores)) == 1.0
  {
    var p := Normalize(scores);
    var total := Sum(scores);
    if total > 0.0 {
      SumDivided(scores, p, total);
      QuotientSelf(total);
    } else {
      var n := |scores| as real;
      SumConstant(p, 1.0 / n);
      ReciprocalTimes(n);
    }
  }

  /** Non-negative scores of at least one candidate normalise to a distribution. */
  lemma NormalizeIsDistribution(scores: seq<real>)
    requires scores != []
    requires forall k :: 0 <= k < |scores| ==> 0.0 <= scores[k]
    ensures IsDistribution(Normalize(scores))
  {
    var p := Normalize(scores);
    var total := Sum(scores);
    forall k | 0 <= k < |p| ensures 0.0 <= p[k] {
      if total > 0.0 {
        QuotientNonNegative(scores[k], total);
      } else {
        QuotientNonNegative(1.0, |scores| as real);
      }
    }
    NormalizeSumsToOne(scores);
  }

  /** The cumulative probability `s[0] + ... + s[k]` of slot `k`. */
  function Cumulative(s: seq<real>, k: nat): real
    requires k < |s|
  {
    Sum(s[..k + 1])
  }

  /**
   * How many of the cumulative sums are at most `u`: where `u` falls in the
   * cumulative distribution (numpy's `cdf.searchsorted(u, side='right')`).
   */
  function CountAtMost(s: seq<real>, u: real): (c: nat)
    ensures c <= |s|
  {
    if s == [] then 0 else CountAtMost(s[..|s| - 1], u) + (if Sum(s) <= u then 1 else 0)
  }

  /**
   * The roulette-wheel pick of `np.random.choice(candidates, p=probs)` for
   * the uniform sample `u`: the first slot whose cumulative probability
   * exceeds `u`, or the last slot when none does.
   */
  function Roulette(probs: seq<real>, u: real): (k: nat)
    requires probs != []
    ensures k < |probs|
  {
    var c := CountAtMost(probs, u);
    if c < |probs| then c else |probs| - 1
  }

  /** With non-negative entries the cumulative sums never decrease. */
  lemma {:induction false} CumulativeMonotone(s: seq<real>, i: nat, j: nat)
    requires forall k :: 0 <= k < |s| ==> 0.0 <= s[k]
    requires i <= j < |s|
    ensures Cumulative(s, i) <= Cumulative(s, j)
  {
    if i < j {
      CumulativeMonotone(s, i, j - 1);
      assert s[..j + 1][..j] == s[..j];
    }
  }

  /**
   * With non-negative entries `CountAtMost` splits the slots: the first
   * `c` have cumulative sums at most `u` and all later ones exceed it.
   */
  lemma {:induction false} CountAtMostSplits(s: seq<real>, u: real)
    requires forall k :: 0 <= k < |s| ==> 0.0 <= s[k]
    ensures forall k :: 0 <= k < CountAtMost(s, u) ==> Cumulative(s, k) <= u
    ensures forall k :: CountAtMost(s, u) <= k < |s| ==> u < Cumulative(s, k)
  {
    if s != [] {
      var n := |s|;
      var init := s[..n - 1];
      CountAtMostSplits(init, u);
      forall k | 0 <= k < n - 1 ensures Cumulative(init, k) == Cumulative(s, k) {
        assert init[..k + 1] == s[..k + 1];
      }
      assert s[..n] == s;
      if Sum(s) <= u {
        var c := CountAtMost(init, u);
        if c < n - 1 {
          CumulativeMonotone(s, c, n - 1);
          assert false;
        }
      }
    }
  }

  /**
   * For a probability distribution and a sample in `[0, 1)` the wheel
   * never lands on a slot of probability zero.
   */
  lemma RouletteLandsOnPositive(probs: seq<real>, u: real)
    requires probs != [] && IsDistribution(probs)
    requires 0.0 <= u < 1.0
    ensures probs[Roulette(probs, u)] > 0.0
  {
    var n := |probs|;
    var c := CountAtMost(probs, u);
    CountAtMostSplits(probs, u);
    assert probs[..n] == probs;
    assert c < n;
    assert u < Cumulative(probs, c);
    assert probs[..c + 1][..c] == probs[..c];
    assert Cumulative(probs, c) == Sum(probs[..c]) + probs[c];
    if c > 0 {
      assert Cumulative(probs, c - 1) == Sum(probs[..c]);
    } else {
      assert probs[..c] == [];
    }
    assert Sum(probs[..c]) <= u;
  }
}
