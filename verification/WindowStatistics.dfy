/** The statistics of a window of heartbeat intervals, over exact reals. */
module WindowStatistics {

  function Sum(s: seq<real>): real {
    if s == [] then 0.0 else Sum(s[..|s| - 1]) + s[|s| - 1]
  }

  function SquaredSum(s: seq<real>): real {
    if s == [] then 0.0 else SquaredSum(s[..|s| - 1]) + Times(s[|s| - 1], s[|s| - 1])
  }

  // Products and quotients by name, so that equal ones are recognised without nonlinear arithmetic.
  function Times(x: real, c: real): real {
    x * c
  }

  function Over(x: real, n: real): real
    requires n > 0.0
  {
    x / n
  }

  function Mean(s: seq<real>): real {
    if s == [] then 0.0 else Over(Sum(s), |s| as real)
  }

  function Variance(s: seq<real>): real {
    if s == [] then 0.0 else Over(SquaredSum(s), |s| as real) - Times(Mean(s), Mean(s))
  }

  // ----- The variance is a mean of squares -----

  function Deviations(s: seq<real>, m: real): real {
    if s == [] then 0.0 else Deviations(s[..|s| - 1], m) + Times(s[|s| - 1] - m, s[|s| - 1] - m)
  }

  lemma {:induction false} DeviationsExpand(s: seq<real>, m: real)
    ensures Deviations(s, m) == SquaredSum(s) - 2.0 * Times(m, Sum(s)) + Times(|s| as real, Times(m, m))
  {
    if s != [] {
      var p, x := s[..|s| - 1], s[|s| - 1];
      DeviationsExpand(p, m);
      ExpandStep(Deviations(p, m), SquaredSum(p), Sum(p), |p| as real, x, m);
    }
  }

  lemma ExpandStep(deviations: real, squares: real, sum: real, n: real, x: real, m: real)
    requires deviations == squares - 2.0 * Times(m, sum) + Times(n, Times(m, m))
    ensures deviations + Times(x - m, x - m)
         == squares + Times(x, x) - 2.0 * Times(m, sum + x) + Times(n + 1.0, Times(m, m))
  {
    SquareOfDifference(x, m);
    Distribute(sum, x, m);
    Distribute(n, 1.0, m * m);
  }

  lemma SquareOfDifference(x: real, m: real)
    ensures (x - m) * (x - m) == x * x - 2.0 * (m * x) + m * m
  {
    assert (x - m) * (x - m) == x * (x - m) - m * (x - m);
    assert x * (x - m) == x * x - x * m;
    assert m * (x - m) == m * x - m * m;
  }

  lemma {:induction false} DeviationsNonNegative(s: seq<real>, m: real)
    ensures Deviations(s, m) >= 0.0
  {
    if s != [] {
      DeviationsNonNegative(s[..|s| - 1], m);
      var d := s[|s| - 1] - m;
      assert d * d >= 0.0;
    }
  }

  // The difference of means the source computes is the mean squared deviation from the mean, so never negative.
  lemma VarianceIsMeanDeviation(s: seq<real>)
    requires s != []
    ensures Times(|s| as real, Variance(s)) == Deviations(s, Mean(s))
    ensures Variance(s) >= 0.0
  {
    var n, m := |s| as real, Mean(s);
    DeviationsExpand(s, m);
    DeviationsNonNegative(s, m);
    MeanOfSquares(Deviations(s, m), SquaredSum(s), Sum(s), n, m, Variance(s));
  }

  lemma MeanOfSquares(deviations: real, squares: real, sum: real, n: real, m: real, variance: real)
    requires n > 0.0 && m == Over(sum, n) && variance == Over(squares, n) - Times(m, m)
    requires deviations == squares - 2.0 * Times(m, sum) + Times(n, Times(m, m))
    ensures Times(n, variance) == deviations
    ensures deviations >= 0.0 ==> variance >= 0.0
  {
    assert sum == m * n;
    assert m * sum == m * (m * n) == n * (m * m);
    assert squares == n * (squares / n);
    assert n * variance == n * (squares / n) - n * (m * m);
    if variance < 0.0 {
      assert n * variance < 0.0;
    }
  }

  // ----- Adding samples to a bounded window -----

  // add_interval: a window that is full loses its oldest sample, and the new one stays outside the counted prefix.
  function AfterAdd(s: seq<real>, max: nat, x: real): seq<real>
    requires max >= 1
  {
    if |s| < max then s + [x] else s[1..]
  }

  function AfterAll(samples: seq<real>, max: nat): (s: seq<real>)
    requires max >= 1
    ensures |s| <= max
  {
    if samples == [] then []
    else AfterAdd(AfterAll(samples[..|samples| - 1], max), max, samples[|samples| - 1])
  }

  function Latest(samples: seq<real>, max: nat): seq<real> {
    if |samples| <= max then samples else samples[|samples| - max..]
  }

  // The samples that ever enter the window: the first `max`, then every second one.
  function Entered(samples: seq<real>, max: nat): (r: seq<real>)
    ensures |r| == if |samples| <= max then |samples| else max + (|samples| - max) / 2
  {
    if |samples| <= max then samples
    else
      var front := Entered(samples[..|samples| - 1], max);
      if (|samples| - max) % 2 == 0 then front + [samples[|samples| - 1]] else front
  }

  lemma {:induction false} EnteredAt(samples: seq<real>, max: nat, k: nat)
    requires k < |Entered(samples, max)|
    ensures var i := if k < max then k else 2 * k - max + 1; i < |samples| && Entered(samples, max)[k] == samples[i]
  {
    if |samples| > max {
      var front := samples[..|samples| - 1];
      if k < |Entered(front, max)| {
        EnteredAt(front, max, k);
      }
    }
  }

  function LastOf(s: seq<real>, n: nat): seq<real>
    requires n <= |s|
  {
    s[|s| - n..]
  }

  // Once it has overflowed, the window is one short after an odd number of further samples and full after an even
  // number, and it holds the last of those that entered.
  function Window(samples: seq<real>, max: nat): seq<real>
    requires max >= 1
  {
    var extra := |samples| - max;
    if extra <= 0 then samples
    else if extra % 2 == 1 then LastOf(Entered(samples, max), max - 1)
    else LastOf(Entered(samples, max), max)
  }

  lemma {:induction false} WindowAfter(samples: seq<real>, max: nat)
    requires max >= 1
    ensures AfterAll(samples, max) == Window(samples, max)
  {
    if samples != [] {
      WindowAfter(samples[..|samples| - 1], max);
      WindowStep(samples, max);
    }
  }

  lemma WindowStep(samples: seq<real>, max: nat)
    requires max >= 1 && samples != []
    ensures var n := |samples| - 1;
      AfterAdd(Window(samples[..n], max), max, samples[n]) == Window(samples, max)
  {
    var front, x := samples[..|samples| - 1], samples[|samples| - 1];
    if |samples| <= max {
      assert front + [x] == samples;
    } else {
      var extra := |front| - max;
      assert extra % 2 == 0 <==> (extra + 1) % 2 == 1;
      var entered := Entered(front, max);
      SlideOn(entered, max, x);
      if (extra + 1) % 2 == 1 {
        assert Window(front, max) == LastOf(entered, max) && Entered(samples, max) == entered;
      } else {
        assert Window(front, max) == LastOf(entered, max - 1) && Entered(samples, max) == entered + [x];
      }
    }
  }

  lemma SlideOn(entered: seq<real>, max: nat, x: real)
    requires 1 <= max <= |entered|
    ensures AfterAdd(LastOf(entered, max), max, x) == LastOf(entered, max - 1)
    ensures AfterAdd(LastOf(entered, max - 1), max, x) == LastOf(entered + [x], max)
    ensures |entered| == max ==> LastOf(entered, max) == entered
  {
  }

  // In a full window of at least two that has overflowed, the last sample is the newest, but the one before it is
  // not the one that arrived before it.
  lemma SecondNewestIsStale(samples: seq<real>, max: nat)
    requires max >= 2 && |samples| > max && (|samples| - max) % 2 == 0
    ensures var s, n := AfterAll(samples, max), |samples|;
      |s| == max && s[max - 1] == samples[n - 1] && s[max - 2] == samples[n - 3]
  {
    var size := |Entered(samples, max)|;
    WindowAfter(samples, max);
    EnteredAt(samples, max, size - 1);
    EnteredAt(samples, max, size - 2);
  }

  // The window is the last `max` samples, whatever they are, exactly until it first overflows; a window of
  // size one is so again after every second sample.
  lemma WindowIsLatest(n: nat, max: nat)
    requires max >= 1
    ensures (forall samples :: |samples| == n ==> AfterAll(samples, max) == Latest(samples, max))
       <==> n <= max || (max == 1 && n % 2 == 1)
  {
    if n <= max || (max == 1 && n % 2 == 1) {
      forall samples: seq<real> | |samples| == n
        ensures AfterAll(samples, max) == Latest(samples, max)
      {
        IsLatest(samples, max);
      }
    } else {
      NotLatest(seq(n, i => i as real), max);
    }
  }

  lemma IsLatest(samples: seq<real>, max: nat)
    requires max >= 1 && (|samples| <= max || (max == 1 && |samples| % 2 == 1))
    ensures AfterAll(samples, max) == Latest(samples, max)
  {
    WindowAfter(samples, max);
    if |samples| > max {
      NewestAlone(samples);
    }
  }

  lemma NewestAlone(samples: seq<real>)
    requires |samples| > 1 && |samples| % 2 == 1
    ensures Window(samples, 1) == [samples[|samples| - 1]]
  {
    assert (|samples| - 1) % 2 == 0;
  }

  // Samples that are all different show it otherwise.
  lemma NotLatest(samples: seq<real>, max: nat)
    requires max >= 1 && |samples| > max && (max == 1 ==> |samples| % 2 == 0)
    requires forall i, j :: 0 <= i < j < |samples| ==> samples[i] != samples[j]
    ensures AfterAll(samples, max) != Latest(samples, max)
  {
    var n := |samples|;
    WindowAfter(samples, max);
    if (n - max) % 2 == 0 {
      SecondNewestIsStale(samples, max);
      assert Latest(samples, max)[max - 2] == samples[n - 2];
    }
  }

  // first_heartbeat seeds the window with two samples around the estimate. Its mean is the estimate and its
  // deviation a quarter of it, unless the window is too small for both.
  lemma SeedStatistics(estimate: real, max: nat)
    requires max >= 1
    ensures var s := AfterAll([estimate - estimate / 4.0, estimate + estimate / 4.0], max);
      && (Mean(s) == estimate <==> max >= 2 || estimate == 0.0)
      && (max >= 2 ==> Variance(s) == (estimate / 4.0) * (estimate / 4.0))
  {
    var q := estimate / 4.0;
    var a, b := estimate - q, estimate + q;
    assert [a, b][..1] == [a] && [a][..0] == [];
    assert AfterAll([], max) == [];
    assert AfterAll([a], max) == [] + [a] == [a];
    if max >= 2 {
      var s := AfterAll([a, b], max);
      assert s == [a, b] && s[..1] == [a];
      assert Sum([a]) == a && Sum(s) == a + b;
      assert Mean(s) == estimate;
      VarianceIsMeanDeviation(s);
      assert Deviations([a], estimate) == (a - estimate) * (a - estimate) == q * q;
      assert Deviations(s, estimate) == q * q + q * q;
    }
  }

  // ----- Adjusting the window -----

  function ScalingFactor(missed: int): real {
    1.0 - (if missed == 0 then -1 else missed) as real * 0.05
  }

  function Clip(x: real): real {
    if x > 0.0 then x else 0.0
  }

  function Adjust(x: real, missed: int): real {
    Clip(x * ScalingFactor(missed))
  }

  // An interval grows by a twentieth of itself when nothing was missed, and shrinks by a twentieth for each missed
  // message until, with twenty, nothing is left of it.
  lemma AdjustByTwentieths(x: real, missed: int)
    requires x >= 0.0
    ensures missed == 0 ==> Adjust(x, missed) == x + x / 20.0
    ensures missed != 0 && missed <= 20 ==> Adjust(x, missed) == x - missed as real * x / 20.0
    ensures missed >= 20 ==> Adjust(x, missed) == 0.0
  {
    var n := (if missed == 0 then -1 else missed) as real;
    assert ScalingFactor(missed) == (20.0 - n) / 20.0;
    assert x * ((20.0 - n) / 20.0) == x * (20.0 - n) / 20.0;
    assert x * (20.0 - n) == 20.0 * x - n * x;
    if missed <= 20 {
      assert x * (20.0 - n) >= 0.0;
    } else {
      assert x * (n - 20.0) >= 0.0;
    }
  }

  function Adjusted(s: seq<real>, missed: int): (r: seq<real>)
    ensures |r| == |s| && forall i :: 0 <= i < |s| ==> r[i] == Adjust(s[i], missed)
  {
    seq(|s|, i requires 0 <= i < |s| => Adjust(s[i], missed))
  }

  function AdjustedAll(s: seq<real>, counts: seq<int>): seq<real> {
    if counts == [] then s else Adjusted(AdjustedAll(s, counts[..|counts| - 1]), counts[|counts| - 1])
  }

  function TotalFactor(counts: seq<int>): real {
    if counts == [] then 1.0
    else Times(TotalFactor(counts[..|counts| - 1]), Clip(ScalingFactor(counts[|counts| - 1])))
  }

  lemma {:induction false} TotalFactorNonNegative(counts: seq<int>)
    ensures TotalFactor(counts) >= 0.0
  {
    if counts != [] {
      TotalFactorNonNegative(counts[..|counts| - 1]);
      ProductNonNegative(TotalFactor(counts[..|counts| - 1]), Clip(ScalingFactor(counts[|counts| - 1])));
    }
  }

  lemma ProductNonNegative(a: real, b: real)
    requires a >= 0.0 && b >= 0.0
    ensures Times(a, b) >= 0.0
  {
  }

  function Scaled(s: seq<real>, c: real): (r: seq<real>)
    ensures |r| == |s| && forall i :: 0 <= i < |s| ==> r[i] == Times(s[i], c)
  {
    seq(|s|, i requires 0 <= i < |s| => Times(s[i], c))
  }

  ghost predicate NonNegative(s: seq<real>) {
    forall i :: 0 <= i < |s| ==> s[i] >= 0.0
  }

  lemma AdjustOnce(x: real, c: real, missed: int)
    requires x >= 0.0 && c >= 0.0
    ensures Adjust(Times(x, c), missed) == Times(x, Times(c, Clip(ScalingFactor(missed))))
    ensures Times(x, c) >= 0.0
  {
    var f := ScalingFactor(missed);
    var y := x * c;
    assert y >= 0.0;
    if f <= 0.0 {
      assert y * f <= 0.0;
    } else {
      assert y * f >= 0.0;
      assert y * f == x * (c * f);
    }
  }

  // Any number of adjustments is one scaling by the product of the clipped factors.
  lemma {:induction false} AdjustmentsScale(s: seq<real>, counts: seq<int>)
    requires NonNegative(s)
    ensures AdjustedAll(s, counts) == Scaled(s, TotalFactor(counts))
  {
    if counts == [] {
      assert Scaled(s, 1.0) == s;
    } else {
      var front, last := counts[..|counts| - 1], counts[|counts| - 1];
      AdjustmentsScale(s, front);
      TotalFactorNonNegative(front);
      AdjustScaled(s, TotalFactor(front), last);
    }
  }

  lemma AdjustScaled(s: seq<real>, c: real, missed: int)
    requires NonNegative(s) && c >= 0.0
    ensures Adjusted(Scaled(s, c), missed) == Scaled(s, Times(c, Clip(ScalingFactor(missed))))
  {
    forall i | 0 <= i < |s|
      ensures Adjusted(Scaled(s, c), missed)[i] == Scaled(s, Times(c, Clip(ScalingFactor(missed))))[i]
    {
      AdjustOnce(s[i], c, missed);
    }
  }

  lemma {:induction false} ScaledSums(s: seq<real>, c: real)
    ensures Sum(Scaled(s, c)) == Times(Sum(s), c)
    ensures SquaredSum(Scaled(s, c)) == Times(SquaredSum(s), c * c)
  {
    if s != [] {
      var p, x := s[..|s| - 1], s[|s| - 1];
      assert Scaled(s, c)[..|s| - 1] == Scaled(p, c) && Scaled(s, c)[|s| - 1] == Times(x, c);
      ScaledSums(p, c);
      ScaledStep(Sum(p), SquaredSum(p), x, c);
    }
  }

  lemma ScaledStep(sum: real, squares: real, x: real, c: real)
    ensures Times(sum, c) + Times(x, c) == Times(sum + x, c)
    ensures Times(squares, c * c) + Times(Times(x, c), Times(x, c)) == Times(squares + Times(x, x), c * c)
  {
    SquareOfProduct(x, c);
    Distribute(sum, x, c);
    Distribute(squares, x * x, c * c);
  }

  lemma Distribute(a: real, b: real, c: real)
    ensures (a + b) * c == a * c + b * c
  {
  }

  lemma SquareOfProduct(x: real, c: real)
    ensures (x * c) * (x * c) == x * x * (c * c)
  {
    assert (x * c) * (x * c) == x * (c * (x * c));
    assert c * (x * c) == x * (c * c);
  }

  // Scaling the samples scales the mean, and the variance by the square.
  lemma ScaledStatistics(s: seq<real>, c: real)
    ensures Mean(Scaled(s, c)) == Times(Mean(s), c)
    ensures Variance(Scaled(s, c)) == Times(Variance(s), c * c)
  {
    if s != [] {
      var n := |s| as real;
      ScaledSums(s, c);
      ScaledQuotients(Sum(s), SquaredSum(s), n, c);
    }
  }

  lemma ScaledQuotients(sum: real, squares: real, n: real, c: real)
    requires n > 0.0
    ensures Over(Times(sum, c), n) == Times(Over(sum, n), c)
    ensures var m := Over(sum, n);
      Over(Times(squares, c * c), n) - Times(Times(m, c), Times(m, c)) == Times(Over(squares, n) - Times(m, m), c * c)
  {
    DivideProduct(sum, c, n);
    DivideProduct(squares, c * c, n);
    SquareOfProduct(sum / n, c);
    Distribute(squares / n, -(sum / n * (sum / n)), c * c);
  }

  lemma DivideProduct(a: real, c: real, n: real)
    requires n > 0.0
    ensures (a * c) / n == (a / n) * c
  {
    assert a * c == n * ((a / n) * c);
  }

  // After any adjustments the mean has been multiplied by the product of the clipped factors, the variance by
  // its square.
  lemma AdjustedStatistics(s: seq<real>, counts: seq<int>)
    requires NonNegative(s)
    ensures var c := TotalFactor(counts);
      Mean(AdjustedAll(s, counts)) == Times(Mean(s), c) && Variance(AdjustedAll(s, counts)) == Times(Variance(s), c * c)
  {
    AdjustmentsScale(s, counts);
    ScaledStatistics(s, TotalFactor(counts));
  }
}
