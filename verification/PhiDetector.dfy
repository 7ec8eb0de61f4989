/**
 phi_accrual_failure_detector.c: the suspicion level over exact reals, with exp, log10 and sqrt as parameters.
 exp may reach zero, as its floating-point version does for very negative arguments.
 */
module PhiDetector {
  import opened WindowStatistics

  // A detector in the state it is queried in; `timestamp` 0 means no heartbeat has been recorded.
  datatype Detector = Detector(threshold: real, minStdDeviation: real, timestamp: int, samples: seq<real>)

  datatype Phi = Finite(value: real) | Infinite

  predicate Below(p: Phi, threshold: real) {
    p.Finite? && p.value < threshold
  }

  predicate AtMost(p: Phi, q: Phi) {
    q.Infinite? || (p.Finite? && p.value <= q.value)
  }

  // Everything assumed of the three library functions.
  ghost predicate Library(exp: real -> real, log10: real -> real) {
    && (forall x :: exp(x) >= 0.0)
    && (forall x, y :: x <= y ==> exp(x) <= exp(y))
    && (forall x, y :: 0.0 < x <= y ==> log10(x) <= log10(y))
  }

  // What a square root is, on the numbers it is taken of.
  ghost predicate IsRoot(sqrt: real -> real) {
    forall x :: x >= 0.0 ==> sqrt(x) >= 0.0 && sqrt(x) * sqrt(x) == x
  }

  function EnsureValidStdDeviation(d: Detector, std: real): (r: real)
    ensures r >= d.minStdDeviation && r >= std && (r == std || r == d.minStdDeviation)
  {
    if std > d.minStdDeviation then std else d.minStdDeviation
  }

  function StdDeviation(d: Detector, sqrt: real -> real): real {
    EnsureValidStdDeviation(d, sqrt(Variance(d.samples)))
  }

  function Exponent(y: real): real {
    -(y * (1.5976 + 0.070566 * (y * y)))
  }

  // A zero timestamp stands for the current time.
  function Now(timestamp: int, clock: int): int {
    if timestamp == 0 then clock else timestamp
  }

  function GetPhi(d: Detector, timestamp: int, clock: int,
                  exp: real -> real, log10: real -> real, sqrt: real -> real): Phi
    requires Library(exp, log10) && StdDeviation(d, sqrt) > 0.0
  {
    if d.timestamp == 0 then Finite(0.0)
    else
      var diff := (Now(timestamp, clock) - d.timestamp) as real;
      var e := exp(Exponent((diff - Mean(d.samples)) / StdDeviation(d, sqrt)));
      if e == 0.0 then Infinite
      else if diff > Mean(d.samples) then Finite(-log10(e / (1.0 + e)))
      else Finite(-log10(1.0 - 1.0 / (1.0 + e)))
  }

  predicate IsAvailable(d: Detector, timestamp: int, clock: int,
                        exp: real -> real, log10: real -> real, sqrt: real -> real)
    requires Library(exp, log10) && StdDeviation(d, sqrt) > 0.0
  {
    Below(GetPhi(d, timestamp, clock, exp, log10, sqrt), d.threshold)
  }

  // The two branches compute the same number.
  lemma BranchesAgree(e: real)
    requires e > 0.0
    ensures e / (1.0 + e) == 1.0 - 1.0 / (1.0 + e)
    ensures 0.0 < e / (1.0 + e) < 1.0
  {
    var n := 1.0 + e;
    assert e / n + 1.0 / n == n / n == 1.0;
    assert 1.0 / n > 0.0;
  }

  lemma TailGrows(e: real, f: real)
    requires 0.0 < e <= f
    ensures e / (1.0 + e) <= f / (1.0 + f)
  {
    BranchesAgree(e);
    BranchesAgree(f);
    ReciprocalShrinks(1.0 + e, 1.0 + f);
  }

  lemma ReciprocalShrinks(a: real, b: real)
    requires 0.0 < a <= b
    ensures 1.0 / b <= 1.0 / a
  {
    assert 1.0 / a - 1.0 / b == (b - a) / (a * b);
  }

  // The cubic exponent is strictly decreasing over the whole line.
  lemma ExponentDecreases(y: real, z: real)
    requires y < z
    ensures Exponent(y) > Exponent(z)
  {
    CubeGrows(y, z);
  }

  lemma CubeGrows(y: real, z: real)
    requires y <= z
    ensures y * (y * y) <= z * (z * z)
  {
    var d := z - y;
    var q := y * y + y * z + z * z;
    assert z * (z * z) - y * (y * y) == d * q;
    SquareNonNegative(y);
    SquareNonNegative(z);
    SquareNonNegative(y + z);
    assert (y + z) * (y + z) == y * y + 2.0 * (y * z) + z * z;
    assert d * q >= 0.0;
  }

  lemma SquareNonNegative(x: real)
    ensures x * x >= 0.0
  {
  }

  lemma DivisionMonotone(a: real, b: real, n: real)
    requires a <= b && n > 0.0
    ensures a / n <= b / n
  {
  }

  // For a fixed state suspicion never decreases with time.
  lemma PhiGrows(d: Detector, t1: int, clock1: int, t2: int, clock2: int,
                 exp: real -> real, log10: real -> real, sqrt: real -> real)
    requires Library(exp, log10) && StdDeviation(d, sqrt) > 0.0
    requires Now(t1, clock1) <= Now(t2, clock2)
    ensures AtMost(GetPhi(d, t1, clock1, exp, log10, sqrt), GetPhi(d, t2, clock2, exp, log10, sqrt))
  {
    var m, std := Mean(d.samples), StdDeviation(d, sqrt);
    var a, b := (Now(t1, clock1) - d.timestamp) as real - m, (Now(t2, clock2) - d.timestamp) as real - m;
    DivisionMonotone(a, b, std);
    var y, z := a / std, b / std;
    if y < z {
      ExponentDecreases(y, z);
    }
    var e, f := exp(Exponent(y)), exp(Exponent(z));
    assert f <= e;
    if f > 0.0 {
      BranchesAgree(e);
      BranchesAgree(f);
      TailGrows(f, e);
    }
  }

  // Once the server counts as unavailable it stays so until the state changes.
  lemma StaysUnavailable(d: Detector, t1: int, clock1: int, t2: int, clock2: int,
                         exp: real -> real, log10: real -> real, sqrt: real -> real)
    requires Library(exp, log10) && StdDeviation(d, sqrt) > 0.0
    requires Now(t1, clock1) <= Now(t2, clock2)
    requires !IsAvailable(d, t1, clock1, exp, log10, sqrt)
    ensures !IsAvailable(d, t2, clock2, exp, log10, sqrt)
  {
    PhiGrows(d, t1, clock1, t2, clock2, exp, log10, sqrt);
  }

  // A positive minimum deviation rules out division by zero, and both branches measure the same tail: phi is
  // -log10 of e / (1 + e) whichever side of the mean the time is on.
  lemma PhiIsTail(d: Detector, t: int, clock: int, exp: real -> real, log10: real -> real, sqrt: real -> real)
    requires Library(exp, log10) && d.minStdDeviation > 0.0 && d.timestamp != 0
    ensures StdDeviation(d, sqrt) > 0.0
    ensures var e := exp(Exponent(((Now(t, clock) - d.timestamp) as real - Mean(d.samples)) / StdDeviation(d, sqrt)));
      GetPhi(d, t, clock, exp, log10, sqrt) == if e == 0.0 then Infinite else Finite(-log10(e / (1.0 + e)))
  {
    var e := exp(Exponent(((Now(t, clock) - d.timestamp) as real - Mean(d.samples)) / StdDeviation(d, sqrt)));
    if e > 0.0 {
      BranchesAgree(e);
    }
  }

  // ----- The numbers -----

  // The deviation is the root of the variance, and at least the configured minimum.
  lemma DeviationIsRoot(d: Detector, sqrt: real -> real)
    requires IsRoot(sqrt) && d.minStdDeviation >= 0.0
    ensures var std, least := StdDeviation(d, sqrt), d.minStdDeviation;
      && (Variance(d.samples) >= least * least ==> std >= 0.0 && std * std == Variance(d.samples))
      && (Variance(d.samples) < least * least ==> std == least)
  {
    if d.samples != [] {
      VarianceIsMeanDeviation(d.samples);
    }
    RootOrder(sqrt(Variance(d.samples)), d.minStdDeviation);
  }

  lemma RootOrder(root: real, least: real)
    requires root >= 0.0 && least >= 0.0
    ensures root * root >= least * least <==> root >= least
  {
    assert root * root - least * least == (root - least) * (root + least);
    if root >= least {
      assert (root - least) * (root + least) >= 0.0;
    } else {
      PositiveProduct(least - root, root + least);
    }
  }

  lemma PositiveProduct(a: real, b: real)
    requires a > 0.0 && b > 0.0
    ensures a * b > 0.0
  {
  }

  // The exponent is the cubic with the two coefficients of the source: by its differences and its value at 0.
  lemma ExponentIsCubic(y: real, z: real)
    ensures Exponent(0.0) == 0.0 && Exponent(1.0) == -1.668166 && Exponent(2.0) == -3.759728
    ensures Exponent(y) - Exponent(z) == (z - y) * (1.5976 + 0.070566 * (y * y + y * z + z * z))
  {
    ExponentExpands(y);
    ExponentExpands(z);
    assert y * (y * y) - z * (z * z) == (y - z) * (y * y + y * z + z * z);
    ExponentFactor(y - z, y * y + y * z + z * z);
  }

  lemma ExponentExpands(y: real)
    ensures Exponent(y) == -1.5976 * y - 0.070566 * (y * (y * y))
  {
    assert y * (1.5976 + 0.070566 * (y * y)) == 1.5976 * y + y * (0.070566 * (y * y));
    assert y * (0.070566 * (y * y)) == 0.070566 * (y * (y * y));
  }

  lemma ExponentFactor(d: real, q: real)
    ensures -1.5976 * d - 0.070566 * (d * q) == -d * (1.5976 + 0.070566 * q)
  {
    assert d * (1.5976 + 0.070566 * q) == 1.5976 * d + d * (0.070566 * q);
    assert d * (0.070566 * q) == 0.070566 * (d * q);
  }

  // Before the first heartbeat the level is 0, so the server is available under any positive threshold.
  lemma BeforeHeartbeat(d: Detector, t: int, clock: int, exp: real -> real, log10: real -> real, sqrt: real -> real)
    requires Library(exp, log10) && StdDeviation(d, sqrt) > 0.0 && d.timestamp == 0
    ensures GetPhi(d, t, clock, exp, log10, sqrt) == Finite(0.0)
    ensures IsAvailable(d, t, clock, exp, log10, sqrt) <==> d.threshold > 0.0
  {
  }

  // Afterwards the server is available exactly while the tail is positive and its level below the threshold, at the
  // given time, or at the current one if none is given.
  lemma AvailableWhile(d: Detector, t: int, clock: int, exp: real -> real, log10: real -> real, sqrt: real -> real)
    requires Library(exp, log10) && StdDeviation(d, sqrt) > 0.0 && d.timestamp != 0
    ensures var waited := (if t != 0 then t - d.timestamp else clock - d.timestamp) as real;
      var e := exp(Exponent((waited - Mean(d.samples)) / StdDeviation(d, sqrt)));
      IsAvailable(d, t, clock, exp, log10, sqrt) <==> e > 0.0 && -log10(e / (1.0 + e)) < d.threshold
  {
    var waited := (if t != 0 then t - d.timestamp else clock - d.timestamp) as real;
    var e := exp(Exponent((waited - Mean(d.samples)) / StdDeviation(d, sqrt)));
    if e > 0.0 {
      BranchesAgree(e);
    }
  }
}
