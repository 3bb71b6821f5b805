// The rolling coefficient of variation of the energy meter (energy/derive.go). float64
// is modelled by real: rounding is not part of this model. math.Sqrt appears as a value
// with its defining property.
module Variation {
  import opened Sums
  import opened RealAlgebra

  function Id(v: real): real { v }

  function Square(v: real): real { v * v }

  function Mean(w: seq<real>): real
    requires w != []
  {
    Sum(w, Id) / |w| as real
  }

  function SqDev(w: seq<real>, mean: real): real {
    if w == [] then 0.0 else (w[0] - mean) * (w[0] - mean) + SqDev(w[1..], mean)
  }

  // The population variance.
  function Variance(w: seq<real>): real
    requires w != []
  {
    SqDev(w, Mean(w)) / |w| as real
  }

  // std is the square root of the variance.
  ghost predicate IsDeviation(w: seq<real>, std: real)
    requires w != []
  {
    std >= 0.0 && std * std == Variance(w)
  }

  // cv is the coefficient of variation of the samples: deviation over mean, and 0 for
  // fewer than two samples or a zero mean.
  ghost predicate IsCV(w: seq<real>, cv: real) {
    if |w| < 2 || Mean(w) == 0.0 then cv == 0.0
    else exists std :: IsDeviation(w, std) && cv == std / Mean(w)
  }

  // The same in terms of the two power sums only.
  ghost predicate CVFromSums(n: real, sum: real, squares: real, cv: real) {
    if n < 2.0 || sum == 0.0 then cv == 0.0
    else SumsEquation(n, sum, squares, cv)
  }

  ghost predicate SumsEquation(n: real, s: real, q: real, cv: real) {
    cv * s >= 0.0 && cv * cv * (s * s) == n * q - s * s
  }

  // cv times the mean is the root of the variance.
  ghost predicate DeviationEquation(m: real, variance: real, cv: real) {
    cv * m >= 0.0 && (cv * m) * (cv * m) == variance
  }

  // The sum of squared deviations d from m, of n samples with sum s and squares q.
  ghost predicate Expands(n: real, m: real, s: real, q: real, d: real) {
    d == q - 2.0 * m * s + n * (m * m)
  }

  // One sample x more.
  lemma ExpandStep(x: real, m: real, n: real, s: real, q: real, d: real)
    requires Expands(n, m, s, q, d)
    ensures Expands(n + 1.0, m, x + s, x * x + q, (x - m) * (x - m) + d)
  {
    DistributeRight(n, 1.0, m * m);
    DistributeRight(x, s, 2.0 * m);
    SquareOfDifference(x, m);
  }

  lemma ExpandStepTo(x: real, m: real, n: real, s: real, q: real, d: real, s': real, q': real, d': real)
    requires Expands(n, m, s, q, d)
    requires s' == x + s && q' == x * x + q && d' == (x - m) * (x - m) + d
    ensures Expands(n + 1.0, m, s', q', d')
  {
    ExpandStep(x, m, n, s, q, d);
  }

  lemma ExpandsNext(w: seq<real>, mean: real, n: real)
    requires w != [] && Expands(n, mean, Sum(w[1..], Id), Sum(w[1..], Square), SqDev(w[1..], mean))
    ensures Expands(n + 1.0, mean, Sum(w, Id), Sum(w, Square), SqDev(w, mean))
  {
    hide Expands;
    var t := w[1..];
    ExpandStepTo(w[0], mean, n, Sum(t, Id), Sum(t, Square), SqDev(t, mean), Sum(w, Id), Sum(w, Square), SqDev(w, mean));
  }

  lemma {:induction false} SqDevExpands(w: seq<real>, mean: real, n: real)
    requires n == |w| as real
    ensures Expands(n, mean, Sum(w, Id), Sum(w, Square), SqDev(w, mean))
  {
    if w != [] {
      var k := n - 1.0;
      SqDevExpands(w[1..], mean, k);
      ExpandsNext(w, mean, k);
    }
  }

  lemma VarianceAlgebra(n: real, m: real, s: real, q: real, d: real, v: real)
    requires m * n == s && v * n == d && Expands(n, m, s, q, d)
    ensures v * (n * n) == n * q - s * s
  {
    var a, b := m * s, n * (m * m);
    calc {
      v * (n * n);
      { Assoc(v, n, n); }
      d * n;
      (q - 2.0 * a + b) * n;
      { DistributeRight(q - 2.0 * a, b, n); DistributeRight(q, 2.0 * a, n); Assoc(2.0, a, n); }
      q * n - 2.0 * (a * n) + b * n;
      { Assoc(s, m, n); assert a == s * m; }
      q * n - 2.0 * (s * s) + b * n;
      { Assoc(n, m, m); assert b == s * m; Assoc(s, m, n); }
      q * n - s * s;
    }
  }

  lemma MeanTimes(w: seq<real>, n: real)
    requires w != [] && n == |w| as real
    ensures Mean(w) * n == Sum(w, Id)
    ensures Variance(w) * n == SqDev(w, Mean(w))
  {
    hide Sum, SqDev;
    DivMul(Sum(w, Id), n);
    DivMul(SqDev(w, Mean(w)), n);
  }

  lemma VarianceFromSums(w: seq<real>, n: real)
    requires w != [] && n == |w| as real
    ensures Mean(w) * n == Sum(w, Id)
    ensures Variance(w) * (n * n) == n * Sum(w, Square) - Sum(w, Id) * Sum(w, Id)
  {
    hide *;
    MeanTimes(w, n);
    SqDevExpands(w, Mean(w), n);
    VarianceAlgebra(n, Mean(w), Sum(w, Id), Sum(w, Square), SqDev(w, Mean(w)), Variance(w));
  }

  lemma CVIffSums(w: seq<real>, n: real, cv: real)
    requires n == |w| as real
    ensures IsCV(w, cv) <==> CVFromSums(n, Sum(w, Id), Sum(w, Square), cv)
  {
    hide Sum, SqDev, Mean, Variance, SumsEquation, DeviationEquation, IsDeviation;
    if |w| >= 2 {
      VarianceFromSums(w, n);
      CVAlgebra(n, Mean(w), Sum(w, Id), Sum(w, Square), Variance(w), cv);
      if Mean(w) != 0.0 {
        IsCVIff(w, Mean(w), Variance(w), cv);
      }
    }
  }

  lemma IsCVIff(w: seq<real>, m: real, variance: real, cv: real)
    requires |w| >= 2 && m == Mean(w) && variance == Variance(w) && m != 0.0
    ensures IsCV(w, cv) <==> DeviationEquation(m, variance, cv)
  {
    if IsCV(w, cv) {
      var std :| IsDeviation(w, std) && cv == std / m;
      DivMul(std, m);
    }
    if DeviationEquation(m, variance, cv) {
      QuotientIs(cv * m, m, cv);
      assert IsDeviation(w, cv * m);
    }
  }

  // With s = m n the two equations are the same, one multiplied by the square of n.
  lemma CVAlgebra(n: real, m: real, s: real, q: real, variance: real, cv: real)
    requires n > 0.0 && m * n == s && variance * (n * n) == n * q - s * s
    ensures s == 0.0 <==> m == 0.0
    ensures DeviationEquation(m, variance, cv) <==> SumsEquation(n, s, q, cv)
  {
    SignOf(m, n);
    SquaresEqual(s, m * n);
    EquationsAgree(n, m, q, variance, cv);
  }

  lemma EquationsAgree(n: real, m: real, q: real, variance: real, cv: real)
    requires n > 0.0 && variance * (n * n) == n * q - (m * n) * (m * n)
    ensures DeviationEquation(m, variance, cv) <==> SumsEquation(n, m * n, q, cv)
  {
    Assoc(cv, m, n);
    SignOf(cv * m, n);
    SquareOfProduct(cv, m * n);
    SquareOfProduct(cv * m, n);
    CancelSquareTo(cv * cv * ((m * n) * (m * n)), (cv * m) * (cv * m), n * q - (m * n) * (m * n), variance, n);
  }

  // ---------------------------------------------------------------- properties of CV

  ghost predicate NonNegative(w: seq<real>) { forall i | 0 <= i < |w| :: w[i] >= 0.0 }

  // At most one sample is not zero.
  ghost predicate Concentrated(w: seq<real>) {
    forall i, j | 0 <= i < j < |w| :: w[i] == 0.0 || w[j] == 0.0
  }

  lemma ConcentratedStep(w: seq<real>)
    requires w != []
    ensures Concentrated(w) <==> (w[0] == 0.0 || forall i | 1 <= i < |w| :: w[i] == 0.0) && Concentrated(w[1..])
  {
    var t := w[1..];
    forall i | 1 <= i < |w| ensures w[i] == t[i - 1] {}
    forall i | 0 <= i < |t| ensures t[i] == w[i + 1] {}
  }

  // The squares q of some non-negative numbers against their sum s, and one number x more.
  ghost predicate SquaresBelow(s: real, q: real) { s >= 0.0 && q <= s * s }

  ghost predicate SquaresMeet(s: real, q: real) { q == s * s }

  lemma SquaresStep(x: real, s: real, q: real)
    requires x >= 0.0 && SquaresBelow(s, q)
    ensures SquaresBelow(x + s, x * x + q)
    ensures SquaresMeet(x + s, x * x + q) <==> (x == 0.0 || s == 0.0) && SquaresMeet(s, q)
  {
    SquareOfSum(x, s);
    NonNegativeProduct(x, s);
    if x * s == 0.0 { ZeroProduct(x, s); }
  }

  lemma SquaresStepTo(x: real, s: real, q: real, s': real, q': real)
    requires x >= 0.0 && SquaresBelow(s, q) && s' == x + s && q' == x * x + q
    ensures SquaresBelow(s', q')
    ensures SquaresMeet(s', q') <==> (x == 0.0 || s == 0.0) && SquaresMeet(s, q)
  {
    SquaresStep(x, s, q);
  }

  lemma {:induction false} SquaresAtMostSquare(w: seq<real>)
    requires NonNegative(w)
    ensures SquaresBelow(Sum(w, Id), Sum(w, Square))
    ensures SquaresMeet(Sum(w, Id), Sum(w, Square)) <==> Concentrated(w)
  {
    if w != [] {
      var t := w[1..];
      forall i | 0 <= i < |t| ensures t[i] >= 0.0 { assert t[i] == w[i + 1]; }
      SquaresAtMostSquare(t);
      hide SquaresBelow, SquaresMeet, Concentrated;
      SquaresStepTo(w[0], Sum(t, Id), Sum(t, Square), Sum(w, Id), Sum(w, Square));
      ConcentratedStep(w);
      ZeroSum(w);
    }
  }

  // The rest of the samples sum to zero exactly when all of them are zero.
  lemma ZeroSum(w: seq<real>)
    requires w != [] && NonNegative(w)
    ensures Sum(w[1..], Id) == 0.0 <==> forall i | 1 <= i < |w| :: w[i] == 0.0
  {
    var t := w[1..];
    forall i | 0 <= i < |t| ensures t[i] == w[i + 1] {}
    SumNonNegative(t, Id);
    forall i | 1 <= i < |w| ensures w[i] == t[i - 1] == Id(t[i - 1]) {}
  }

  // For non-negative samples the coefficient is not negative, and for two or more it is at
  // most the root of n - 1; the bound is met exactly when a single sample carries the
  // whole sum and that sum is not zero.
  lemma CVBounds(w: seq<real>, cv: real)
    requires NonNegative(w) && IsCV(w, cv)
    ensures cv >= 0.0
    ensures |w| >= 2 ==> cv * cv <= |w| as real - 1.0
    ensures |w| >= 2 ==> (cv * cv == |w| as real - 1.0 <==> Mean(w) != 0.0 && Concentrated(w))
  {
    if |w| >= 2 && Mean(w) != 0.0 {
      SpreadBounds(w, cv);
    }
  }

  lemma SpreadBounds(w: seq<real>, cv: real)
    requires NonNegative(w) && |w| >= 2 && Mean(w) != 0.0 && IsCV(w, cv)
    ensures cv >= 0.0
    ensures cv * cv <= |w| as real - 1.0
    ensures cv * cv == |w| as real - 1.0 <==> Concentrated(w)
  {
    var n := |w| as real;
    CVIffSums(w, n, cv);
    SquaresAtMostSquare(w);
    MeanZero(w, n);
    hide *;
    BoundsAlgebra(n, Sum(w, Id), Sum(w, Square), cv);
  }

  lemma MeanZero(w: seq<real>, n: real)
    requires w != [] && n == |w| as real
    ensures Mean(w) == 0.0 <==> Sum(w, Id) == 0.0
  {
    MeanTimes(w, n);
    hide *;
    SignOf(Mean(w), n);
  }

  lemma BoundsAlgebra(n: real, s: real, q: real, cv: real)
    requires n >= 2.0 && s != 0.0 && SquaresBelow(s, q) && CVFromSums(n, s, q, cv)
    ensures cv >= 0.0 && cv * cv <= n - 1.0
    ensures cv * cv == n - 1.0 <==> SquaresMeet(s, q)
  {
    var excess := n - 1.0 - cv * cv;
    DistributeRight(n - 1.0, cv * cv, s * s);
    DistributeRight(n, 1.0, s * s);
    DistributeRight(s * s, q, n);
    assert excess * (s * s) == (s * s - q) * n;
    SignOfSquare(excess, s);
    SignOf(s * s - q, n);
    SignOf(cv, s);
  }

  lemma {:induction false} SqDevZero(w: seq<real>, mean: real)
    ensures SqDev(w, mean) >= 0.0
    ensures SqDev(w, mean) == 0.0 <==> forall i | 0 <= i < |w| :: w[i] == mean
  {
    if w != [] {
      SqDevZero(w[1..], mean);
      var d := w[0] - mean;
      SquareNonNegative(d);
      SquareZero(d);
      forall i | 1 <= i < |w| ensures w[i] == w[1..][i - 1] {}
    }
  }

  lemma {:induction false} SumConstant(w: seq<real>, x: real)
    requires forall i | 0 <= i < |w| :: w[i] == x
    ensures Sum(w, Id) == |w| as real * x
  {
    if w != [] {
      SumConstant(w[1..], x);
      DistributeRight(|w[1..]| as real, 1.0, x);
    }
  }

  // The coefficient is 0 exactly when there are fewer than two samples, their mean is zero
  // or they are all equal.
  lemma CVZeroIff(w: seq<real>, cv: real)
    requires IsCV(w, cv)
    ensures cv == 0.0 <==> |w| < 2 || Mean(w) == 0.0 || forall i, j | 0 <= i < |w| && 0 <= j < |w| :: w[i] == w[j]
  {
    if |w| >= 2 && Mean(w) != 0.0 {
      SpreadZeroIff(w, cv);
    }
  }

  lemma SpreadZeroIff(w: seq<real>, cv: real)
    requires |w| >= 2 && Mean(w) != 0.0 && IsCV(w, cv)
    ensures cv == 0.0 <==> forall i, j | 0 <= i < |w| && 0 <= j < |w| :: w[i] == w[j]
  {
    var m, n := Mean(w), |w| as real;
    var std :| IsDeviation(w, std) && cv == std / m;
    SqDevZero(w, m);
    DivMul(std, m);
    DivMul(SqDev(w, m), n);
    SignOf(Variance(w), n);
    SquareZero(std);
    if std == 0.0 { ZeroProduct(cv, m); }
    if forall i, j | 0 <= i < |w| && 0 <= j < |w| :: w[i] == w[j] {
      SumConstant(w, w[0]);
      DivMul(Sum(w, Id), n);
      Cancel(m, w[0], n);
    }
  }

  // The coefficient does not depend on the order of the samples.
  lemma CVPermuted(w: seq<real>, v: seq<real>, cv: real)
    requires multiset(w) == multiset(v)
    ensures IsCV(w, cv) <==> IsCV(v, cv)
  {
    SumPermuted(w, v, Id);
    SumPermuted(w, v, Square);
    CVIffSums(w, |w| as real, cv);
    CVIffSums(v, |v| as real, cv);
  }

  function Scale(w: seq<real>, k: real): (v: seq<real>)
    ensures |v| == |w|
    ensures w != [] ==> IsTimes(v[0], k, w[0])
  {
    if w == [] then [] else [k * w[0]] + Scale(w[1..], k)
  }

  ghost predicate IsTimes(y: real, k: real, x: real) { y == k * x }

  // vs and vq are the sums of k times the samples whose sums are s and q.
  ghost predicate ScaledBy(k: real, s: real, q: real, vs: real, vq: real) { vs == k * s && vq == (k * k) * q }

  lemma ScaledStep(k: real, x: real, s: real, q: real, vs: real, vq: real)
    requires ScaledBy(k, s, q, vs, vq)
    ensures ScaledBy(k, x + s, x * x + q, k * x + vs, (k * x) * (k * x) + vq)
  {
    SquareOfProduct(k, x);
    DistributeRight(x, s, k);
    DistributeRight(x * x, q, k * k);
  }

  lemma ScaledStepTo(k: real, x: real, y: real, s: real, q: real, vs: real, vq: real,
                     s': real, q': real, vs': real, vq': real)
    requires ScaledBy(k, s, q, vs, vq) && s' == x + s && q' == Square(x) + q
    requires IsTimes(y, k, x) && vs' == y + vs && vq' == Square(y) + vq
    ensures ScaledBy(k, s', q', vs', vq')
  {
    SquaresEqual(y, k * x);
    ScaledStep(k, x, s, q, vs, vq);
  }

  lemma ScaledNext(w: seq<real>, k: real, v: seq<real>)
    requires w != [] && v != [] && IsTimes(v[0], k, w[0])
    requires ScaledBy(k, Sum(w[1..], Id), Sum(w[1..], Square), Sum(v[1..], Id), Sum(v[1..], Square))
    ensures ScaledBy(k, Sum(w, Id), Sum(w, Square), Sum(v, Id), Sum(v, Square))
  {
    hide ScaledBy, Square, IsTimes;
    var t, u := w[1..], v[1..];
    ScaledStepTo(k, w[0], v[0], Sum(t, Id), Sum(t, Square), Sum(u, Id), Sum(u, Square),
                 Sum(w, Id), Sum(w, Square), Sum(v, Id), Sum(v, Square));
  }

  lemma {:induction false} ScaledSums(w: seq<real>, k: real)
    ensures ScaledBy(k, Sum(w, Id), Sum(w, Square), Sum(Scale(w, k), Id), Sum(Scale(w, k), Square))
  {
    if w != [] {
      ScaledSums(w[1..], k);
      assert Scale(w, k)[1..] == Scale(w[1..], k);
      hide Sum, ScaledBy;
      ScaledNext(w, k, Scale(w, k));
    }
  }

  // The coefficient does not depend on the unit: a factor keeps it, and turns its sign
  // when the factor is negative.
  lemma CVScaled(w: seq<real>, k: real, cv: real)
    requires k != 0.0
    ensures IsCV(Scale(w, k), cv) <==> IsCV(w, if k > 0.0 then cv else -cv)
  {
    CVScaledBy(w, k, |w| as real, cv, if k > 0.0 then cv else -cv);
  }

  lemma CVScaledBy(w: seq<real>, k: real, n: real, cv: real, u: real)
    requires k != 0.0 && n == |w| as real && u == if k > 0.0 then cv else -cv
    ensures IsCV(Scale(w, k), cv) <==> IsCV(w, u)
  {
    hide *;
    ScaledSums(w, k);
    CVIffSums(Scale(w, k), n, cv);
    CVIffSums(w, n, u);
    ScaleAlgebraTo(n, Sum(w, Id), Sum(w, Square), k, Sum(Scale(w, k), Id), Sum(Scale(w, k), Square), cv, u);
  }

  lemma ScaleAlgebraTo(n: real, s: real, q: real, k: real, s': real, q': real, cv: real, u: real)
    requires k != 0.0 && u == if k > 0.0 then cv else -cv
    requires ScaledBy(k, s, q, s', q')
    ensures CVFromSums(n, s', q', cv) <==> CVFromSums(n, s, q, u)
  {
    ScaleAlgebra(n, s, q, k, cv, u);
  }

  lemma ScaleAlgebra(n: real, s: real, q: real, k: real, cv: real, u: real)
    requires k != 0.0 && u == if k > 0.0 then cv else -cv
    ensures CVFromSums(n, k * s, (k * k) * q, cv) <==> CVFromSums(n, s, q, u)
  {
    if k * s == 0.0 { ZeroProduct(k, s); }
    ScaleSign(k, s, cv, u);
    ScaleSquares(k, s, n, q, cv);
    Opposite(cv);
  }

  lemma ScaleSign(k: real, s: real, cv: real, u: real)
    requires k != 0.0 && u == if k > 0.0 then cv else -cv
    ensures cv * (k * s) >= 0.0 <==> u * s >= 0.0
  {
    var t := cv * s;
    assert cv * (k * s) == t * k by { Assoc(cv, s, k); }
    if k > 0.0 {
      SignOf(t, k);
    } else {
      NegatedLeft(cv, s);
      SignOf(-t, -k);
      Opposites(t, k);
    }
  }

  lemma ScaleSquares(k: real, s: real, n: real, q: real, cv: real)
    requires k != 0.0
    ensures cv * cv * ((k * s) * (k * s)) == n * ((k * k) * q) - (k * s) * (k * s)
       <==> cv * cv * (s * s) == n * q - s * s
  {
    var kk, ss, cc := k * k, s * s, cv * cv;
    SquareOfProduct(k, s);
    assert cc * (kk * ss) == (cc * ss) * kk by { Assoc(cc, ss, kk); }
    assert n * (kk * q) - kk * ss == (n * q - ss) * kk by {
      Assoc(n, q, kk);
      DistributeRight(n * q, ss, kk);
    }
    CancelSquare(cc * ss, n * q - ss, k);
  }

  // There is one coefficient of variation.
  lemma CVUnique(w: seq<real>, a: real, b: real)
    requires IsCV(w, a) && IsCV(w, b)
    ensures a == b
  {
    if |w| >= 2 && Mean(w) != 0.0 {
      var s :| IsDeviation(w, s) && a == s / Mean(w);
      var t :| IsDeviation(w, t) && b == t / Mean(w);
      assert (s - t) * (s + t) == s * s - t * t;
      ZeroProduct(s - t, s + t);
    }
  }
}
