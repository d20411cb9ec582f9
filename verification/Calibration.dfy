/** Wood moisture calibration: least squares of ch = m*z + c over the valid points.

    Numbers are reals. The transform z of the adc is a parameter; all that is used of
    log10((1023 - adc) / adc) is that it decreases strictly on the open interval (0, 1023). */
module Calibration {
  import opened Wrappers

  const CH_MIN_RELIABLE: real := 8.0
  const CH_MAX_RELIABLE: real := 25.0
  const ADC_MIN: real := 1.0
  const ADC_MAX: real := 1022.0
  const MIN_VALID_POINTS: nat := 3

  datatype Point = Point(adc: real, ch: real)
  datatype MarkedPoint = MarkedPoint(point: Point, valid: bool)

  /** A valid point after the transform. */
  datatype Sample = Sample(z: real, ch: real)

  datatype Regression = Regression(
    m: real, c: real, rSquared: real, chMin: real, chMax: real,
    points: seq<MarkedPoint>, validCount: nat)

  datatype Result =
    | Fitted(value: Regression)
    | TooFewPoints(got: nat)
    | Degenerate

  predicate PointIsValid(p: Point) {
    ADC_MIN <= p.adc <= ADC_MAX && CH_MIN_RELIABLE <= p.ch <= CH_MAX_RELIABLE
  }

  // ---- sums ----

  function SumZ(s: seq<Sample>): real {
    if s == [] then 0.0 else s[0].z + SumZ(s[1..])
  }

  function SumCh(s: seq<Sample>): real {
    if s == [] then 0.0 else s[0].ch + SumCh(s[1..])
  }

  function SumZCh(s: seq<Sample>): real {
    if s == [] then 0.0 else s[0].z * s[0].ch + SumZCh(s[1..])
  }

  function SumZ2(s: seq<Sample>): real {
    if s == [] then 0.0 else s[0].z * s[0].z + SumZ2(s[1..])
  }

  function Residual(x: Sample, m: real, c: real): real {
    x.ch - (m * x.z + c)
  }

  /** Sum of squared residuals against the line m*z + c. */
  function SumSquares(s: seq<Sample>, m: real, c: real): real {
    if s == [] then 0.0
    else Square(Residual(s[0], m, c)) + SumSquares(s[1..], m, c)
  }

  /** n times the sum of the products, minus the product of the sums. */
  function Covariation(n: real, products: real, sum1: real, sum2: real): real {
    n * products - sum1 * sum2
  }

  function Denom(s: seq<Sample>): real {
    Covariation(|s| as real, SumZ2(s), SumZ(s), SumZ(s))
  }

  function Numer(s: seq<Sample>): real {
    Covariation(|s| as real, SumZCh(s), SumZ(s), SumCh(s))
  }

  function Offset(y: real, m: real, z: real): real {
    y - m * z
  }

  function Slope(s: seq<Sample>): real
    requires Denom(s) != 0.0
  {
    Numer(s) / Denom(s)
  }

  function InterceptOf(s: seq<Sample>, m: real): real
    requires s != []
  {
    Offset(SumCh(s), m, SumZ(s)) / |s| as real
  }

  function Intercept(s: seq<Sample>): real
    requires Denom(s) != 0.0 && s != []
  {
    InterceptOf(s, Slope(s))
  }

  function MeanCh(s: seq<Sample>): real
    requires s != []
  {
    SumCh(s) / |s| as real
  }

  function RSquared(s: seq<Sample>): real
    requires Denom(s) != 0.0 && s != []
  {
    RSquaredOf(SumSquares(s, Slope(s), Intercept(s)), SumSquares(s, 0.0, MeanCh(s)))
  }

  // ---- algebra of the sums ----

  /** Sum of squares of p*z + q. */
  function Spread(s: seq<Sample>, p: real, q: real): real {
    if s == [] then 0.0
    else Square(p * s[0].z + q) + Spread(s[1..], p, q)
  }

  function SumResiduals(s: seq<Sample>, m: real, c: real): real {
    if s == [] then 0.0 else Residual(s[0], m, c) + SumResiduals(s[1..], m, c)
  }

  function SumZResiduals(s: seq<Sample>, m: real, c: real): real {
    if s == [] then 0.0 else s[0].z * Residual(s[0], m, c) + SumZResiduals(s[1..], m, c)
  }

  lemma {:induction false} Distribute(a: real, sum: real, x: real, y: real)
    requires sum == x + y
    ensures a * sum == a * x + a * y
  {
  }

  lemma {:induction false} PositiveProduct(x: real, y: real, product: real)
    requires x > 0.0 && y > 0.0 && product == x * y
    ensures product > 0.0
  {
  }

  predicate IsProduct(x: real, y: real, product: real) {
    x * y == product
  }

  lemma {:induction false} Divide(quotient: real, x: real, d: real)
    requires d != 0.0 && quotient == x / d
    ensures IsProduct(quotient, d, x)
  {
  }

  function Square(x: real): real {
    x * x
  }

  lemma {:induction false} SquareSign(d: real)
    ensures Square(d) >= 0.0
    ensures d != 0.0 ==> Square(d) > 0.0
  {
    if d > 0.0 {
      PositiveProduct(d, d, Square(d));
    } else if d < 0.0 {
      PositiveProduct(-d, -d, Square(d));
    }
  }

  function ResidualForm(y: real, z: real, n: real, m: real, c: real): real {
    y - m * z - n * c
  }

  lemma {:induction false} SumResidualsIs(s: seq<Sample>, m: real, c: real)
    ensures SumResiduals(s, m, c) == ResidualForm(SumCh(s), SumZ(s), |s| as real, m, c)
  {
    if s == [] {
    } else {
      SumResidualsIs(s[1..], m, c);
      Distribute(m, SumZ(s), s[0].z, SumZ(s[1..]));
      Distribute(c, |s| as real, 1.0, |s[1..]| as real);
    }
  }

  lemma {:induction false} ZResidualStep(z: real, y: real, m: real, c: real, res: real, zy: real, zyRest: real,
                                         z2: real, z2Rest: real, sum: real, sumRest: real)
    requires res == y - (m * z + c)
    requires zy == z * y + zyRest && z2 == z * z + z2Rest && sum == z + sumRest
    ensures z * res + ResidualForm(zyRest, z2Rest, sumRest, m, c) == ResidualForm(zy, z2, sum, m, c)
  {
    assert z * res == z * y - m * (z * z) - c * z;
    assert m * z2 == m * (z * z) + m * z2Rest;
    assert sum * c == z * c + sumRest * c;
  }

  lemma {:induction false} SumZResidualsIs(s: seq<Sample>, m: real, c: real)
    ensures SumZResiduals(s, m, c) == ResidualForm(SumZCh(s), SumZ2(s), SumZ(s), m, c)
  {
    if s == [] {
    } else {
      var x, t := s[0], s[1..];
      SumZResidualsIs(t, m, c);
      ZResidualStep(x.z, x.ch, m, c, Residual(x, m, c), SumZCh(s), SumZCh(t), SumZ2(s), SumZ2(t), SumZ(s), SumZ(t));
    }
  }

  lemma {:induction false} MoveStep(z: real, y: real, m: real, c: real, p: real, q: real, res: real, moved: real, d: real,
                                    rest: real, zRes: real, zRest: real, sumRes: real, sumRest: real, spread: real)
    requires res == y - (m * z + c) && moved == y - ((m - p) * z + (c - q)) && d == p * z + q
    requires zRes == z * res + zRest && sumRes == res + sumRest
    ensures Square(moved) + (rest + 2.0 * (p * zRest + q * sumRest) + spread)
         == Square(res) + rest + 2.0 * (p * zRes + q * sumRes) + (Square(d) + spread)
  {
    assert moved == res + d;
    assert moved * moved == res * res + 2.0 * (res * d) + d * d;
    assert res * d == p * (z * res) + q * res;
    assert p * zRes == p * (z * res) + p * zRest;
    assert q * sumRes == q * res + q * sumRest;
  }

  /** Moving the line from (m, c) to (m - p, c - q). */
  lemma {:induction false} MoveLine(s: seq<Sample>, m: real, c: real, p: real, q: real)
    ensures SumSquares(s, m - p, c - q)
         == SumSquares(s, m, c) + 2.0 * (p * SumZResiduals(s, m, c) + q * SumResiduals(s, m, c)) + Spread(s, p, q)
  {
    if s == [] {
    } else {
      var x, t := s[0], s[1..];
      MoveLine(t, m, c, p, q);
      MoveStep(x.z, x.ch, m, c, p, q, Residual(x, m, c), Residual(x, m - p, c - q), p * x.z + q,
               SumSquares(t, m, c), SumZResiduals(s, m, c), SumZResiduals(t, m, c),
               SumResiduals(s, m, c), SumResiduals(t, m, c), Spread(t, p, q));
    }
  }

  lemma {:induction false} SpreadStep(z: real, p: real, q: real, d: real, z2: real, z2Rest: real, sum: real, sumRest: real, n: real, nRest: real)
    requires n == nRest + 1.0 && d == p * z + q && z2 == z * z + z2Rest && sum == z + sumRest
    ensures Square(d) + SpreadForm(p, q, z2Rest, sumRest, nRest) == SpreadForm(p, q, z2, sum, n)
  {
    assert d * d == p * p * (z * z) + 2.0 * p * q * z + q * q;
    assert p * p * z2 == p * p * (z * z) + p * p * z2Rest;
    assert n * (q * q) == nRest * (q * q) + q * q;
    assert 2.0 * p * q * sum == 2.0 * p * q * z + 2.0 * p * q * sumRest;
  }

  function SpreadForm(p: real, q: real, z2: real, sum: real, n: real): real {
    p * p * z2 + 2.0 * p * q * sum + n * (q * q)
  }

  lemma {:induction false} SpreadSums(s: seq<Sample>, p: real, q: real)
    ensures Spread(s, p, q) == SpreadForm(p, q, SumZ2(s), SumZ(s), |s| as real)
  {
    if s == [] {
    } else {
      var x, t := s[0], s[1..];
      SpreadSums(t, p, q);
      SpreadStep(x.z, p, q, p * x.z + q, SumZ2(s), SumZ2(t), SumZ(s), SumZ(t), |s| as real, |t| as real);
    }
  }

  lemma {:induction false} SpreadSign(s: seq<Sample>, p: real, q: real)
    ensures Spread(s, p, q) >= 0.0
    ensures Spread(s, p, q) == 0.0 <==> forall x :: x in s ==> p * x.z + q == 0.0
  {
    if s == [] {
    } else {
      SpreadSign(s[1..], p, q);
      SquareSign(p * s[0].z + q);
      assert forall x :: x in s <==> x == s[0] || x in s[1..];
    }
  }

  // ---- the denominator ----

  lemma {:induction false} MeanForm(n: real, z2: real, sum: real, mean: real)
    requires n > 0.0 && mean == sum / n
    ensures n * SpreadForm(1.0, -mean, z2, sum, n) == Covariation(n, z2, sum, sum)
  {
    assert n * mean == sum;
    assert n * (n * (mean * mean)) == sum * sum;
    assert n * (2.0 * mean * sum) == 2.0 * (sum * sum);
  }

  function MeanZ(s: seq<Sample>): real
    requires s != []
  {
    SumZ(s) / |s| as real
  }

  lemma {:induction false} DenomIsSpread(s: seq<Sample>)
    requires s != []
    ensures Denom(s) == |s| as real * Spread(s, 1.0, -MeanZ(s))
  {
    SpreadSums(s, 1.0, -MeanZ(s));
    MeanForm(|s| as real, SumZ2(s), SumZ(s), MeanZ(s));
  }

  lemma {:induction false} ZeroAtMean(s: seq<Sample>, mean: real)
    requires s != []
    ensures Spread(s, 1.0, -mean) >= 0.0
    ensures Spread(s, 1.0, -mean) == 0.0 <==> forall x :: x in s ==> x.z == mean
  {
    SpreadSign(s, 1.0, -mean);
    assert forall x: Sample :: 1.0 * x.z + -mean == 0.0 <==> x.z == mean;
  }

  lemma {:induction false} ProductSign(n: real, spread: real)
    requires n > 0.0 && spread >= 0.0
    ensures n * spread >= 0.0
    ensures n * spread == 0.0 <==> spread == 0.0
  {
    if spread > 0.0 {
      PositiveProduct(n, spread, n * spread);
    }
  }

  /** The denominator is never negative, and zero exactly when all z are equal. */
  lemma {:induction false} DenomSign(s: seq<Sample>)
    ensures Denom(s) >= 0.0
    ensures Denom(s) == 0.0 <==> forall x, y :: x in s && y in s ==> x.z == y.z
  {
    if s == [] {
    } else {
      DenomIsSpread(s);
      ZeroAtMean(s, MeanZ(s));
      ProductSign(|s| as real, Spread(s, 1.0, -MeanZ(s)));
      if forall x, y :: x in s && y in s ==> x.z == y.z {
        AllEqualMean(s, s[0].z);
      }
    }
  }

  lemma {:induction false} AllEqualSum(s: seq<Sample>, z: real)
    requires forall x :: x in s ==> x.z == z
    ensures SumZ(s) == |s| as real * z
  {
    if s == [] {
    } else {
      AllEqualSum(s[1..], z);
      assert |s| as real * z == z + |s[1..]| as real * z;
    }
  }

  lemma {:induction false} AllEqualMean(s: seq<Sample>, z: real)
    requires s != [] && forall x :: x in s ==> x.z == z
    ensures MeanZ(s) == z
  {
    AllEqualSum(s, z);
  }

  // ---- the fit ----

  lemma {:induction false} SolveNormalEquations(n: real, z: real, y: real, zy: real, z2: real, m: real, c: real,
                                                  denom: real, numer: real, sumRes: real, sumZRes: real)
    requires sumRes == ResidualForm(y, z, n, m, c) && sumZRes == ResidualForm(zy, z2, z, m, c)
    requires n > 0.0 && denom == Covariation(n, z2, z, z) && numer == Covariation(n, zy, z, y)
    requires IsProduct(m, denom, numer) && IsProduct(c, n, Offset(y, m, z))
    ensures sumRes == 0.0 && sumZRes == 0.0
  {
    var e := zy - m * z2 - c * z;
    assert m * denom == m * (n * z2) - m * (z * z);
    assert (c * n) * z == y * z - m * (z * z);
    assert e * n == n * zy - m * (n * z2) - (c * n) * z;
    NonzeroProduct(e, n, e * n);
  }

  /** The equations that the fitted coefficients solve. */
  predicate SolvesFit(s: seq<Sample>, m: real, c: real) {
    SolvesSlope(s, m) && SolvesIntercept(s, m, c)
  }

  predicate SolvesSlope(s: seq<Sample>, m: real) {
    IsProduct(m, Denom(s), Numer(s))
  }

  predicate SolvesIntercept(s: seq<Sample>, m: real, c: real) {
    IsProduct(c, |s| as real, Offset(SumCh(s), m, SumZ(s)))
  }

  lemma {:induction false} SlopeSolves(s: seq<Sample>)
    requires Denom(s) != 0.0
    ensures SolvesSlope(s, Slope(s))
  {
    Divide(Slope(s), Numer(s), Denom(s));
  }

  lemma {:induction false} InterceptSolves(s: seq<Sample>, m: real)
    requires s != []
    ensures SolvesIntercept(s, m, InterceptOf(s, m))
  {
    Divide(InterceptOf(s, m), Offset(SumCh(s), m, SumZ(s)), |s| as real);
  }

  lemma {:induction false} FitSolves(s: seq<Sample>)
    requires s != [] && Denom(s) != 0.0
    ensures SolvesFit(s, Slope(s), Intercept(s))
  {
    SlopeSolves(s);
    InterceptSolves(s, Slope(s));
  }

  /** The residuals of the fit sum to zero, also weighted by z. */
  lemma {:induction false} NormalEquations(s: seq<Sample>, m: real, c: real)
    requires s != [] && SolvesFit(s, m, c)
    ensures SumResiduals(s, m, c) == 0.0 && SumZResiduals(s, m, c) == 0.0
  {
    SumResidualsIs(s, m, c);
    SumZResidualsIs(s, m, c);
    SolveNormalEquations(|s| as real, SumZ(s), SumCh(s), SumZCh(s), SumZ2(s), m, c, Denom(s), Numer(s),
                         SumResiduals(s, m, c), SumZResiduals(s, m, c));
  }

  lemma {:induction false} MoveFit(s: seq<Sample>, m: real, c: real, a: real, b: real)
    requires s != [] && SolvesFit(s, m, c)
    ensures SumSquares(s, a, b) == SumSquares(s, m, c) + Spread(s, m - a, c - b)
  {
    NormalEquations(s, m, c);
    MoveLine(s, m, c, m - a, c - b);
    assert m - (m - a) == a && c - (c - b) == b;
  }

  /** Any other line's sum of squares exceeds the fit's by the spread between the two lines. */
  lemma {:induction false} Pythagoras(s: seq<Sample>, a: real, b: real)
    requires s != [] && Denom(s) != 0.0
    ensures SumSquares(s, a, b) == SumSquares(s, Slope(s), Intercept(s)) + Spread(s, Slope(s) - a, Intercept(s) - b)
  {
    FitSolves(s);
    MoveFit(s, Slope(s), Intercept(s), a, b);
  }

  /** A nonzero line cannot vanish at two different z. */
  lemma {:induction false} SpreadPositive(s: seq<Sample>, p: real, q: real)
    requires Denom(s) != 0.0 && (p != 0.0 || q != 0.0)
    ensures Spread(s, p, q) > 0.0
  {
    DenomSign(s);
    SpreadSign(s, p, q);
    var x, y :| x in s && y in s && x.z != y.z;
    if Spread(s, p, q) == 0.0 {
      NonzeroProduct(p, x.z - y.z, (p * x.z + q) - (p * y.z + q));
    }
  }

  lemma {:induction false} NonzeroProduct(p: real, d: real, product: real)
    requires product == p * d && product == 0.0 && d != 0.0
    ensures p == 0.0
  {
    if p > 0.0 && d > 0.0 {
      PositiveProduct(p, d, product);
    } else if p > 0.0 {
      PositiveProduct(p, -d, -product);
    } else if p < 0.0 && d > 0.0 {
      PositiveProduct(-p, d, -product);
    } else if p < 0.0 {
      PositiveProduct(-p, -d, product);
    }
  }

  /** The fit is the unique minimiser of the sum of squared residuals. */
  lemma {:induction false} FitIsUniqueMinimiser(s: seq<Sample>, a: real, b: real)
    requires s != [] && Denom(s) != 0.0
    ensures SumSquares(s, Slope(s), Intercept(s)) <= SumSquares(s, a, b)
    ensures SumSquares(s, a, b) == SumSquares(s, Slope(s), Intercept(s)) <==> a == Slope(s) && b == Intercept(s)
  {
    Pythagoras(s, a, b);
    SpreadSign(s, Slope(s) - a, Intercept(s) - b);
    if a != Slope(s) || b != Intercept(s) {
      SpreadPositive(s, Slope(s) - a, Intercept(s) - b);
    }
  }

  lemma {:induction false} SumSquaresSign(s: seq<Sample>, m: real, c: real)
    ensures SumSquares(s, m, c) >= 0.0
    ensures SumSquares(s, m, c) == 0.0 <==> OnLine(s, m, c)
  {
    if s == [] {
    } else {
      SumSquaresSign(s[1..], m, c);
      SquareSign(Residual(s[0], m, c));
      assert forall x :: x in s <==> x == s[0] || x in s[1..];
    }
  }

  function RSquaredOf(ssRes: real, ssTot: real): real {
    if ssTot != 0.0 then 1.0 - ssRes / ssTot else 1.0
  }

  lemma {:induction false} RSquaredOfRange(ssRes: real, ssTot: real)
    requires 0.0 <= ssRes <= ssTot
    ensures 0.0 <= RSquaredOf(ssRes, ssTot) <= 1.0
    ensures RSquaredOf(ssRes, ssTot) == 1.0 <==> ssRes == 0.0
  {
    if ssTot != 0.0 {
      Ratio(ssRes, ssTot);
    }
  }

  /** Total = regression + residual sum of squares. */
  lemma {:induction false} TotalSumOfSquares(s: seq<Sample>)
    requires s != [] && Denom(s) != 0.0
    ensures SumSquares(s, 0.0, MeanCh(s)) == Spread(s, Slope(s), Intercept(s) - MeanCh(s)) + SumSquares(s, Slope(s), Intercept(s))
  {
    Pythagoras(s, 0.0, MeanCh(s));
  }

  ghost predicate OnLine(s: seq<Sample>, m: real, c: real) {
    forall x :: x in s ==> x.ch == m * x.z + c
  }

  /** So R squared lies in [0, 1], and is one exactly when every sample is on the fitted line. */
  lemma {:induction false} RSquaredRange(s: seq<Sample>)
    requires s != [] && Denom(s) != 0.0
    ensures 0.0 <= RSquared(s) <= 1.0
    ensures RSquared(s) == 1.0 <==> OnLine(s, Slope(s), Intercept(s))
  {
    TotalSumOfSquares(s);
    SpreadSign(s, Slope(s), Intercept(s) - MeanCh(s));
    SumSquaresSign(s, Slope(s), Intercept(s));
    RSquaredOfRange(SumSquares(s, Slope(s), Intercept(s)), SumSquares(s, 0.0, MeanCh(s)));
  }

  lemma {:induction false} ResidualsOfMean(s: seq<Sample>)
    requires s != []
    ensures SumResiduals(s, 0.0, MeanCh(s)) == 0.0
  {
    SumResidualsIs(s, 0.0, MeanCh(s));
    Divide(MeanCh(s), SumCh(s), |s| as real);
  }

  /** The total is taken around the mean: the constant with the least sum of squares, and the only one. */
  lemma {:induction false} MeanIsBestConstant(s: seq<Sample>, b: real)
    requires s != []
    ensures SumSquares(s, 0.0, MeanCh(s)) <= SumSquares(s, 0.0, b)
    ensures SumSquares(s, 0.0, MeanCh(s)) == SumSquares(s, 0.0, b) <==> b == MeanCh(s)
  {
    var q := MeanCh(s) - b;
    ResidualsOfMean(s);
    MoveLine(s, 0.0, MeanCh(s), 0.0, q);
    SpreadSign(s, 0.0, q);
    assert s[0] in s;
    assert 0.0 * s[0].z + q == q;
  }

  /** The total is zero exactly when all moistures are equal. */
  lemma {:induction false} TotalIsZeroIff(s: seq<Sample>)
    requires s != []
    ensures SumSquares(s, 0.0, MeanCh(s)) == 0.0 <==> forall x, y :: x in s && y in s ==> x.ch == y.ch
  {
    SumSquaresSign(s, 0.0, MeanCh(s));
    EqualMoistures(s);
  }

  /** R squared is the explained share of the total: R squared times the total is the regression sum of
      squares, and it is 1 when all moistures are equal. */
  lemma {:induction false} RSquaredIsExplained(s: seq<Sample>)
    requires s != [] && Denom(s) != 0.0
    ensures (forall x, y :: x in s && y in s ==> x.ch == y.ch) ==> RSquared(s) == 1.0
    ensures (exists x, y :: x in s && y in s && x.ch != y.ch) ==>
              IsProduct(RSquared(s), SumSquares(s, 0.0, MeanCh(s)), Spread(s, Slope(s), Intercept(s) - MeanCh(s)))
  {
    TotalIsZeroIff(s);
    TotalSumOfSquares(s);
    Explained(SumSquares(s, Slope(s), Intercept(s)), SumSquares(s, 0.0, MeanCh(s)),
              Spread(s, Slope(s), Intercept(s) - MeanCh(s)));
  }

  lemma {:induction false} Explained(res: real, tot: real, spread: real)
    requires tot == spread + res
    ensures tot == 0.0 ==> RSquaredOf(res, tot) == 1.0
    ensures tot != 0.0 ==> IsProduct(RSquaredOf(res, tot), tot, spread)
  {
    if tot != 0.0 {
      var r := res / tot;
      Divide(r, res, tot);
      assert (1.0 - r) * tot == tot - r * tot;
    }
  }

  lemma {:induction false} SumOfEqual(s: seq<Sample>, ch: real)
    requires forall x :: x in s ==> x.ch == ch
    ensures SumCh(s) == ch * |s| as real
  {
    if s == [] {
    } else {
      SumOfEqual(s[1..], ch);
      Distribute(ch, |s| as real, 1.0, |s[1..]| as real);
    }
  }

  lemma {:induction false} EqualMoistures(s: seq<Sample>)
    requires s != []
    ensures OnLine(s, 0.0, MeanCh(s)) <==> forall x, y :: x in s && y in s ==> x.ch == y.ch
  {
    if forall x, y :: x in s && y in s ==> x.ch == y.ch {
      var ch := s[0].ch;
      assert s[0] in s;
      SumOfEqual(s, ch);
      MeanOfEqual(ch, |s| as real, SumCh(s));
    }
  }

  lemma {:induction false} MeanOfEqual(ch: real, n: real, sum: real)
    requires n != 0.0 && sum == ch * n
    ensures sum / n == ch
  {
  }

  lemma {:induction false} Ratio(part: real, whole: real)
    requires 0.0 <= part <= whole && whole > 0.0
    ensures 0.0 <= part / whole <= 1.0
    ensures part / whole == 0.0 <==> part == 0.0
  {
    var r := part / whole;
    Divide(r, part, whole);
    if r < 0.0 {
      PositiveProduct(-r, whole, -part);
    } else if r > 1.0 {
      PositiveProduct(r - 1.0, whole, part - whole);
    }
  }

  /** Samples exactly on a line give back that line, with R squared one. */
  lemma {:induction false} LineRecovered(s: seq<Sample>, m: real, c: real)
    requires s != [] && Denom(s) != 0.0
    requires OnLine(s, m, c)
    ensures Slope(s) == m && Intercept(s) == c && RSquared(s) == 1.0
  {
    SumSquaresSign(s, m, c);
    SumSquaresSign(s, Slope(s), Intercept(s));
    FitIsUniqueMinimiser(s, m, c);
    RSquaredRange(s);
  }

  // ---- compute_regression ----

  function Marked(points: seq<Point>): seq<MarkedPoint> {
    seq(|points|, i requires 0 <= i < |points| => MarkedPoint(points[i], PointIsValid(points[i])))
  }

  function ValidPoints(points: seq<Point>): (valid: seq<Point>)
    ensures forall p :: p in valid <==> p in points && PointIsValid(p)
  {
    if points == [] then []
    else ValidPoints(points[..|points| - 1])
         + (if PointIsValid(points[|points| - 1]) then [points[|points| - 1]] else [])
  }

  function Samples(points: seq<Point>, zOf: real -> real): (s: seq<Sample>)
    ensures |s| == |points|
    ensures forall i :: 0 <= i < |s| ==> s[i] == Sample(zOf(points[i].adc), points[i].ch)
  {
    seq(|points|, i requires 0 <= i < |points| => Sample(zOf(points[i].adc), points[i].ch))
  }

  function MinCh(points: seq<Point>): (m: real)
    requires points != []
    ensures forall p :: p in points ==> m <= p.ch
    ensures exists p :: p in points && p.ch == m
  {
    if |points| == 1 then assert points[0] in points; points[0].ch
    else
      var rest := MinCh(points[1..]);
      assert forall p :: p in points <==> p == points[0] || p in points[1..];
      if points[0].ch <= rest then points[0].ch else rest
  }

  function MaxCh(points: seq<Point>): (m: real)
    requires points != []
    ensures forall p :: p in points ==> p.ch <= m
    ensures exists p :: p in points && p.ch == m
  {
    if |points| == 1 then assert points[0] in points; points[0].ch
    else
      var rest := MaxCh(points[1..]);
      assert forall p :: p in points <==> p == points[0] || p in points[1..];
      if points[0].ch >= rest then points[0].ch else rest
  }

  function Fit(points: seq<Point>, zOf: real -> real): Result {
    var valid := ValidPoints(points);
    var s := Samples(valid, zOf);
    if |valid| < MIN_VALID_POINTS then TooFewPoints(|valid|)
    else if Denom(s) == 0.0 then Degenerate
    else Fitted(Regression(Slope(s), Intercept(s), RSquared(s), MinCh(valid), MaxCh(valid), Marked(points), |valid|))
  }

  /** The pass over the points: marks each one and collects the valid ones. */
  method MarkPoints(points: seq<Point>) returns (marked: seq<MarkedPoint>, valid: seq<Point>)
    ensures marked == Marked(points) && valid == ValidPoints(points)
  {
    marked, valid := [], [];
    for i := 0 to |points|
      invariant marked == Marked(points)[..i]
      invariant valid == ValidPoints(points[..i])
    {
      var ok := PointIsValid(points[i]);
      assert points[..i + 1][..i] == points[..i];
      marked := marked + [MarkedPoint(points[i], ok)];
      if ok {
        valid := valid + [points[i]];
      }
    }
    assert points[..|points|] == points;
  }

  /** The sums: coefficients and R squared, unless the denominator is zero. */
  method LeastSquares(s: seq<Sample>) returns (ok: bool, m: real, c: real, rSquared: real)
    requires s != []
    ensures ok <==> Denom(s) != 0.0
    ensures ok ==> m == Slope(s) && c == Intercept(s) && rSquared == RSquared(s)
  {
    var n := |s| as real;
    var sumZ, sumCh, sumZCh, sumZ2 := SumZ(s), SumCh(s), SumZCh(s), SumZ2(s);
    var denom := Covariation(n, sumZ2, sumZ, sumZ);
    if denom == 0.0 {
      return false, 0.0, 0.0, 0.0;
    }
    m := Covariation(n, sumZCh, sumZ, sumCh) / denom;
    c := Offset(sumCh, m, sumZ) / n;
    var mean := sumCh / n;
    var ssRes, ssTot := SumSquares(s, m, c), SumSquares(s, 0.0, mean);
    rSquared := if ssTot != 0.0 then 1.0 - ssRes / ssTot else 1.0;
    ok := true;
  }

  method ComputeRegression(points: seq<Point>, zOf: real -> real) returns (r: Result)
    ensures r == Fit(points, zOf)
  {
    var marked, valid := MarkPoints(points);
    if |valid| < MIN_VALID_POINTS {
      return TooFewPoints(|valid|);
    }
    var ok, m, c, rSquared := LeastSquares(Samples(valid, zOf));
    if !ok {
      return Degenerate;
    }
    r := Fitted(Regression(m, c, rSquared, MinCh(valid), MaxCh(valid), marked, |valid|));
  }

  ghost predicate DecreasingOnAdc(zOf: real -> real) {
    forall a, b :: 0.0 < a < b < 1023.0 ==> zOf(a) > zOf(b)
  }

  ghost predicate SameAdc(points: seq<Point>) {
    forall p, q :: p in points && q in points ==> p.adc == q.adc
  }

  lemma {:induction false} SamplesOf(points: seq<Point>, zOf: real -> real)
    ensures forall p :: p in points ==> Sample(zOf(p.adc), p.ch) in Samples(points, zOf)
    ensures forall x :: x in Samples(points, zOf) ==> exists p :: p in points && x == Sample(zOf(p.adc), p.ch)
  {
    var s := Samples(points, zOf);
    forall p | p in points
      ensures Sample(zOf(p.adc), p.ch) in s
    {
      var i :| 0 <= i < |points| && points[i] == p;
      assert s[i] == Sample(zOf(p.adc), p.ch);
    }
    forall x | x in s
      ensures exists p :: p in points && x == Sample(zOf(p.adc), p.ch)
    {
      var i :| 0 <= i < |s| && s[i] == x;
      assert points[i] in points;
    }
  }

  lemma {:induction false} ValidPointsAppend(a: seq<Point>, b: seq<Point>)
    ensures ValidPoints(a + b) == ValidPoints(a) + ValidPoints(b)
  {
    if b == [] {
      assert a + b == a;
    } else {
      ValidPointsAppend(a, b[..|b| - 1]);
      assert (a + b)[..|a + b| - 1] == a + b[..|b| - 1];
    }
  }

  /** The valid points are those with an adc in 1..1022 and a moisture in 8..25, in order, each as often as
      it is given; and each point is marked accordingly. */
  lemma {:induction false} ValidPointsAre(before: seq<Point>, p: Point, rest: seq<Point>)
    ensures ValidPoints(before + [p] + rest)
         == ValidPoints(before)
            + (if 1.0 <= p.adc <= 1022.0 && 8.0 <= p.ch <= 25.0 then [p] else [])
            + ValidPoints(rest)
    ensures |Marked(before + [p] + rest)| == |before| + 1 + |rest|
    ensures Marked(before + [p] + rest)[|before|]
         == MarkedPoint(p, 1.0 <= p.adc <= 1022.0 && 8.0 <= p.ch <= 25.0)
  {
    ValidPointsAppend(before + [p], rest);
    ValidPointsAppend(before, [p]);
    assert [p][..0] == [];
    assert ValidPoints([]) == [];
  }

  /** What a fit reports: the coefficients, the range of the valid moistures, their number and the marks. */
  lemma {:induction false} FitReports(points: seq<Point>, zOf: real -> real)
    requires Fit(points, zOf).Fitted?
    ensures var r, s := Fit(points, zOf).value, Samples(ValidPoints(points), zOf);
            && s != [] && Denom(s) != 0.0 && r.m == Slope(s) && r.c == Intercept(s) && r.rSquared == RSquared(s)
            && r.validCount == |ValidPoints(points)| >= 3 && r.points == Marked(points)
            && (forall p :: p in ValidPoints(points) ==> r.chMin <= p.ch <= r.chMax)
            && (exists p :: p in ValidPoints(points) && p.ch == r.chMin)
            && (exists p :: p in ValidPoints(points) && p.ch == r.chMax)
  {
  }

  /** The fit is refused exactly when fewer than three points are valid or all valid adc coincide. */
  lemma {:induction false} RegressionRefused(points: seq<Point>, zOf: real -> real)
    requires DecreasingOnAdc(zOf)
    ensures Fit(points, zOf).TooFewPoints? <==> |ValidPoints(points)| < 3
    ensures Fit(points, zOf).Degenerate? <==> |ValidPoints(points)| >= 3 && SameAdc(ValidPoints(points))
  {
    var valid := ValidPoints(points);
    var s := Samples(valid, zOf);
    DenomSign(s);
    SamplesOf(valid, zOf);
    if Denom(s) == 0.0 {
      forall p, q | p in valid && q in valid
        ensures p.adc == q.adc
      {
        assert Sample(zOf(p.adc), p.ch) in s && Sample(zOf(q.adc), q.ch) in s;
      }
    }
    if SameAdc(valid) {
      forall x, y | x in s && y in s
        ensures x.z == y.z
      {
        var p :| p in valid && x == Sample(zOf(p.adc), p.ch);
        var q :| q in valid && y == Sample(zOf(q.adc), q.ch);
        assert p.adc == q.adc;
      }
    }
  }

  /** The calibration curve: a line in z. */
  function OnCurve(adc: real, m: real, c: real, zOf: real -> real): real {
    m * zOf(adc) + c
  }

  ghost predicate PointsOnLine(points: seq<Point>, zOf: real -> real, m: real, c: real) {
    forall p :: p in points ==> p.ch == OnCurve(p.adc, m, c, zOf)
  }

  lemma {:induction false} SamplesOnLine(points: seq<Point>, zOf: real -> real, m: real, c: real)
    requires PointsOnLine(points, zOf, m, c)
    ensures OnLine(Samples(points, zOf), m, c)
  {
    SamplesOf(points, zOf);
  }

  /** Valid points on a line with at least two different adc among three or more are fitted by that
      line, with R squared one, whatever the invalid points are. */
  lemma {:induction false} PointsOnLineRecovered(points: seq<Point>, zOf: real -> real, m: real, c: real)
    requires DecreasingOnAdc(zOf) && |ValidPoints(points)| >= 3 && !SameAdc(ValidPoints(points))
    requires PointsOnLine(ValidPoints(points), zOf, m, c)
    ensures Fit(points, zOf).Fitted?
    ensures var r := Fit(points, zOf).value; r.m == m && r.c == c && r.rSquared == 1.0
  {
    var valid := ValidPoints(points);
    RegressionRefused(points, zOf);
    SamplesOnLine(valid, zOf, m, c);
    LineRecovered(Samples(valid, zOf), m, c);
  }

  // ---- apply_calibration ----

  /** round(y), ties to even. */
  function RoundHalfEven(y: real): int {
    var f := y.Floor;
    var d := y - f as real;
    if d < 0.5 then f else if d > 0.5 then f + 1 else if f % 2 == 0 then f else f + 1
  }

  /** round(x, 1) */
  function Round1(x: real): real {
    RoundHalfEven(10.0 * x) as real / 10.0
  }

  /** The converted moisture, if the adc is in (0, 1023), and whether it is extrapolated. */
  function ApplyCalibration(adc: Option<real>, m: real, c: real, chMin: real, chMax: real, zOf: real -> real): (Option<real>, bool) {
    match adc
    case None => (None, false)
    case Some(a) =>
      if a <= 0.0 || a >= 1023.0 then (None, false)
      else Report(OnCurve(a, m, c, zOf), chMin, chMax)
  }

  function Report(ch: real, chMin: real, chMax: real): (Option<real>, bool) {
    (Some(Round1(ch)), Round1(ch) < chMin || Round1(ch) > chMax)
  }

  /** round() is the nearest whole number, and of two equally near ones the even. */
  lemma {:induction false} RoundNearest(y: real, n: int)
    ensures RoundHalfEven(y) == n <==>
            -0.5 <= y - n as real <= 0.5 && ((y - n as real == 0.5 || y - n as real == -0.5) ==> n % 2 == 0)
  {
    var f := y.Floor;
    if -0.5 <= y - n as real <= 0.5 {
      assert n == f || n == f + 1;
    }
  }

  /** What a conversion gives: nothing for a missing adc or one outside the open interval (0, 1023), else
      the curve to the nearest tenth, flagged if that is outside the range. */
  lemma {:induction false} ConversionIs(adc: Option<real>, m: real, c: real, chMin: real, chMax: real, zOf: real -> real, tenths: int)
    ensures adc.None? || adc.value <= 0.0 || 1023.0 <= adc.value ==>
              ApplyCalibration(adc, m, c, chMin, chMax, zOf) == (None, false)
    ensures adc.Some? && 0.0 < adc.value < 1023.0 && RoundHalfEven(10.0 * OnCurve(adc.value, m, c, zOf)) == tenths ==>
              ApplyCalibration(adc, m, c, chMin, chMax, zOf)
              == (Some(tenths as real / 10.0), tenths as real / 10.0 < chMin || tenths as real / 10.0 > chMax)
  {
  }

  lemma {:induction false} RoundMonotone(x: real, y: real)
    requires x <= y
    ensures RoundHalfEven(x) <= RoundHalfEven(y)
  {
    if x.Floor < y.Floor {
      assert RoundHalfEven(x) <= x.Floor + 1 <= y.Floor;
    }
  }

  lemma {:induction false} Round1Monotone(x: real, y: real)
    requires x <= y
    ensures Round1(x) <= Round1(y)
  {
    RoundMonotone(10.0 * x, 10.0 * y);
  }

  lemma {:induction false} ConvertOnLine(p: Point, m: real, c: real, chMin: real, chMax: real, zOf: real -> real)
    requires PointIsValid(p) && p.ch == OnCurve(p.adc, m, c, zOf)
    ensures ApplyCalibration(Some(p.adc), m, c, chMin, chMax, zOf) == Report(p.ch, chMin, chMax)
  {
  }

  /** Is the point reported as outside the range of the calibration? */
  predicate Extrapolated(p: Point, r: Regression, zOf: real -> real) {
    ApplyCalibration(Some(p.adc), r.m, r.c, r.chMin, r.chMax, zOf).1
  }

  lemma {:induction false} LineMonotone(m: real, c: real, x: real, y: real, lineX: real, lineY: real)
    requires x >= y && lineX == m * x + c && lineY == m * y + c
    ensures m >= 0.0 ==> lineX >= lineY
    ensures m <= 0.0 ==> lineX <= lineY
  {
    var d := x - y;
    assert lineX - lineY == m * d;
    if m > 0.0 && d > 0.0 {
      PositiveProduct(m, d, lineX - lineY);
    } else if m < 0.0 && d > 0.0 {
      PositiveProduct(-m, d, lineY - lineX);
    }
  }

  /** The converted moisture is monotone in the adc, in the direction the slope gives. */
  lemma {:induction false} CurveMonotone(a: real, b: real, m: real, c: real, zOf: real -> real)
    requires DecreasingOnAdc(zOf) && 0.0 < a <= b < 1023.0
    ensures m >= 0.0 ==> Round1(OnCurve(a, m, c, zOf)) >= Round1(OnCurve(b, m, c, zOf))
    ensures m <= 0.0 ==> Round1(OnCurve(a, m, c, zOf)) <= Round1(OnCurve(b, m, c, zOf))
  {
    var atA, atB := OnCurve(a, m, c, zOf), OnCurve(b, m, c, zOf);
    LineMonotone(m, c, zOf(a), zOf(b), atA, atB);
    if atA >= atB {
      Round1Monotone(atB, atA);
    }
    if atA <= atB {
      Round1Monotone(atA, atB);
    }
  }

  lemma {:induction false} BetweenInRange(low: Point, p: Point, high: Point, r: Regression, zOf: real -> real)
    requires DecreasingOnAdc(zOf) && 0.0 < low.adc <= p.adc <= high.adc < 1023.0
    requires !Extrapolated(low, r, zOf) && !Extrapolated(high, r, zOf)
    ensures !Extrapolated(p, r, zOf)
  {
    CurveMonotone(low.adc, p.adc, r.m, r.c, zOf);
    CurveMonotone(p.adc, high.adc, r.m, r.c, zOf);
  }

  /** Of whatever points a calibration was fitted to, none is reported as extrapolated if and only if
      the valid points of smallest and largest adc are not. */
  lemma {:induction false} CalibrationPointsInRange(points: seq<Point>, zOf: real -> real, low: Point, high: Point)
    requires DecreasingOnAdc(zOf) && Fit(points, zOf).Fitted?
    requires low in ValidPoints(points) && high in ValidPoints(points)
    requires forall p :: p in ValidPoints(points) ==> low.adc <= p.adc <= high.adc
    ensures var r := Fit(points, zOf).value;
            (forall p :: p in ValidPoints(points) ==> !Extrapolated(p, r, zOf))
            <==> !Extrapolated(low, r, zOf) && !Extrapolated(high, r, zOf)
  {
    var r := Fit(points, zOf).value;
    if !Extrapolated(low, r, zOf) && !Extrapolated(high, r, zOf) {
      forall p | p in ValidPoints(points)
        ensures !Extrapolated(p, r, zOf)
      {
        BetweenInRange(low, p, high, r, zOf);
      }
    }
  }

  /** Calibrating with points exactly on a line: every calibration point converts to its own
      moisture rounded to a decimal, and none is reported as extrapolated exactly when rounding
      does not push the two ends of the range outside it. */
  lemma {:induction false} LinePointsInRange(points: seq<Point>, zOf: real -> real, m: real, c: real)
    requires DecreasingOnAdc(zOf) && |ValidPoints(points)| >= 3 && !SameAdc(ValidPoints(points))
    requires PointsOnLine(ValidPoints(points), zOf, m, c)
    ensures Fit(points, zOf).Fitted?
    ensures var r := Fit(points, zOf).value;
            (forall p :: p in ValidPoints(points) ==> !Extrapolated(p, r, zOf))
            <==> Round1(r.chMin) >= r.chMin && Round1(r.chMax) <= r.chMax
  {
    PointsOnLineRecovered(points, zOf, m, c);
    var r := Fit(points, zOf).value;
    var valid := ValidPoints(points);
    forall p | p in valid
      ensures Extrapolated(p, r, zOf) <==> Round1(p.ch) < r.chMin || Round1(p.ch) > r.chMax
      ensures Round1(r.chMin) <= Round1(p.ch) <= Round1(r.chMax)
    {
      ConvertOnLine(p, m, c, r.chMin, r.chMax, zOf);
      Round1Monotone(r.chMin, p.ch);
      Round1Monotone(p.ch, r.chMax);
    }
    var low :| low in valid && low.ch == r.chMin;
    var high :| high in valid && high.ch == r.chMax;
    assert !Extrapolated(low, r, zOf) ==> Round1(r.chMin) >= r.chMin;
    assert !Extrapolated(high, r, zOf) ==> Round1(r.chMax) <= r.chMax;
  }

  lemma {:induction false} Round804()
    ensures Round1(8.04) == 8.0
  {
    assert 10.0 * 8.04 == 80.4;
    assert (80.4).Floor == 80;
    assert RoundHalfEven(80.4) == 80;
  }

  /** A calibration range that ends at 8.04% reports its own lowest point as extrapolated. */
  lemma {:induction false} EndOfRangeFlagged(p: Point, m: real, c: real, chMax: real, zOf: real -> real)
    requires PointIsValid(p) && p.ch == 8.04 && p.ch == OnCurve(p.adc, m, c, zOf)
    ensures ApplyCalibration(Some(p.adc), m, c, 8.04, chMax, zOf) == (Some(8.0), true)
  {
    ConvertOnLine(p, m, c, 8.04, chMax, zOf);
    Round804();
  }

  lemma {:induction false} SumsOfThree(x: Sample, y: Sample, w: Sample)
    ensures var s := [x, y, w];
            SumZ(s) == x.z + y.z + w.z && SumCh(s) == x.ch + y.ch + w.ch
            && SumZCh(s) == x.z * x.ch + y.z * y.ch + w.z * w.ch && SumZ2(s) == x.z * x.z + y.z * y.z + w.z * w.z
  {
    var one, two, three := [w], [y, w], [x, y, w];
    assert one[1..] == [] && two[1..] == one && three[1..] == two;
    assert SumZ(one) == w.z && SumCh(one) == w.ch && SumZCh(one) == w.z * w.ch && SumZ2(one) == w.z * w.z;
    assert SumZ(two) == y.z + w.z && SumCh(two) == y.ch + w.ch;
    assert SumZCh(two) == y.z * y.ch + w.z * w.ch && SumZ2(two) == y.z * y.z + w.z * w.z;
  }

  lemma {:induction false} OffLineFit(s: seq<Sample>)
    requires s == [Sample(0.0, 10.0), Sample(1.0, 10.0), Sample(2.0, 13.0)]
    ensures Denom(s) == 6.0 && Slope(s) == 1.5 && Intercept(s) == 9.5
  {
    SumsOfThree(s[0], s[1], s[2]);
  }

  lemma {:induction false} OneMoreValid(front: seq<Point>, p: Point)
    requires PointIsValid(p)
    ensures ValidPoints(front + [p]) == ValidPoints(front) + [p]
  {
    assert (front + [p])[..|front|] == front;
  }

  lemma {:induction false} ThreeValid(p: Point, q: Point, r: Point)
    requires PointIsValid(p) && PointIsValid(q) && PointIsValid(r)
    ensures ValidPoints([p, q, r]) == [p, q, r]
  {
    OneMoreValid([], p);
    OneMoreValid([p], q);
    OneMoreValid([p, q], r);
    assert [] + [p] == [p] && [p] + [q] == [p, q] && [p, q] + [r] == [p, q, r];
  }

  /** Points off the line are flagged although both ends of the range are whole: z of 0, 1 and 2 with
      moistures 10, 10 and 13 give the line 1.5 * z + 9.5, which puts the first point below 10. */
  lemma {:induction false} OffLineFlagged(p: Point, q: Point, w: Point, zOf: real -> real)
    requires PointIsValid(p) && PointIsValid(q) && PointIsValid(w)
    requires zOf(p.adc) == 0.0 && zOf(q.adc) == 1.0 && zOf(w.adc) == 2.0
    requires p.ch == 10.0 && q.ch == 10.0 && w.ch == 13.0
    ensures Fit([p, q, w], zOf).Fitted?
    ensures Fit([p, q, w], zOf).value.m == 1.5 && Fit([p, q, w], zOf).value.c == 9.5
    ensures Fit([p, q, w], zOf).value.chMin == 10.0 && Fit([p, q, w], zOf).value.chMax == 13.0
    ensures Extrapolated(p, Fit([p, q, w], zOf).value, zOf)
  {
    var points := [p, q, w];
    ThreeValid(p, q, w);
    var s := Samples(points, zOf);
    assert s == [Sample(0.0, 10.0), Sample(1.0, 10.0), Sample(2.0, 13.0)];
    OffLineFit(s);
    EndsOfThree(p, q, w);
    Round95();
  }

  lemma {:induction false} EndsOfThree(p: Point, q: Point, w: Point)
    requires p.ch == 10.0 && q.ch == 10.0 && w.ch == 13.0
    ensures MinCh([p, q, w]) == 10.0 && MaxCh([p, q, w]) == 13.0
  {
    assert p in [p, q, w] && w in [p, q, w];
  }

  lemma {:induction false} Round95()
    ensures Round1(9.5) == 9.5
  {
    assert (95.0).Floor == 95;
  }
}
