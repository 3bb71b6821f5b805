// Small facts about products of reals, kept apart so that the solver meets them alone.
module RealAlgebra {

  lemma NegativeSquare(d: real)
    requires d < 0.0
    ensures d * d > 0.0
  {
    Positive(-d, -d);
    Opposite(d);
  }

  lemma SquareNonNegative(d: real)
    ensures d * d >= 0.0
  {
    if d < 0.0 { NegativeSquare(d); }
  }

  lemma SquareZero(d: real)
    ensures d * d == 0.0 <==> d == 0.0
  {
    if d * d == 0.0 { ZeroProduct(d, d); }
  }

  lemma Opposite(d: real)
    ensures (-d) * (-d) == d * d
  {}

  lemma Positive(a: real, b: real)
    requires a > 0.0 && b > 0.0
    ensures a * b > 0.0
  {}

  lemma NonNegativeProduct(a: real, b: real)
    requires a >= 0.0 && b >= 0.0
    ensures a * b >= 0.0
  {}

  lemma ZeroProduct(a: real, b: real)
    requires a * b == 0.0
    ensures a == 0.0 || b == 0.0
  {
    if a > 0.0 && b > 0.0 { Positive(a, b); }
    if a > 0.0 && b < 0.0 { Positive(a, -b); Negated(a, b); }
    if a < 0.0 && b > 0.0 { Positive(-a, b); NegatedLeft(a, b); }
    if a < 0.0 && b < 0.0 { Positive(-a, -b); Negated(-a, b); NegatedLeft(a, b); }
  }

  lemma Negated(a: real, b: real)
    ensures a * (-b) == -(a * b)
  {}

  lemma NegatedLeft(a: real, b: real)
    ensures (-a) * b == -(a * b)
  {}

  lemma Opposites(a: real, b: real)
    ensures (-a) * (-b) == a * b
  {}

  lemma Cancel(a: real, b: real, c: real)
    requires c != 0.0 && a * c == b * c
    ensures a == b
  {
    assert (a - b) * c == a * c - b * c;
    ZeroProduct(a - b, c);
  }

  lemma CancelIff(a: real, b: real, c: real)
    requires c != 0.0
    ensures a * c == b * c <==> a == b
  {
    if a * c == b * c {
      Cancel(a, b, c);
    }
  }

  // The sign of a product with a positive factor is the sign of the other factor.
  lemma SignOf(a: real, c: real)
    requires c > 0.0
    ensures a * c >= 0.0 <==> a >= 0.0
    ensures a * c == 0.0 <==> a == 0.0
  {
    if a < 0.0 { Positive(-a, c); NegatedLeft(a, c); }
    if a > 0.0 { Positive(a, c); }
  }

  lemma SquaresEqual(a: real, b: real)
    requires a == b
    ensures a * a == b * b
  {}

  lemma CancelSquare(a: real, b: real, n: real)
    requires n != 0.0
    ensures a * (n * n) == b * (n * n) <==> a == b
  {
    Assoc(a, n, n);
    Assoc(b, n, n);
    CancelIff(a * n, b * n, n);
    CancelIff(a, b, n);
  }

  lemma CancelTo(l: real, a: real, r: real, b: real, c: real)
    requires c != 0.0 && l == a * c && r == b * c
    ensures l == r <==> a == b
  {
    CancelIff(a, b, c);
  }

  lemma CancelSquareTo(l: real, a: real, r: real, b: real, n: real)
    requires n != 0.0 && l == a * (n * n) && r == b * (n * n)
    ensures l == r <==> a == b
  {
    SquareZero(n);
    CancelTo(l, a, r, b, n * n);
  }

  lemma SignOfSquare(a: real, n: real)
    requires n > 0.0
    ensures a * (n * n) >= 0.0 <==> a >= 0.0
    ensures a * (n * n) == 0.0 <==> a == 0.0
  {
    Assoc(a, n, n);
    SignOf(a * n, n);
    SignOf(a, n);
  }

  lemma Assoc(a: real, b: real, c: real)
    ensures (a * b) * c == a * (b * c)
  {}

  // (ab)(ab) = (aa)(bb)
  lemma SquareOfProduct(a: real, b: real)
    ensures (a * b) * (a * b) == (a * a) * (b * b)
  {
    calc {
      (a * b) * (a * b);
      { Assoc(a, b, a * b); }
      a * (b * (a * b));
      { Assoc(b, a, b); }
      a * ((b * a) * b);
      { Assoc(a, b, b); }
      a * (a * (b * b));
      { Assoc(a, a, b * b); }
      (a * a) * (b * b);
    }
  }

  lemma SquareOfSum(a: real, b: real)
    ensures (a + b) * (a + b) == a * a + 2.0 * (a * b) + b * b
  {}

  lemma SquareOfDifference(a: real, b: real)
    ensures (a - b) * (a - b) == a * a - 2.0 * (a * b) + b * b
  {}

  lemma DistributeRight(a: real, b: real, c: real)
    ensures (a - b) * c == a * c - b * c
    ensures (a + b) * c == a * c + b * c
  {}

  lemma DivMul(a: real, b: real)
    requires b != 0.0
    ensures (a / b) * b == a
  {}

  lemma QuotientIs(a: real, b: real, q: real)
    requires b != 0.0 && q * b == a
    ensures q == a / b
  {
    DivMul(a, b);
    Cancel(q, a / b, b);
  }
}
