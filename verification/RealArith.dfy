/** Small facts of real arithmetic, each stated over plain variables so that it is proved once.
    Where a square or product could be compared with zero its value gets a name of its own:
    the solver rewrites `a * a > 0.0` into `a != 0.0` and then no longer sees the product. */
module RealArith {

  lemma SquareSign(a: real, s: real)
    requires s == a * a
    ensures s >= 0.0
    ensures a != 0.0 ==> s > 0.0
  {
    if a > 0.0 {
      ProductPositive(a, a, s);
    } else if a < 0.0 {
      ProductPositive(-a, -a, s);
    }
  }

  lemma SumOfSquaresPositive(a: real, b: real, s: real)
    requires s == a * a + b * b
    requires a != 0.0 || b != 0.0
    ensures s > 0.0
  {
    var p, q := a * a, b * b;
    SquareSign(a, p);
    SquareSign(b, q);
    assert s == p + q;
  }

  lemma SquareNonNegative(a: real)
    ensures a * a >= 0.0
  {}

  lemma ProductNonNegative(a: real, b: real)
    requires a >= 0.0 && b >= 0.0
    ensures a * b >= 0.0
  {}

  lemma ProductPositive(a: real, b: real, p: real)
    requires a > 0.0 && b > 0.0 && p == a * b
    ensures p > 0.0
  {}

  lemma MulMonotone(a: real, b: real, c: real)
    requires a <= b && c >= 0.0
    ensures a * c <= b * c && c * a <= c * b
  {
    ProductNonNegative(b - a, c);
    assert b * c - a * c == (b - a) * c;
  }

  lemma SquareMonotone(a: real, b: real)
    requires 0.0 <= a && 0.0 <= b
    ensures a <= b <==> a * a <= b * b
    ensures a == b <==> a * a == b * b
  {
    if a < b {
      SquareStrict(a, b);
    } else if b < a {
      SquareStrict(b, a);
    }
  }

  lemma SquareStrict(a: real, b: real)
    requires 0.0 <= a < b
    ensures a * a < b * b
  {
    var d := b - a;
    ProductPositive(d, d, d * d);
    ProductNonNegative(a, d);
    assert b * b == (a + d) * (a + d) == a * a + 2.0 * (a * d) + d * d;
  }

  lemma DivTimes(a: real, b: real)
    requires b != 0.0
    ensures (a / b) * b == a
  {}

  lemma Inverse(m: real, a: real)
    requires m != 0.0 && a == 1.0 / m
    ensures a * m == 1.0
  {}

  lemma DivSign(a: real, b: real, q: real)
    requires b > 0.0 && q == a / b
    ensures q >= 0.0 <==> a >= 0.0
    ensures q > 0.0 <==> a > 0.0
  {
    assert q * b == a;
    if q > 0.0 {
      ProductPositive(q, b, a);
    } else if q < 0.0 {
      ProductPositive(-q, b, -a);
    }
  }
}
