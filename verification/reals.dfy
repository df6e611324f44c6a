/** Real multiplication as a named function, with the facts about it that the
    similarity proofs use. Products are written `Mul(x, y)` throughout the
    vector model so that the solver treats each product as one term and
    reasons about it linearly; every nonlinear fact is proved once here. */
module Reals {

  function Mul(x: real, y: real): real
  {
    x * y
  }

  lemma MulCommutes(x: real, y: real)
    ensures Mul(x, y) == Mul(y, x)
  {
  }

  lemma MulZero(x: real)
    ensures Mul(0.0, x) == 0.0 && Mul(x, 0.0) == 0.0
  {
  }

  lemma MulOne(x: real)
    ensures Mul(1.0, x) == x && Mul(x, 1.0) == x
  {
  }

  lemma MulNegations(x: real, y: real)
    ensures Mul(-x, -y) == Mul(x, y)
    ensures Mul(-x, y) == -Mul(x, y)
  {
  }

  lemma MulPositive(x: real, y: real)
    ensures x > 0.0 && y > 0.0 ==> Mul(x, y) > 0.0
  {
  }

  lemma MulNonNegative(x: real, y: real)
    requires x >= 0.0 && y >= 0.0
    ensures Mul(x, y) >= 0.0
  {
  }

  /** Multiplying by a non-negative factor keeps `<=`. */
  lemma MulLeftMonotone(z: real, x: real, y: real)
    requires z >= 0.0 && x <= y
    ensures Mul(z, x) <= Mul(z, y)
  {
    assert z * (y - x) >= 0.0;
    assert z * (y - x) == z * y - z * x;
  }

  /** Multiplying by a positive factor keeps `<`. */
  lemma MulLeftStrict(z: real, x: real, y: real)
    requires z > 0.0 && x < y
    ensures Mul(z, x) < Mul(z, y)
  {
    assert z * (y - x) > 0.0;
    assert z * (y - x) == z * y - z * x;
  }

  /** A square is never negative. */
  lemma SquareNonNegative(x: real)
    ensures Mul(x, x) >= 0.0
  {
    if x < 0.0 {
      MulNegations(x, x);
      MulPositive(-x, -x);
    }
  }

  /** Only 0 has square 0. */
  lemma SquarePositive(x: real)
    ensures x != 0.0 ==> Mul(x, x) > 0.0
  {
    if x > 0.0 {
      MulPositive(x, x);
    } else if x < 0.0 {
      MulNegations(x, x);
      MulPositive(-x, -x);
    }
  }

  /** Squaring is strictly increasing on the non-negative reals. */
  lemma SquareStrict(x: real, y: real)
    requires 0.0 <= x < y
    ensures Mul(x, x) < Mul(y, y)
  {
    MulLeftMonotone(x, x, y);
    MulLeftStrict(y, x, y);
    MulCommutes(x, y);
  }

  /** A positive factor can be cancelled from a non-negative product. */
  lemma CancelPositive(z: real, t: real)
    ensures z > 0.0 && Mul(z, t) >= 0.0 ==> t >= 0.0
  {
    if z > 0.0 && t < 0.0 {
      MulLeftStrict(z, t, 0.0);
      MulZero(z);
    }
  }

  /** The sign of a product with a positive factor is the sign of the other. */
  lemma SignOfProduct(c: real, d: real)
    ensures d > 0.0 && Mul(c, d) >= 0.0 ==> c >= 0.0
    ensures d < 0.0 && Mul(c, d) >= 0.0 ==> c <= 0.0
  {
    MulCommutes(c, d);
    CancelPositive(d, c);
    MulNegations(c, d);
    CancelPositive(-d, -c);
  }

  /** Dividing a product by one of its nonzero factors leaves the other. */
  lemma DivideProduct(u: real, p: real, w: real)
    requires p != 0.0 && Mul(u, p) == w
    ensures w / p == u
  {
  }

  lemma Distribute(z: real, x: real, y: real)
    ensures Mul(z, x + y) == Mul(z, x) + Mul(z, y)
    ensures Mul(x + y, z) == Mul(x, z) + Mul(y, z)
    ensures Mul(z, x - y) == Mul(z, x) - Mul(z, y)
  {
  }

  lemma ExpandSquareOfSum(d: real, p: real)
    ensures Mul(d + p, d + p) == Mul(d, d) + 2.0 * Mul(d, p) + Mul(p, p)
  {
  }

  lemma ExpandProductOfSums(m: real, q: real, n: real, r: real)
    ensures Mul(m + q, n + r) == Mul(m, n) + Mul(m, r) + Mul(q, n) + Mul(q, r)
  {
  }

  lemma SquareOfProduct(x: real, y: real)
    ensures Mul(Mul(x, y), Mul(x, y)) == Mul(Mul(x, x), Mul(y, y))
  {
  }

  /** `(m*y - d*x)^2 = m^2*y^2 - 2*m*d*x*y + d^2*x^2`, with the products
      grouped as the Cauchy-Schwarz step needs them. */
  lemma ExpandSquareOfDifference(m: real, y: real, d: real, x: real)
    ensures Mul(Mul(m, y) - Mul(d, x), Mul(m, y) - Mul(d, x))
         == Mul(m, Mul(m, Mul(y, y))) - 2.0 * Mul(m, Mul(d, Mul(x, y))) + Mul(Mul(d, d), Mul(x, x))
  {
  }

  /** `m * (m*r + n*q - 2*d*p) = m^2*r + (m*n)*q - 2*m*d*p`. */
  lemma ExpandScaledCrossTerm(m: real, n: real, q: real, r: real, d: real, p: real)
    ensures Mul(m, Mul(m, r) + Mul(n, q) - 2.0 * Mul(d, p))
         == Mul(m, Mul(m, r)) + Mul(Mul(m, n), q) - 2.0 * Mul(m, Mul(d, p))
  {
  }
}
