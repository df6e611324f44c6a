/** Cosine similarity over exact reals (the model of
    `VectorSearch.CosineSimilarity`).

    The source divides the dot product by the product of two square roots. A
    square root of a real cannot be computed exactly, so the model keeps the
    SIGNED SQUARE of the cosine instead: `CosineKey(a, b)` is `c * |c|` where
    `c` is the cosine the source computes over reals. The map `x -> x * |x|` is
    strictly increasing, so comparing keys is comparing cosines, and the key of
    a threshold `t` is `t * |t|`. `IsCosine` characterises the real cosine
    without a square root, and `CosineKeyOfCosine` ties the two together. */
module Similarity {

  import opened Reals

  type Vector = seq<real>

  /** Dot product, accumulated front to back as the source's loop does. */
  function Dot(a: Vector, b: Vector): real
    requires |a| == |b|
    decreases |a|
  {
    if |a| == 0 then 0.0
    else Dot(a[..|a| - 1], b[..|b| - 1]) + Mul(a[|a| - 1], b[|b| - 1])
  }

  /** Squared magnitude (`magA` / `magB` in the source). */
  function SumSq(a: Vector): real
  {
    Dot(a, a)
  }

  /** The all-zero vector of a given length (`new float[n]`). */
  function Zero(n: nat): (z: Vector)
    ensures |z| == n
    ensures forall i :: 0 <= i < n ==> z[i] == 0.0
  {
    seq(n, _ => 0.0)
  }

  /** `x * |x|`: the key of a score. */
  function SignedSquare(x: real): real
  {
    if x >= 0.0 then Mul(x, x) else -Mul(x, x)
  }

  /** The signed square keeps the sign of its argument. */
  lemma SignedSquareSign(x: real)
    ensures x > 0.0 <==> SignedSquare(x) > 0.0
    ensures x == 0.0 <==> SignedSquare(x) == 0.0
    ensures x < 0.0 <==> SignedSquare(x) < 0.0
  {
    SquarePositive(x);
    MulZero(x);
  }

  lemma SignedSquareStrict(x: real, y: real)
    requires x < y
    ensures SignedSquare(x) < SignedSquare(y)
  {
    if 0.0 <= x {
      SquareStrict(x, y);
    } else if y < 0.0 {
      SquareStrict(-y, -x);
      MulNegations(x, x);
      MulNegations(y, y);
    } else {
      SignedSquareSign(x);
      SignedSquareSign(y);
    }
  }

  /** Keys compare exactly as the values they are keys of. */
  lemma SignedSquareOrder(x: real, y: real)
    ensures x < y <==> SignedSquare(x) < SignedSquare(y)
    ensures x <= y <==> SignedSquare(x) <= SignedSquare(y)
  {
    if x < y {
      SignedSquareStrict(x, y);
    } else if y < x {
      SignedSquareStrict(y, x);
    }
  }

  lemma {:induction false} SumSqNonNegative(a: Vector)
    ensures SumSq(a) >= 0.0
    decreases |a|
  {
    if |a| > 0 {
      SumSqNonNegative(a[..|a| - 1]);
      SquareNonNegative(a[|a| - 1]);
    }
  }

  /** A vector of zeros has squared magnitude 0. */
  lemma {:induction false} SumSqOfZeros(a: Vector)
    requires forall i :: 0 <= i < |a| ==> a[i] == 0.0
    ensures SumSq(a) == 0.0
    decreases |a|
  {
    if |a| > 0 {
      SumSqOfZeros(a[..|a| - 1]);
      MulZero(0.0);
    }
  }

  /** The Cauchy-Schwarz inequality: the squared dot product never exceeds the
      product of the squared magnitudes. */
  lemma {:induction false} CauchySchwarz(a: Vector, b: Vector)
    requires |a| == |b|
    ensures Mul(Dot(a, b), Dot(a, b)) <= Mul(SumSq(a), SumSq(b))
    decreases |a|
  {
    if |a| > 0 {
      var n := |a| - 1;
      var a', b' := a[..n], b[..n];
      var x, y := a[n], b[n];
      CauchySchwarz(a', b');
      SumSqNonNegative(a');
      SumSqNonNegative(b');
      var d, ma, mb := Dot(a', b'), SumSq(a'), SumSq(b');
      assert Dot(a, b) == d + Mul(x, y);
      assert SumSq(a) == ma + Mul(x, x);
      assert SumSq(b) == mb + Mul(y, y);
      CrossTermBound(d, ma, mb, x, y);
      ExpandSquareOfSum(d, Mul(x, y));
      ExpandProductOfSums(ma, Mul(x, x), mb, Mul(y, y));
      SquareOfProduct(x, y);
      MulCommutes(Mul(x, x), mb);
    }
  }

  /** The step of Cauchy-Schwarz: `2dxy <= ma*y^2 + mb*x^2` when `d^2 <= ma*mb`. */
  lemma CrossTermBound(d: real, ma: real, mb: real, x: real, y: real)
    requires ma >= 0.0 && mb >= 0.0 && Mul(d, d) <= Mul(ma, mb)
    ensures 2.0 * Mul(d, Mul(x, y)) <= Mul(ma, Mul(y, y)) + Mul(mb, Mul(x, x))
  {
    var p, q, r := Mul(x, y), Mul(x, x), Mul(y, y);
    SquareNonNegative(x);
    SquareNonNegative(y);
    SquarePositive(d);
    MulNonNegative(mb, q);
    if ma == 0.0 {
      MulZero(mb);
      MulZero(r);
      MulZero(p);
    } else {
      var e := Mul(ma, y) - Mul(d, x);
      SquareNonNegative(e);
      ExpandSquareOfDifference(ma, y, d, x);
      MulLeftMonotone(q, Mul(d, d), Mul(ma, mb));
      MulCommutes(q, Mul(d, d));
      MulCommutes(q, Mul(ma, mb));
      var t := Mul(ma, r) + Mul(mb, q) - 2.0 * Mul(d, p);
      ExpandScaledCrossTerm(ma, mb, q, r, d, p);
      CancelPositive(ma, t);
    }
  }

  /** The relation between two vectors and the cosine the source computes over
      reals: 0 under the zero-magnitude guard, otherwise the unique `c` with
      `c * sqrt(magA) * sqrt(magB) == dot`, stated without square roots as
      `c^2 * magA * magB == dot^2` with `c` of the sign of `dot`. */
  ghost predicate IsCosine(c: real, a: Vector, b: Vector)
    requires |a| == |b|
  {
    if SumSq(a) == 0.0 || SumSq(b) == 0.0 then c == 0.0
    else
      && Mul(Mul(c, c), Mul(SumSq(a), SumSq(b))) == Mul(Dot(a, b), Dot(a, b))
      && Mul(c, Dot(a, b)) >= 0.0
  }

  /** The signed square of the cosine, exact over reals: 0 when either vector
      has zero magnitude, always within [-1, 1], and positive exactly when
      both magnitudes and the dot product are. */
  function CosineKey(a: Vector, b: Vector): (k: real)
    requires |a| == |b|
    ensures SumSq(a) == 0.0 || SumSq(b) == 0.0 ==> k == 0.0
    ensures -1.0 <= k <= 1.0
    ensures k > 0.0 <==> Dot(a, b) > 0.0 && SumSq(a) != 0.0 && SumSq(b) != 0.0
  {
    var d, ma, mb := Dot(a, b), SumSq(a), SumSq(b);
    if ma == 0.0 || mb == 0.0 then 0.0
    else
      SumSqNonNegative(a);
      SumSqNonNegative(b);
      MulPositive(ma, mb);
      CauchySchwarz(a, b);
      SquareNonNegative(d);
      SignedSquareSign(d);
      KeyBounds(SignedSquare(d), Mul(d, d), Mul(ma, mb));
      SignedSquare(d) / Mul(ma, mb)
  }

  /** A quotient `s / p` with `|s| <= p` lies in [-1, 1] and has the sign of `s`. */
  lemma KeyBounds(s: real, dd: real, p: real)
    requires p > 0.0 && 0.0 <= dd <= p && (s == dd || s == -dd)
    ensures -1.0 <= s / p <= 1.0
    ensures s / p > 0.0 <==> s > 0.0
  {
    var k := s / p;
    assert p * k == s;
    assert Mul(p, 1.0 - k) == p - s;
    CancelPositive(p, 1.0 - k);
    assert Mul(p, k + 1.0) == s + p;
    CancelPositive(p, k + 1.0);
    assert Mul(p, k) == s;
    MulPositive(p, k);
    CancelPositive(p, k);
  }

  /** The key is the signed square of the real cosine of the same vectors, so
      ordering by key is ordering by cosine. */
  lemma CosineKeyOfCosine(c: real, a: Vector, b: Vector)
    requires |a| == |b|
    requires IsCosine(c, a, b)
    ensures CosineKey(a, b) == SignedSquare(c)
  {
    var d, ma, mb := Dot(a, b), SumSq(a), SumSq(b);
    if ma != 0.0 && mb != 0.0 {
      SumSqNonNegative(a);
      SumSqNonNegative(b);
      var p := Mul(ma, mb);
      MulPositive(ma, mb);
      DivideProduct(Mul(c, c), p, Mul(d, d));
      SignOfProduct(c, d);
      MulZero(c);
      if d > 0.0 {
        assert SignedSquare(c) == Mul(c, c);
      } else if d < 0.0 {
        MulNegations(Mul(c, c), p);
        DivideProduct(-Mul(c, c), p, -Mul(d, d));
        assert SignedSquare(c) == -Mul(c, c);
      } else {
        MulZero(d);
        SquarePositive(c);
        MulPositive(Mul(c, c), p);
        assert c == 0.0;
        MulZero(p);
      }
    }
  }

  /** `IsCosine` pins down at most one value. */
  lemma CosineUnique(c1: real, c2: real, a: Vector, b: Vector)
    requires |a| == |b|
    requires IsCosine(c1, a, b) && IsCosine(c2, a, b)
    ensures c1 == c2
  {
    CosineKeyOfCosine(c1, a, b);
    CosineKeyOfCosine(c2, a, b);
    SignedSquareOrder(c1, c2);
  }

  /** The zero-magnitude guard: a vector of zero magnitude has cosine 0 with
      every vector, on either side. */
  lemma ZeroMagnitudeCosine(a: Vector, b: Vector)
    requires |a| == |b|
    requires SumSq(a) == 0.0 || SumSq(b) == 0.0
    ensures IsCosine(0.0, a, b) && CosineKey(a, b) == 0.0
  {
  }

  /** A nonzero vector has cosine exactly 1 with itself. */
  lemma SelfCosine(a: Vector)
    requires SumSq(a) != 0.0
    ensures IsCosine(1.0, a, a) && CosineKey(a, a) == 1.0
  {
    SumSqNonNegative(a);
    MulOne(1.0);
    MulOne(Mul(SumSq(a), SumSq(a)));
    MulOne(SumSq(a));
    assert IsCosine(1.0, a, a);
    CosineKeyOfCosine(1.0, a, a);
  }

  /** The source's loop: accumulate `dot`, `magA` and `magB` over the
      `a.Length` positions of `a` (so only that prefix of `b` is read), return
      0 under the zero-magnitude guard, and otherwise the score, given here as
      its key. */
  method CosineSimilarity(a: Vector, b: Vector) returns (score: real)
    requires |a| <= |b|
    ensures score == CosineKey(a, b[..|a|])
    ensures forall c :: IsCosine(c, a, b[..|a|]) ==> score == SignedSquare(c)
  {
    var dot, magA, magB := 0.0, 0.0, 0.0;
    var i := 0;
    while i < |a|
      invariant 0 <= i <= |a|
      invariant dot == Dot(a[..i], b[..i])
      invariant magA == SumSq(a[..i])
      invariant magB == SumSq(b[..i])
    {
      assert a[..i + 1][..i] == a[..i];
      assert b[..i + 1][..i] == b[..i];
      dot := dot + Mul(a[i], b[i]);
      magA := magA + Mul(a[i], a[i]);
      magB := magB + Mul(b[i], b[i]);
      i := i + 1;
    }
    assert a[..i] == a;
    if magA == 0.0 || magB == 0.0 {
      return 0.0;
    }
    score := SignedSquare(dot) / Mul(magA, magB);
    forall c | IsCosine(c, a, b[..|a|])
      ensures score == SignedSquare(c)
    {
      CosineKeyOfCosine(c, a, b[..|a|]);
    }
  }
}
