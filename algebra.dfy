/** Field identities over plain reals. The branch lemmas call them with
    polynomial values as arguments, so that the solver never has to rewrite
    inside a product or a quotient of large polynomials. */
module Algebra {
  /** y^(n+1)·((1/y)·s) == y^n·s. */
  lemma ScaleInverse(y: real, p: real, s: real)
    requires y != 0.0
    ensures (y * p) * ((1.0 / y) * s) == p * s
  {
  }

  /** A common factor cancels: if n == k·a and d == k·b then n/d == a/b. */
  lemma CancelRatio(k: real, a: real, b: real, n: real, d: real)
    requires k != 0.0 && b != 0.0 && n == k * a && d == k * b
    ensures n / d == a / b
  {
  }

  /** (s·a)/b == s·(a/b). */
  lemma ScaledQuotient(s: real, a: real, b: real)
    requires b != 0.0
    ensures (s * a) / b == s * (a / b)
  {
  }

  /** The reflected arctan recombination -s·a/b + s·π/2 is s·(π/2 - a/b). */
  lemma SignedReflection(s: real, a: real, b: real, k: real, pi: real)
    requires b != 0.0 && a / b == k
    ensures -s * a / b + s * 0.5 * pi == s * (pi / 2.0 - k)
  {
  }

  /** Equal numerators over equal denominators give equal quotients. */
  lemma SameQuotient(a: real, a': real, b: real, b': real)
    requires a == a' && b == b' && b != 0.0
    ensures a / b == a' / b'
  {
  }

  /** Equal factors give equal products. */
  lemma Congruence(a: real, a': real, b: real, b': real)
    requires a == a' && b == b'
    ensures a * b == a' * b'
  {
  }

  /** The inverted Ti2 recombination s·a/b + s·(π/2)·l is s·(a/b + (π/2)·l). */
  lemma SignedInversion(s: real, a: real, b: real, k: real, pi: real, l: real)
    requires b != 0.0 && a / b == k
    ensures s * a / b + s * 0.5 * pi * l == s * (k + pi / 2.0 * l)
  {
  }

  /** A reflected branch, in one step: the quotient n/d of the reversed
      tables is the quotient a/b at the reciprocal (a common factor k
      cancels), and -s·n/d + s·π/2 is then s·(π/2 - a/b). */
  lemma ReflectedRatio(s: real, k: real, a: real, b: real, n: real, d: real, q: real, pi: real)
    ensures k != 0.0 && b != 0.0 && n == k * a && d == k * b && q == a / b
            ==> d != 0.0 && -s * n / d + s * 0.5 * pi == s * (pi / 2.0 - q)
  {
    if k != 0.0 && b != 0.0 && n == k * a && d == k * b && q == a / b {
      CancelRatio(k, a, b, n, d);
      SignedReflection(s, n, d, q, pi);
    }
  }

  /** The inverted Ti2 branch, in one step: s·n/d + s·(π/2)·l is
      s·(a/b + (π/2)·l) when n/d is a/b with a common factor k. */
  lemma InvertedRatio(s: real, k: real, a: real, b: real, n: real, d: real, q: real, pi: real, l: real)
    ensures k != 0.0 && b != 0.0 && n == k * a && d == k * b && q == a / b
            ==> d != 0.0 && s * n / d + s * 0.5 * pi * l == s * (q + pi / 2.0 * l)
  {
    if k != 0.0 && b != 0.0 && n == k * a && d == k * b && q == a / b {
      CancelRatio(k, a, b, n, d);
      SignedInversion(s, n, d, q, pi, l);
    }
  }

  /** -(a/b) written as (-a)/b. */
  lemma NegatedQuotient(a: real, b: real, k: real)
    requires b != 0.0 && a / b == k
    ensures -a / b == -k
  {
  }

  /** The reciprocal of a negative number is negative. */
  lemma NegativeReciprocal(v: real)
    requires v < 0.0
    ensures 1.0 / v < 0.0
  {
    assert (1.0 / v) * v == 1.0;
  }

  /** Multiplying by a positive k keeps a strict order. */
  lemma ScaleOrder(a: real, b: real, k: real)
    requires 0.0 < k
    ensures a < b <==> a * k < b * k
  {
    if a < b {
      assert b * k - a * k == (b - a) * k;
    } else {
      assert a * k - b * k == (a - b) * k;
    }
  }

  /** For y > 1 and t > 0, 1/y lies in (0, 1), and it lies below or above t
      exactly when y lies above or below 1/t. */
  lemma ReciprocalBounds(t: real, y: real)
    requires 0.0 < t && 1.0 < y
    ensures 0.0 < 1.0 / y < 1.0
    ensures y < 1.0 / t <==> t < 1.0 / y
    ensures 1.0 / t < y <==> 1.0 / y < t
  {
    ScaleOrder(y, 1.0 / t, t);
    ScaleOrder(t, 1.0 / y, y);
    ScaleOrder(1.0 / t, y, t);
    ScaleOrder(1.0 / y, t, y);
    ScaleOrder(1.0 / y, 1.0, y);
  }
}
