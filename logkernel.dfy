/** The minimax approximant of log(1 - y) that dilog and trilog use in their
    reflection region to get log(x) from y = 1 - x without calling the
    logarithm. dilog.hpp and trilog.hpp carry digit-identical copies of the
    tables and of the fma-grouped evaluation. */
module LogKernel {
  import opened Doubles
  import opened Polynomials

  /** Numerator and denominator of log(1 - y)/y. */
  const P1: seq<real> := [-0.9999999999999998672, 2.7601168443679114620, -2.7923621883637091036,
    1.2497503713725827027, -0.23173044836039025061, 0.012188323559602391476]
  const Q1: seq<real> := [1.0000000000000000000, -3.2601168443679653008, 4.0890872772181186328,
    -2.4575883952960021967, 0.71252476615980667079, -0.086169703890931582878, 0.0026519629643638051268]

  /** The numerator pl, in the source's fma grouping. */
  function GroupedP(y: real): (p: real)
    ensures p == y * PowerSum(P1, y)
  {
    FmaGroupingSix(P1, y);
    y * P1[0] + (y * y) * Fma(P1[2], y, P1[1]) + ((y * y) * (y * y)) * Fma(P1[4], y, P1[3])
      + ((y * y) * ((y * y) * (y * y))) * P1[5]
  }

  /** The denominator ql, in the source's fma grouping. */
  function GroupedQ(y: real): (q: real)
    ensures q == PowerSum(Q1, y)
  {
    FmaGroupingSeven(Q1, y);
    Q1[0] + y * Q1[1] + (y * y) * Fma(Q1[3], y, Q1[2]) + ((y * y) * (y * y)) * Fma(Q1[5], y, Q1[4])
      + ((y * y) * ((y * y) * (y * y))) * Q1[6]
  }

  /** The fma grouping of six and seven coefficients, for any table. */
  lemma FmaGroupingSix(c: seq<real>, y: real)
    requires |c| == 6
    ensures y * c[0] + (y * y) * Fma(c[2], y, c[1]) + ((y * y) * (y * y)) * Fma(c[4], y, c[3])
            + ((y * y) * ((y * y) * (y * y))) * c[5]
         == y * PowerSum(c, y)
  {
    PowerSum6(c, y);
  }

  lemma FmaGroupingSeven(c: seq<real>, y: real)
    requires |c| == 7
    ensures c[0] + y * c[1] + (y * y) * Fma(c[3], y, c[2]) + ((y * y) * (y * y)) * Fma(c[5], y, c[4])
            + ((y * y) * ((y * y) * (y * y))) * c[6]
         == PowerSum(c, y)
  {
    PowerSum7(c, y);
  }

  /** The denominator alternates in sign, yet stays positive on [0, 0.5]. */
  lemma GroupedQPositive(y: real)
    requires 0.0 <= y <= 0.5
    ensures GroupedQ(y) > 0.0
  {
  }

  lemma DenominatorPositive(y: real)
    requires 0.0 <= y <= 0.5
    ensures PowerSum(Q1, y) > 0.0
  {
    GroupedQPositive(y);
  }

  /** l = pl/ql, the approximation of log(1 - y) = log(x). */
  function Kernel(y: real): real
    requires 0.0 <= y <= 0.5
  {
    DenominatorPositive(y);
    y * PowerSum(P1, y) / PowerSum(Q1, y)
  }
}
