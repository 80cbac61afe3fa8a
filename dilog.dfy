/** The real dilogarithm Li2(x) for x ≤ 1: an ordered chain of ten tests with
    the branch cut x > 1 left over. Below -1 the inversion Li2(x) =
    -Li2(1/x) - ζ2 - ½·log(-x)² is evaluated with reversed tables; on
    (0.5, 1) the reflection Li2(x) = ζ2 - log(x)·log(1-x) - Li2(1-x) is used.
    The logarithm is a parameter. */
module Dilog {
  import opened Doubles
  import opened Constants
  import opened Polynomials
  import opened Series
  import opened Regions
  import opened Algebra
  import LogKernel

  const TaylorSwitch: real := 0.0001
  const InvTaylorSwitch: real := 1.0 / TaylorSwitch

  /** Minimax numerator and denominator of Li2(x)/x on [1e-4, 0.5). */
  const P2a: seq<real> := [0.9999999999999999482, -2.6884303049105920491, 2.6478043064679810600,
    -1.1539162530148495100, 0.20887751439651881693, -0.010861077434674471020]
  const Q2a: seq<real> := [1.0000000000000000000, -2.9384303049106135224, 3.2713007715860567301,
    -1.7077491898534406365, 0.41598884303385831214, -0.039805247256814134926, 0.00082755014107320443509]
  /** Minimax numerator and denominator of Li2(x)/x on [-1, -1e-4). */
  const P2b: seq<real> := [0.9999999999999999277, -2.1758446306576192119, 1.6555942695751114745,
    -0.52288981465311876594, 0.062597549060802191130, -0.0018723824826943140006]
  const Q2b: seq<real> := [1.0000000000000000000, -2.4258446306575919627, 2.1509443161301692038,
    -0.85358760134515718081, 0.14861592651355131752, -0.0093613047200351782876, 0.00011533394212474942253]

  /** The kernel around 0: Li2(x) ≈ x + x²/4 + x³/9 + x⁴/16. */
  function Li2Taylor(x: real): real
  {
    var x2 := x * x;
    var x4 := x2 * x2;
    x + (1.0 / 4.0 + 1.0 / 9.0 * x) * x2 + 1.0 / 16.0 * x4
  }

  /** taylor and logtaylor of the branch next to x = 1, at y = 1 - x. */
  function NearOneTaylor(y: real): real
  {
    var y2 := y * y; var y4 := y2 * y2;
    Zeta2 - y - y2 * (0.25 + 1.0 / 9.0 * y) - 1.0 / 16.0 * y4
  }

  function NearOneLogTaylor(y: real): real
  {
    var y2 := y * y; var y4 := y2 * y2;
    y + y2 * (1.0 / 2.0 + 1.0 / 3.0 * y) + 1.0 / 4.0 * y4
  }

  /** Numerators and denominators in the grouping the source evaluates. */
  function GroupedP2a(y: real): (p: real)
    ensures p == y * PowerSum(P2a, y)
  {
    PowerSum6(P2a, y);
    y * P2a[0] + (y * y) * (P2a[1] + y * P2a[2]) + ((y * y) * (y * y)) * (P2a[3] + y * P2a[4])
      + (((y * y) * (y * y)) * (y * y)) * P2a[5]
  }

  function GroupedQ2a(y: real): (q: real)
    ensures q == PowerSum(Q2a, y)
  {
    PowerSum7(Q2a, y);
    Q2a[0] + y * Q2a[1] + (y * y) * (Q2a[2] + y * Q2a[3])
      + ((y * y) * (y * y)) * (Q2a[4] + y * Q2a[5]) + (((y * y) * (y * y)) * (y * y)) * Q2a[6]
  }

  function GroupedP2b(x: real): (p: real)
    ensures p == x * PowerSum(P2b, x)
  {
    PowerSum6(P2b, x);
    x * P2b[0] + (x * x) * (P2b[1] + x * P2b[2]) + ((x * x) * (x * x)) * (P2b[3] + x * P2b[4])
      + (((x * x) * (x * x)) * (x * x)) * P2b[5]
  }

  function GroupedQ2b(x: real): (q: real)
    ensures q == PowerSum(Q2b, x)
  {
    PowerSum7(Q2b, x);
    Q2b[0] + x * Q2b[1] + (x * x) * (Q2b[2] + x * Q2b[3])
      + ((x * x) * (x * x)) * (Q2b[4] + x * Q2b[5]) + (((x * x) * (x * x)) * (x * x)) * Q2b[6]
  }

  /** The [-1e4, -1) branch reads the P2b and Q2b tables from their last entry. */
  function GroupedReversedP2b(x: real): (p: real)
    ensures p == PowerSum(Reverse(P2b), x)
  {
    PowerSum6(Reverse(P2b), x);
    P2b[5] + x * P2b[4] + (x * x) * (P2b[3] + x * P2b[2])
      + ((x * x) * (x * x)) * (P2b[1] + x * P2b[0])
  }

  function GroupedReversedQ2b(x: real): (q: real)
    ensures q == PowerSum(Reverse(Q2b), x)
  {
    PowerSum7(Reverse(Q2b), x);
    Q2b[6] + x * Q2b[5] + (x * x) * (Q2b[4] + x * Q2b[3])
      + ((x * x) * (x * x)) * (Q2b[2] + x * Q2b[1]) + (((x * x) * (x * x)) * (x * x)) * Q2b[0]
  }

  /** Q2a alternates in sign, yet stays positive on [0, 0.5]. */
  lemma GroupedQ2aPositive(y: real)
    requires 0.0 <= y <= 0.5
    ensures GroupedQ2a(y) > 0.0
  {
  }

  lemma Q2aPositive(y: real)
    requires 0.0 <= y <= 0.5
    ensures PowerSum(Q2a, y) > 0.0
  {
    GroupedQ2aPositive(y);
  }

  /** Q2b alternates in sign, so every term is non-negative for x ≤ 0. */
  lemma GroupedQ2bPositive(x: real)
    requires x <= 0.0
    ensures GroupedQ2b(x) >= 1.0
  {
  }

  lemma Q2bPositive(x: real)
    requires x <= 0.0
    ensures PowerSum(Q2b, x) >= 1.0
  {
    GroupedQ2bPositive(x);
  }

  lemma GroupedReversedQ2bPositive(x: real)
    requires x <= 0.0
    ensures GroupedReversedQ2b(x) >= Q2b[6]
  {
  }

  lemma ReversedQ2bPositive(x: real)
    requires x <= 0.0
    ensures PowerSum(Reverse(Q2b), x) > 0.0
  {
    GroupedReversedQ2bPositive(x);
  }

  /** R_a(y) = p(y)/q(y), the approximant of Li2 on [1e-4, 0.5). */
  function KernelA(y: real): real
    requires 0.0 <= y <= 0.5
  {
    Q2aPositive(y);
    y * PowerSum(P2a, y) / PowerSum(Q2a, y)
  }

  /** R_b(x) = p(x)/q(x), the approximant of Li2 on [-1, -1e-4). */
  function KernelB(x: real): real
    requires x <= 0.0
  {
    Q2bPositive(x);
    x * PowerSum(P2b, x) / PowerSum(Q2b, x)
  }

  /** The branches of the ordered chain on a finite x. */
  datatype Branch = InversionTaylor | Inversion | MinusOne | Negative | Taylor | Positive
                  | Half | Reflection | NearOne | One | Cut

  /** The values of x each branch serves. */
  function Region(b: Branch): seq<Interval>
  {
    match b
    case InversionTaylor => [Interval(Unbounded, Open(-InvTaylorSwitch))]
    case Inversion => [Interval(Closed(-InvTaylorSwitch), Open(-1.0))]
    case MinusOne => [Point(-1.0)]
    case Negative => [Interval(Open(-1.0), Open(-TaylorSwitch))]
    case Taylor => [Interval(Closed(-TaylorSwitch), Open(TaylorSwitch))]
    case Positive => [Interval(Closed(TaylorSwitch), Open(0.5))]
    case Half => [Point(0.5)]
    case Reflection => [Interval(Open(0.5), Open(1.0 - TaylorSwitch))]
    case NearOne => [Interval(Closed(1.0 - TaylorSwitch), Open(1.0))]
    case One => [Point(1.0)]
    case Cut => [Interval(Open(1.0), Unbounded)]
  }

  /** The ordered chain; every finite x lies in exactly one region, and the
      chain picks that one. */
  function Select(x: real): (b: Branch)
    ensures AnyContains(Region(b), x)
    ensures forall b' :: AnyContains(Region(b'), x) ==> b' == b
  {
    if x < -InvTaylorSwitch then InversionTaylor
    else if x < -1.0 then Inversion
    else if x == -1.0 then MinusOne
    else if x < -TaylorSwitch then Negative
    else if x < TaylorSwitch then Taylor
    else if x < 0.5 then Positive
    else if x == 0.5 then Half
    else if x < 1.0 - TaylorSwitch then Reflection
    else if x < 1.0 then NearOne
    else if x == 1.0 then One
    else Cut
  }

  /** Li2 on a double, given the logarithm `ln`. A quotient p/q of the source
      is written with the kernel it equals; the reversed tables are written as
      the power sums they equal. */
  function Dilog(ln: real -> real, x: Double): (r: Double)
    ensures r == NaN <==> !x.Finite? || x.val > 1.0
    ensures r.Finite? <==> x.Finite? && x.val <= 1.0
  {
    match x
    case Finite(v) =>
      (match Select(v)
      case InversionTaylor =>
        var l := ln(-v);
        var c := -Zeta2 - 1.0 / 2.0 * l * l;
        var xinv := 1.0 / v;
        Finite(-Li2Taylor(xinv) + c)
      case Inversion =>
        var l := ln(-v);
        var c := -Zeta2 - 1.0 / 2.0 * l * l;
        ReversedQ2bPositive(v);
        Finite(-PowerSum(Reverse(P2b), v) / PowerSum(Reverse(Q2b), v) + c)
      case MinusOne => Finite(-0.5 * Zeta2)
      case Negative => Finite(KernelB(v))
      case Taylor => Finite(Li2Taylor(v))
      case Positive => Finite(KernelA(v))
      case Half => Finite(0.5 * Zeta2 - 0.5 * Ln2 * Ln2)
      case Reflection =>
        var y := 1.0 - v;
        var ly := ln(y);
        var l := LogKernel.Kernel(y);
        var c := Zeta2 - l * ly;
        Finite(-KernelA(y) + c)
      case NearOne =>
        var y := 1.0 - v;
        var ly := ln(y);
        Finite(NearOneTaylor(y) + ly * NearOneLogTaylor(y))
      case One => Finite(Zeta2)
      case Cut => NaN)
    case _ => NaN
  }

  /** The exact values at -1, 0, 1/2 and 1. */
  lemma DilogAtMinusOne(ln: real -> real)
    ensures Dilog(ln, Finite(-1.0)) == Finite(-Zeta2 / 2.0)
  {
    assert Select(-1.0) == MinusOne;
  }

  lemma DilogAtZero(ln: real -> real)
    ensures Dilog(ln, Finite(0.0)) == Finite(0.0)
  {
    assert Select(0.0) == Taylor;
  }

  lemma DilogAtHalf(ln: real -> real)
    ensures Dilog(ln, Finite(0.5)) == Finite(Zeta2 / 2.0 - Ln2 * Ln2 / 2.0)
  {
    assert Select(0.5) == Half;
  }

  lemma DilogAtOne(ln: real -> real)
    ensures Dilog(ln, Finite(1.0)) == Finite(Zeta2)
  {
    assert Select(1.0) == One;
  }

  /** The polynomial part near x = 1 is ζ2 minus the truncated Li2 series. */
  lemma NearOneTaylorSeries(y: real)
    ensures NearOneTaylor(y) == Zeta2 - PowerSum(PolylogSeries(2, 5), y)
  {
    Li2TaylorSeries(y);
  }

  /** The Taylor kernel is the Li2 series cut after the x^4 term. */
  lemma Li2TaylorSeries(u: real)
    ensures Li2Taylor(u) == PowerSum(PolylogSeries(2, 5), u)
  {
    var c := PolylogSeries(2, 5);
    assert Pow(2.0, 2) == 4.0 && Pow(3.0, 2) == 9.0 && Pow(4.0, 2) == 16.0;
    assert c[0] == 0.0 && c[1] == 1.0 && c[2] == 1.0 / 4.0 && c[3] == 1.0 / 9.0 && c[4] == 1.0 / 16.0;
    PowerSum5(c, u);
  }

  /** The factor multiplying log(y) near x = 1 is the series of -log(1 - y) = Li1(y)
      cut after the y^4 term. */
  lemma Li1TaylorSeries(y: real)
    ensures NearOneLogTaylor(y) == PowerSum(PolylogSeries(1, 5), y)
  {
    var c := PolylogSeries(1, 5);
    assert Pow(2.0, 1) == 2.0 && Pow(3.0, 1) == 3.0 && Pow(4.0, 1) == 4.0;
    assert c[0] == 0.0 && c[1] == 1.0 && c[2] == 1.0 / 2.0 && c[3] == 1.0 / 3.0 && c[4] == 1.0 / 4.0;
    PowerSum5(c, y);
  }

  /** Reading P2b and Q2b backwards evaluates x^6·p(1/x) and x^6·q(1/x), where
      p is the numerator x·Σ P2b[i]·x^i and q the denominator of the (-1, -1e-4) branch. */
  lemma NumeratorReversal(x: real)
    requires x != 0.0
    ensures PowerSum(Reverse(P2b), x) == Pow(x, 6) * ((1.0 / x) * PowerSum(P2b, 1.0 / x))
  {
    PowerSumReverse(P2b, x);
    assert |P2b| - 1 == 5;
    assert Pow(x, |P2b| - 1) == Pow(x, 5);
    PowSucc(x, 6, 5);
    ScaleInverse(x, Pow(x, 5), PowerSum(P2b, 1.0 / x));
  }

  lemma DenominatorReversal(x: real)
    requires x != 0.0
    ensures PowerSum(Reverse(Q2b), x) == Pow(x, 6) * PowerSum(Q2b, 1.0 / x)
  {
    PowerSumReverse(Q2b, x);
    assert PowerSum(Reverse(Q2b), x) == Pow(x, |Q2b| - 1) * PowerSum(Q2b, 1.0 / x);
    assert |Q2b| - 1 == 6;
    assert Pow(x, |Q2b| - 1) == Pow(x, 6);
  }

  /** For x < -1e4: -T(1/x) - ζ2 - ½·log(-x)² with T the truncated Li2 series. */
  lemma DilogInversionTaylor(ln: real -> real, v: real)
    requires v < -InvTaylorSwitch
    ensures Dilog(ln, Finite(v)) == Finite(-PowerSum(PolylogSeries(2, 5), 1.0 / v) - Zeta2 - ln(-v) * ln(-v) / 2.0)
  {
    InversionTaylorUnfold(ln, v);
    Li2TaylorSeries(1.0 / v);
    InversionStep(Li2Taylor(1.0 / v), PowerSum(PolylogSeries(2, 5), 1.0 / v), ln(-v));
  }

  /** The InversionTaylor branch of Dilog, as the source writes it. */
  lemma InversionTaylorUnfold(ln: real -> real, v: real)
    requires v < -InvTaylorSwitch
    ensures Dilog(ln, Finite(v)) == Finite(-Li2Taylor(1.0 / v) + (-Zeta2 - 1.0 / 2.0 * ln(-v) * ln(-v)))
  {
    assert Select(v) == InversionTaylor;
  }

  /** -t + c with c = -ζ2 - ½·l², over atoms. */
  lemma InversionStep(t: real, t': real, l: real)
    ensures t == t' ==> -t + (-Zeta2 - 1.0 / 2.0 * l * l) == -t' - Zeta2 - l * l / 2.0
  {
  }

  /** On [-1e4, -1): -R_b(1/x) - ζ2 - ½·log(-x)². */
  lemma DilogInversion(ln: real -> real, v: real)
    requires -InvTaylorSwitch <= v < -1.0
    ensures Dilog(ln, Finite(v)) == Finite(-KernelB(1.0 / v) - Zeta2 - ln(-v) * ln(-v) / 2.0)
  {
    InversionUnfold(ln, v);
    InversionValue(v, ln(-v));
  }

  /** The reversed-table quotient at x is R_b(1/x), so the branch value is
      -R_b(1/x) - ζ2 - ½·l². */
  lemma InversionValue(v: real, l: real)
    requires v < 0.0
    ensures PowerSum(Reverse(Q2b), v) > 0.0
    ensures -PowerSum(Reverse(P2b), v) / PowerSum(Reverse(Q2b), v) + (-Zeta2 - 1.0 / 2.0 * l * l)
         == -KernelB(1.0 / v) - Zeta2 - l * l / 2.0
  {
    ReversedQ2bPositive(v);
    NegativeReciprocal(v);
    NumeratorReversal(v);
    DenominatorReversal(v);
    Q2bPositive(1.0 / v);
    InversionQuotientStep(Pow(v, 6), (1.0 / v) * PowerSum(P2b, 1.0 / v), PowerSum(Q2b, 1.0 / v),
                          PowerSum(Reverse(P2b), v), PowerSum(Reverse(Q2b), v), KernelB(1.0 / v), l);
  }

  /** The Inversion branch of Dilog, as the source writes it. */
  lemma InversionUnfold(ln: real -> real, v: real)
    requires -InvTaylorSwitch <= v < -1.0
    ensures PowerSum(Reverse(Q2b), v) > 0.0
    ensures Dilog(ln, Finite(v))
         == Finite(-PowerSum(Reverse(P2b), v) / PowerSum(Reverse(Q2b), v) + (-Zeta2 - 1.0 / 2.0 * ln(-v) * ln(-v)))
  {
    ReversedQ2bPositive(v);
    assert Select(v) == Inversion;
  }

  /** -n/d + c with c = -ζ2 - ½·l², when n/d is a/b scaled by k, over atoms. */
  lemma InversionQuotientStep(k: real, a: real, b: real, n: real, d: real, q: real, l: real)
    ensures k != 0.0 && b > 0.0 && n == k * a && d == k * b && q == a / b
            ==> -n / d + (-Zeta2 - 1.0 / 2.0 * l * l) == -q - Zeta2 - l * l / 2.0
  {
    if k != 0.0 && b > 0.0 && n == k * a && d == k * b && q == a / b {
      CancelRatio(k, a, b, n, d);
    }
  }

  /** On (-1, -1e-4): R_b(x). */
  lemma DilogNegative(ln: real -> real, v: real)
    requires -1.0 < v < -TaylorSwitch
    ensures Dilog(ln, Finite(v)) == Finite(KernelB(v))
  {
  }

  /** On [-1e-4, 1e-4): the truncated Li2 series. */
  lemma DilogSmall(ln: real -> real, v: real)
    requires -TaylorSwitch <= v < TaylorSwitch
    ensures Dilog(ln, Finite(v)) == Finite(PowerSum(PolylogSeries(2, 5), v))
  {
    Li2TaylorSeries(v);
  }

  /** On [1e-4, 0.5): R_a(x). */
  lemma DilogPositive(ln: real -> real, v: real)
    requires TaylorSwitch <= v < 0.5
    ensures Dilog(ln, Finite(v)) == Finite(KernelA(v))
  {
  }

  /** On (0.5, 1 - 1e-4): ζ2 - l·log(1 - x) - R_a(1 - x), with l the log kernel at 1 - x. */
  lemma DilogReflection(ln: real -> real, v: real)
    requires 0.5 < v < 1.0 - TaylorSwitch
    ensures Dilog(ln, Finite(v)) == Finite(Zeta2 - LogKernel.Kernel(1.0 - v) * ln(1.0 - v) - KernelA(1.0 - v))
  {
  }

  /** On [1 - 1e-4, 1), written at y = 1 - x in (0, 1e-4]: ζ2 - T(y) + log(y)·S(y)
      with T the truncated Li2 series and S the truncated Li1 series. */
  lemma DilogNearOne(ln: real -> real, y: real)
    requires 0.0 < y <= TaylorSwitch
    ensures Dilog(ln, Finite(1.0 - y))
         == Finite(Zeta2 - PowerSum(PolylogSeries(2, 5), y) + ln(y) * PowerSum(PolylogSeries(1, 5), y))
  {
    NearOneUnfold(ln, 1.0 - y, y);
    NearOneSeries(ln, Dilog(ln, Finite(1.0 - y)), y);
  }

  /** The source's NearOne value, rewritten into the truncated series. */
  lemma NearOneSeries(ln: real -> real, r: Double, y: real)
    requires r == Finite(NearOneTaylor(y) + ln(y) * NearOneLogTaylor(y))
    ensures r == Finite(Zeta2 - PowerSum(PolylogSeries(2, 5), y) + ln(y) * PowerSum(PolylogSeries(1, 5), y))
  {
    NearOneTaylorSeries(y);
    Li1TaylorSeries(y);
  }

  /** The NearOne branch of Dilog, in the source's grouping. */
  lemma NearOneUnfold(ln: real -> real, v: real, y: real)
    requires 1.0 - TaylorSwitch <= v < 1.0 && y == 1.0 - v
    ensures Dilog(ln, Finite(v)) == Finite(NearOneTaylor(y) + ln(y) * NearOneLogTaylor(y))
  {
    assert Select(v) == NearOne;
  }

  /** The inversion identity Li2(x) = -Li2(1/x) - ζ(2) - ½·log²(-x) for x < -1:
      the Inversion and InversionTaylor branches are the Negative and Taylor
      branches at 1/x. At x = -1e4 the two sides use different branches
      (Inversion against Taylor), so that point is excluded. */
  lemma DilogReciprocal(ln: real -> real, v: real)
    requires v < -1.0 && v != -InvTaylorSwitch
    ensures Dilog(ln, Finite(v)) == Finite(-Dilog(ln, Finite(1.0 / v)).val - Zeta2 - ln(-v) * ln(-v) / 2.0)
  {
    var u := 1.0 / v;
    ReciprocalBounds(TaylorSwitch, -v);
    assert u == -(1.0 / -v);
    if -InvTaylorSwitch < v {
      DilogInversion(ln, v);
      DilogNegative(ln, u);
    } else {
      DilogInversionTaylor(ln, v);
      DilogSmall(ln, u);
    }
  }
}
