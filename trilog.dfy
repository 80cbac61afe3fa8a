/** The real trilogarithm Li3(x) for x ≤ 1: the same chain of ten tests as
    dilog. Below -1 the inversion Li3(x) = Li3(1/x) - ζ2·log(-x) - log(-x)³/6
    is evaluated with reversed tables; on (0.5, 1) a reflection with the
    corrections in l = log(x) is used. The logarithm is a parameter. */
module Trilog {
  import opened Doubles
  import opened Constants
  import opened Polynomials
  import opened Series
  import opened Regions
  import opened Algebra
  import LogKernel

  const TaylorSwitch: real := 0.0001
  const InvTaylorSwitch: real := 1.0 / TaylorSwitch

  /** Minimax numerator and denominator of Li3(x)/x on [1e-4, 0.5). */
  const P3a: seq<real> := [0.99999999999999998889, -2.5225087681785685178, 2.3205667855092737010,
    -0.93986039506026480652, 0.15730234392961045107, -0.0075494230157797519206]
  const Q3a: seq<real> := [1.0000000000000000000, -2.6475087681785732399, 2.6144683444949039205,
    -1.1842380578292087625, 0.24186726490232288650, -0.018222790964808075074, 0.00024931477353312848423]
  /** Minimax numerator and denominator of Li3(x)/x on [-1, -1e-4). */
  const P3b: seq<real> := [0.99999999999999997872, -2.0281455911060640193, 1.4363491768494536537,
    -0.42238055117778581583, 0.047292383318533615224, -0.0013451800040195675605]
  const Q3b: seq<real> := [1.0000000000000000000, -2.1531455911060558732, 1.6684553387011928972,
    -0.56681633549854450482, 0.081992683111646187121, -0.0040751460198142638061, 0.000034311405527458791883]
  /** Minimax numerator and denominator of (-Li3(y/(y-1)) - Li3(y))/y on [1e-4, 0.5). */
  const P3c: seq<real> := [0.0000000000000000000, 0.74999999999999999816, -2.1777582585501254342,
    2.2971231247321237024, -1.0455892723397490220, 0.18551293485607298693, -0.0087864196233895762452]
  const Q3c: seq<real> := [1.0000000000000000000, -3.9036776780668347591, 6.0266936962282502098,
    -4.6317082415371928343, 1.8223918699839630482, -0.33647047688023663835, 0.023067775463027464700,
    -0.00028585989330444185814]

  /** The kernel around 0: Li3(x) ≈ x + x²/8 + x³/27 + x⁴/64. */
  function Li3Taylor(x: real): real
  {
    var x2 := x * x;
    var x4 := x2 * x2;
    x + (1.0 / 8.0 + 1.0 / 27.0 * x) * x2 + 1.0 / 64.0 * x4
  }

  /** Numerators and denominators in the grouping the source evaluates. */
  function GroupedP3a(x: real): (p: real)
    ensures p == x * PowerSum(P3a, x)
  {
    PowerSum6(P3a, x);
    x * P3a[0] + (x * x) * (P3a[1] + x * P3a[2]) + ((x * x) * (x * x)) * (P3a[3] + x * P3a[4])
      + (((x * x) * (x * x)) * (x * x)) * P3a[5]
  }

  function GroupedQ3a(x: real): (q: real)
    ensures q == PowerSum(Q3a, x)
  {
    PowerSum7(Q3a, x);
    Q3a[0] + x * Q3a[1] + (x * x) * (Q3a[2] + x * Q3a[3])
      + ((x * x) * (x * x)) * (Q3a[4] + x * Q3a[5]) + (((x * x) * (x * x)) * (x * x)) * Q3a[6]
  }

  function GroupedP3b(x: real): (p: real)
    ensures p == x * PowerSum(P3b, x)
  {
    PowerSum6(P3b, x);
    x * P3b[0] + (x * x) * (P3b[1] + x * P3b[2]) + ((x * x) * (x * x)) * (P3b[3] + x * P3b[4])
      + (((x * x) * (x * x)) * (x * x)) * P3b[5]
  }

  function GroupedQ3b(x: real): (q: real)
    ensures q == PowerSum(Q3b, x)
  {
    PowerSum7(Q3b, x);
    Q3b[0] + x * Q3b[1] + (x * x) * (Q3b[2] + x * Q3b[3])
      + ((x * x) * (x * x)) * (Q3b[4] + x * Q3b[5]) + (((x * x) * (x * x)) * (x * x)) * Q3b[6]
  }

  /** The [-1e4, -1) branch reads the P3b and Q3b tables from their last entry. */
  function GroupedReversedP3b(x: real): (p: real)
    ensures p == PowerSum(Reverse(P3b), x)
  {
    PowerSum6(Reverse(P3b), x);
    P3b[5] + x * P3b[4] + (x * x) * (P3b[3] + x * P3b[2])
      + ((x * x) * (x * x)) * (P3b[1] + x * P3b[0])
  }

  function GroupedReversedQ3b(x: real): (q: real)
    ensures q == PowerSum(Reverse(Q3b), x)
  {
    PowerSum7(Reverse(Q3b), x);
    Q3b[6] + x * Q3b[5] + (x * x) * (Q3b[4] + x * Q3b[3])
      + ((x * x) * (x * x)) * (Q3b[2] + x * Q3b[1]) + (((x * x) * (x * x)) * (x * x)) * Q3b[0]
  }

  /** The reflection numerator starts at y², leaving out the y·P3c[0] term. That
      loses nothing: the table's first entry is zero, so the grouped numerator is
      the full power sum y·Σ P3c[i]·y^i. */
  function GroupedP3c(y: real): (p: real)
    ensures p == y * PowerSum(P3c, y)
  {
    PowerSum7(P3c, y);
    (y * y) * (P3c[1] + y * P3c[2]) + ((y * y) * (y * y)) * (P3c[3] + y * P3c[4])
      + ((y * y) * ((y * y) * (y * y))) * (P3c[5] + y * P3c[6])
  }

  function GroupedQ3c(y: real): (q: real)
    ensures q == PowerSum(Q3c, y)
  {
    PowerSum8(Q3c, y);
    Q3c[0] + y * Q3c[1] + (y * y) * (Q3c[2] + y * Q3c[3])
      + ((y * y) * (y * y)) * (Q3c[4] + y * Q3c[5])
      + ((y * y) * ((y * y) * (y * y))) * (Q3c[6] + y * Q3c[7])
  }

  /** Q3a and Q3c alternate in sign, yet stay positive on [0, 0.5]. */
  lemma GroupedQ3aPositive(x: real)
    requires 0.0 <= x <= 0.5
    ensures GroupedQ3a(x) > 0.0
  {
  }

  lemma Q3aPositive(x: real)
    requires 0.0 <= x <= 0.5
    ensures PowerSum(Q3a, x) > 0.0
  {
    GroupedQ3aPositive(x);
  }

  lemma GroupedQ3cPositive(y: real)
    requires 0.0 <= y <= 0.5
    ensures GroupedQ3c(y) > 0.0
  {
  }

  lemma Q3cPositive(y: real)
    requires 0.0 <= y <= 0.5
    ensures PowerSum(Q3c, y) > 0.0
  {
    GroupedQ3cPositive(y);
  }

  /** Q3b alternates in sign, so every term is non-negative for x ≤ 0. */
  lemma GroupedQ3bPositive(x: real)
    requires x <= 0.0
    ensures GroupedQ3b(x) >= 1.0
  {
  }

  lemma Q3bPositive(x: real)
    requires x <= 0.0
    ensures PowerSum(Q3b, x) >= 1.0
  {
    GroupedQ3bPositive(x);
  }

  lemma GroupedReversedQ3bPositive(x: real)
    requires x <= 0.0
    ensures GroupedReversedQ3b(x) >= Q3b[6]
  {
  }

  lemma ReversedQ3bPositive(x: real)
    requires x <= 0.0
    ensures PowerSum(Reverse(Q3b), x) > 0.0
  {
    GroupedReversedQ3bPositive(x);
  }

  /** R_a(x) = p(x)/q(x), the approximant of Li3 on [1e-4, 0.5). */
  function KernelA(x: real): real
    requires 0.0 <= x <= 0.5
  {
    Q3aPositive(x);
    x * PowerSum(P3a, x) / PowerSum(Q3a, x)
  }

  /** R_b(x) = p(x)/q(x), the approximant of Li3 on [-1, -1e-4). */
  function KernelB(x: real): real
    requires x <= 0.0
  {
    Q3bPositive(x);
    x * PowerSum(P3b, x) / PowerSum(Q3b, x)
  }

  /** R_c(y) = p(y)/q(y), the approximant of -Li3(y/(y-1)) - Li3(y) on [1e-4, 0.5). */
  function KernelC(y: real): real
    requires 0.0 <= y <= 0.5
  {
    Q3cPositive(y);
    y * PowerSum(P3c, y) / PowerSum(Q3c, y)
  }

  /** The branches of the ordered chain on a finite x. */
  datatype Branch = InversionTaylor | Inversion | MinusOne | Negative | Taylor | Positive
                  | Half | Reflection | NearOne | One | Cut

  /** The values of x each branch serves. */
  function Region(b: Branch): seq<Interval>
  {
    match b
    case InversionTaylor => [Interval(Unbounded, Open(-InvTaylorSwitch))]
    case Inversion => [Interval(Closed(-InvTaylorSwitch), Open(-1.0))]
    case MinusOne => [Point(-1.0)]
    case Negative => [Interval(Open(-1.0), Open(-TaylorSwitch))]
    case Taylor => [Interval(Closed(-TaylorSwitch), Open(TaylorSwitch))]
    case Positive => [Interval(Closed(TaylorSwitch), Open(0.5))]
    case Half => [Point(0.5)]
    case Reflection => [Interval(Open(0.5), Open(1.0 - TaylorSwitch))]
    case NearOne => [Interval(Closed(1.0 - TaylorSwitch), Open(1.0))]
    case One => [Point(1.0)]
    case Cut => [Interval(Open(1.0), Unbounded)]
  }

  /** The ordered chain; every finite x lies in exactly one region, and the
      chain picks that one. */
  function Select(x: real): (b: Branch)
    ensures AnyContains(Region(b), x)
    ensures forall b' :: AnyContains(Region(b'), x) ==> b' == b
  {
    if x < -InvTaylorSwitch then InversionTaylor
    else if x < -1.0 then Inversion
    else if x == -1.0 then MinusOne
    else if x < -TaylorSwitch then Negative
    else if x < TaylorSwitch then Taylor
    else if x < 0.5 then Positive
    else if x == 0.5 then Half
    else if x < 1.0 - TaylorSwitch then Reflection
    else if x < 1.0 then NearOne
    else if x == 1.0 then One
    else Cut
  }

  /** Li3 on a double, given the logarithm `ln`. A quotient p/q of the source
      is written with the kernel it equals; the reversed tables are written as
      the power sums they equal. */
  function Trilog(ln: real -> real, x: Double): (r: Double)
    ensures r == NaN <==> !x.Finite? || x.val > 1.0
    ensures r.Finite? <==> x.Finite? && x.val <= 1.0
  {
    match x
    case Finite(v) =>
      (match Select(v)
      case InversionTaylor =>
        var l := ln(-v);
        var l3 := l * l * l;
        var c := -l * Zeta2 - 1.0 / 6.0 * l3;
        var xinv := 1.0 / v;
        Finite(Li3Taylor(xinv) + c)
      case Inversion =>
        var l := ln(-v);
        var l3 := l * l * l;
        var c := -l * Zeta2 - 1.0 / 6.0 * l3;
        ReversedQ3bPositive(v);
        Finite(PowerSum(Reverse(P3b), v) / PowerSum(Reverse(Q3b), v) + c)
      case MinusOne => Finite(-0.75 * Zeta3)
      case Negative => Finite(KernelB(v))
      case Taylor => Finite(Li3Taylor(v))
      case Positive => Finite(KernelA(v))
      case Half => Finite(21.0 / 24.0 * Zeta3 + 1.0 / 6.0 * Ln2 * Ln2 * Ln2 - 0.5 * Zeta2 * Ln2)
      case Reflection =>
        var y := 1.0 - v;
        var ly := ln(y);
        var l := LogKernel.Kernel(y);
        var l2 := l * l;
        var l3 := l2 * l;
        var c := Zeta3 + l * Zeta2 - 1.0 / 2.0 * l2 * ly + 1.0 / 6.0 * l3;
        Finite(KernelC(y) + c)
      case NearOne =>
        var y := 1.0 - v;
        var y2 := y * y;
        var y4 := y2 * y2;
        var ly := ln(y);
        var taylor := Zeta3 - y * Zeta2 + y2 * (0.75 - Zeta2 / 2.0 + y * (7.0 / 12.0 - 1.0 / 3.0 * Zeta2))
          + y4 * (131.0 / 288.0 - 1.0 / 4.0 * Zeta2);
        var logtaylor := y2 * (-0.5 - 0.5 * y) - 11.0 / 24.0 * y4;
        Finite(taylor + ly * logtaylor)
      case One => Finite(Zeta3)
      case Cut => NaN)
    case _ => NaN
  }

  /** The exact values at -1, 0, 1/2 and 1. */
  lemma TrilogAtMinusOne(ln: real -> real)
    ensures Trilog(ln, Finite(-1.0)) == Finite(-3.0 / 4.0 * Zeta3)
  {
    assert Select(-1.0) == MinusOne;
  }

  lemma TrilogAtZero(ln: real -> real)
    ensures Trilog(ln, Finite(0.0)) == Finite(0.0)
  {
    assert Select(0.0) == Taylor;
  }

  lemma TrilogAtHalf(ln: real -> real)
    ensures Trilog(ln, Finite(0.5)) == Finite(7.0 / 8.0 * Zeta3 + Ln2 * Ln2 * Ln2 / 6.0 - Zeta2 * Ln2 / 2.0)
  {
    assert Select(0.5) == Half;
  }

  lemma TrilogAtOne(ln: real -> real)
    ensures Trilog(ln, Finite(1.0)) == Finite(Zeta3)
  {
    assert Select(1.0) == One;
  }

  /** The Taylor kernel is the Li3 series cut after the x^4 term. */
  lemma Li3TaylorSeries(u: real)
    ensures Li3Taylor(u) == PowerSum(PolylogSeries(3, 5), u)
  {
    var c := PolylogSeries(3, 5);
    assert Pow(2.0, 3) == 8.0 && Pow(3.0, 3) == 27.0 && Pow(4.0, 3) == 64.0;
    assert c[0] == 0.0 && c[1] == 1.0 && c[2] == 1.0 / 8.0 && c[3] == 1.0 / 27.0 && c[4] == 1.0 / 64.0;
    PowerSum5(c, u);
  }

  /** Reading P3b and Q3b backwards evaluates x^6·p(1/x) and x^6·q(1/x), where
      p is the numerator x·Σ P3b[i]·x^i and q the denominator of the (-1, -1e-4) branch. */
  lemma NumeratorReversal(x: real)
    requires x != 0.0
    ensures PowerSum(Reverse(P3b), x) == Pow(x, 6) * ((1.0 / x) * PowerSum(P3b, 1.0 / x))
  {
    PowerSumReverse(P3b, x);
    assert |P3b| - 1 == 5;
    assert Pow(x, |P3b| - 1) == Pow(x, 5);
    PowSucc(x, 6, 5);
    ScaleInverse(x, Pow(x, 5), PowerSum(P3b, 1.0 / x));
  }

  lemma DenominatorReversal(x: real)
    requires x != 0.0
    ensures PowerSum(Reverse(Q3b), x) == Pow(x, 6) * PowerSum(Q3b, 1.0 / x)
  {
    PowerSumReverse(Q3b, x);
    assert PowerSum(Reverse(Q3b), x) == Pow(x, |Q3b| - 1) * PowerSum(Q3b, 1.0 / x);
    assert |Q3b| - 1 == 6;
    assert Pow(x, |Q3b| - 1) == Pow(x, 6);
  }

  /** For x < -1e4: T(1/x) - ζ2·log(-x) - log(-x)³/6 with T the truncated Li3 series. */
  lemma TrilogInversionTaylor(ln: real -> real, v: real)
    requires v < -InvTaylorSwitch
    ensures Trilog(ln, Finite(v))
         == Finite(PowerSum(PolylogSeries(3, 5), 1.0 / v) - Zeta2 * ln(-v) - ln(-v) * ln(-v) * ln(-v) / 6.0)
  {
    Li3TaylorSeries(1.0 / v);
  }

  /** The reversed quotient of the [-1e4, -1) branch is R_b(1/x). */
  lemma InversionQuotient(v: real)
    requires v < 0.0
    ensures PowerSum(Reverse(Q3b), v) > 0.0
    ensures PowerSum(Reverse(P3b), v) / PowerSum(Reverse(Q3b), v) == KernelB(1.0 / v)
  {
    var u := 1.0 / v;
    ReversedQ3bPositive(v);
    NumeratorReversal(v);
    DenominatorReversal(v);
    Q3bPositive(u);
    CancelRatio(Pow(v, 6), u * PowerSum(P3b, u), PowerSum(Q3b, u), PowerSum(Reverse(P3b), v), PowerSum(Reverse(Q3b), v));
  }

  /** On [-1e4, -1): R_b(1/x) - ζ2·log(-x) - log(-x)³/6. */
  lemma TrilogInversion(ln: real -> real, v: real)
    requires -InvTaylorSwitch <= v < -1.0
    ensures Trilog(ln, Finite(v)) == Finite(KernelB(1.0 / v) - Zeta2 * ln(-v) - ln(-v) * ln(-v) * ln(-v) / 6.0)
  {
    InversionQuotient(v);
    assert Select(v) == Inversion;
  }

  /** On (-1, -1e-4): R_b(x). */
  lemma TrilogNegative(ln: real -> real, v: real)
    requires -1.0 < v < -TaylorSwitch
    ensures Trilog(ln, Finite(v)) == Finite(KernelB(v))
  {
  }

  /** On [-1e-4, 1e-4): the truncated Li3 series. */
  lemma TrilogSmall(ln: real -> real, v: real)
    requires -TaylorSwitch <= v < TaylorSwitch
    ensures Trilog(ln, Finite(v)) == Finite(PowerSum(PolylogSeries(3, 5), v))
  {
    Li3TaylorSeries(v);
  }

  /** On [1e-4, 0.5): R_a(x). */
  lemma TrilogPositive(ln: real -> real, v: real)
    requires TaylorSwitch <= v < 0.5
    ensures Trilog(ln, Finite(v)) == Finite(KernelA(v))
  {
  }

  /** On (0.5, 1 - 1e-4): ζ3 + R_c(y) + ζ2·l - ½·l²·log(y) + l³/6 with y = 1 - x and
      l the log kernel at y. */
  lemma TrilogReflection(ln: real -> real, v: real)
    requires 0.5 < v < 1.0 - TaylorSwitch
    ensures var y := 1.0 - v; var l := LogKernel.Kernel(y);
      Trilog(ln, Finite(v)) == Finite(Zeta3 + KernelC(y) + Zeta2 * l - l * l * ln(y) / 2.0 + l * l * l / 6.0)
  {
  }

  /** The inversion identity Li3(x) = Li3(1/x) - ζ(2)·log(-x) - log³(-x)/6 for
      x < -1: the Inversion and InversionTaylor branches are the Negative and
      Taylor branches at 1/x. At x = -1e4 the two sides use different
      branches (Inversion against Taylor), so that point is excluded. */
  lemma TrilogReciprocal(ln: real -> real, v: real)
    requires v < -1.0 && v != -InvTaylorSwitch
    ensures Trilog(ln, Finite(v))
         == Finite(Trilog(ln, Finite(1.0 / v)).val - Zeta2 * ln(-v) - ln(-v) * ln(-v) * ln(-v) / 6.0)
  {
    var u := 1.0 / v;
    ReciprocalBounds(TaylorSwitch, -v);
    assert u == -(1.0 / -v);
    if -InvTaylorSwitch < v {
      TrilogInversion(ln, v);
      TrilogNegative(ln, u);
    } else {
      TrilogInversionTaylor(ln, v);
      TrilogSmall(ln, u);
    }
  }
}
