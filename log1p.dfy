/** log(1 + x): guards for the non-finite input, 0, the pole at -1 and the
    branch cut x < -1, then three regions of |x| evaluated at the signed x.
    The logarithm of the outer region is a parameter. */
module Log1p {
  import opened Doubles
  import opened Polynomials
  import opened Series
  import opened Regions

  const TaylorSwitch: real := 0.001
  const LogSwitch: real := 0.3

  /** Minimax numerator and denominator of log(1 + x)/x on (-0.3, 0.3). */
  const P1: seq<real> := [1.0000000000000000088, 2.5354992169744272295, 2.3128650957787127388,
    0.90911801705539161145, 0.14229189572592744963, 0.0059080279683984783396]
  const Q1: seq<real> := [1.0000000000000000000, 3.0354992169744259496, 3.4972813709325962709,
    1.8959256301972141936, 0.48336905809034197355, 0.049504512928543790754, 0.0012137637778754891357]

  /** The kernel around 0. */
  function Log1pTaylor(x: real): real
  {
    var x2 := x * x;
    var x4 := x2 * x2;
    x + x2 * (-1.0 / 2.0 + 1.0 / 3.0 * x) + x4 * (-1.0 / 4.0 + 1.0 / 5.0 * x)
  }

  /** The numerator of the rational branch, in the grouping the source evaluates. */
  function GroupedP(x: real): (p: real)
    ensures p == x * PowerSum(P1, x)
  {
    PowerSum6(P1, x);
    x * P1[0] + (x * x) * (P1[1] + x * P1[2]) + ((x * x) * (x * x)) * (P1[3] + x * P1[4])
      + (((x * x) * (x * x)) * (x * x)) * P1[5]
  }

  /** The denominator of the rational branch, in the source's grouping. */
  function GroupedQ(x: real): (q: real)
    ensures q == PowerSum(Q1, x)
  {
    PowerSum7(Q1, x);
    Q1[0] + x * Q1[1] + (x * x) * (Q1[2] + x * Q1[3]) + ((x * x) * (x * x)) * (Q1[4] + x * Q1[5])
      + (((x * x) * (x * x)) * (x * x)) * Q1[6]
  }

  /** The denominator has negative odd terms, yet stays positive on (-0.3, 0.3). */
  lemma GroupedQPositive(x: real)
    requires -LogSwitch < x < LogSwitch
    ensures GroupedQ(x) > 0.0
  {
  }

  lemma DenominatorPositive(x: real)
    requires -LogSwitch < x < LogSwitch
    ensures PowerSum(Q1, x) > 0.0
  {
    GroupedQPositive(x);
  }

  /** The rational approximant R(x) = p(x)/q(x) of the middle region. */
  function Kernel(x: real): real
    requires -LogSwitch < x < LogSwitch
  {
    DenominatorPositive(x);
    x * PowerSum(P1, x) / PowerSum(Q1, x)
  }

  /** The branches of the guard and comparison chain on a finite x. */
  datatype Branch = Zero | Pole | Cut | Taylor | Rational | Logarithm

  /** The values of x each branch serves; the three magnitude regions are
      unions of a negative and a positive interval. */
  function Region(b: Branch): seq<Interval>
  {
    match b
    case Zero => [Point(0.0)]
    case Pole => [Point(-1.0)]
    case Cut => [Interval(Unbounded, Open(-1.0))]
    case Taylor => [Interval(Open(-TaylorSwitch), Open(0.0)), Interval(Open(0.0), Open(TaylorSwitch))]
    case Rational => [Interval(Open(-LogSwitch), Closed(-TaylorSwitch)), Interval(Closed(TaylorSwitch), Open(LogSwitch))]
    case Logarithm => [Interval(Open(-1.0), Closed(-LogSwitch)), Interval(Closed(LogSwitch), Unbounded)]
  }

  /** The ordered chain: x == -1 is tested before x < -1, and the magnitude
      tests come after both; every finite x lies in exactly one region. */
  function Select(x: real): (b: Branch)
    ensures AnyContains(Region(b), x)
    ensures forall b' :: AnyContains(Region(b'), x) ==> b' == b
  {
    AnyContainsTwo(Region(Taylor), x);
    AnyContainsTwo(Region(Rational), x);
    AnyContainsTwo(Region(Logarithm), x);
    if x == 0.0 then Zero
    else if x == -1.0 then Pole
    else if x < -1.0 then Cut
    else if Abs(x) < TaylorSwitch then Taylor
    else if Abs(x) < LogSwitch then Rational
    else Logarithm
  }

  /** log(1 + x) on a double, given the logarithm `ln`; the rational branch
      uses the power sums the grouped polynomials equal. */
  function Log1p(ln: real -> real, x: Double): (r: Double)
    ensures r == NaN <==> !x.Finite? || x.val < -1.0
    ensures r == NegInf <==> x == Finite(-1.0)
    ensures r != PosInf
  {
    match x
    case Finite(v) =>
      (match Select(v)
      case Zero => Finite(0.0)
      case Pole => NegInf
      case Cut => NaN
      case Taylor => Finite(Log1pTaylor(v))
      case Rational =>
        DenominatorPositive(v);
        Finite(v * PowerSum(P1, v) / PowerSum(Q1, v))
      case Logarithm => Finite(ln(1.0 + v)))
    case _ => NaN
  }

  lemma Log1pAtZero(ln: real -> real)
    ensures Log1p(ln, Finite(0.0)) == Finite(0.0)
  {
  }

  /** The Taylor kernel is the series of log(1 + x) cut after the x^5 term. */
  lemma Log1pTaylorSeries(u: real)
    ensures Log1pTaylor(u) == PowerSum(Log1pSeries(6), u)
  {
    var c := Log1pSeries(6);
    assert c[0] == 0.0 && c[1] == 1.0 && c[2] == -1.0 / 2.0 && c[3] == 1.0 / 3.0
      && c[4] == -1.0 / 4.0 && c[5] == 1.0 / 5.0;
    PowerSum6(c, u);
  }

  /** For 0 < |x| < 1e-3 the result is the quintic series at the signed x. */
  lemma Log1pSmall(ln: real -> real, v: real)
    requires v != 0.0 && Abs(v) < TaylorSwitch
    ensures Log1p(ln, Finite(v)) == Finite(PowerSum(Log1pSeries(6), v))
  {
    Log1pTaylorSeries(v);
  }

  /** For 1e-3 ≤ |x| < 0.3 the result is R(x) at the signed x. */
  lemma Log1pRational(ln: real -> real, v: real)
    requires TaylorSwitch <= Abs(v) < LogSwitch
    ensures Log1p(ln, Finite(v)) == Finite(Kernel(v))
  {
    assert Select(v) == Rational;
    DenominatorPositive(v);
    assert Log1p(ln, Finite(v)) == Finite(v * PowerSum(P1, v) / PowerSum(Q1, v));
  }

  /** For x > -1 with |x| ≥ 0.3 the result is log(1 + x). */
  lemma Log1pLogarithm(ln: real -> real, v: real)
    requires -1.0 < v && Abs(v) >= LogSwitch
    ensures Log1p(ln, Finite(v)) == Finite(ln(1.0 + v))
  {
  }
}
