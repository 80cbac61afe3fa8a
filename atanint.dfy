/** The inverse tangent integral Ti2(x) = ∫_0^x arctan(t)/t dt: the same
    sign/magnitude split and five regions as arctan, with breakpoints 1e-4 and
    1e4; on |x| > 1 the reversed tables give R(1/|x|) and the inversion adds
    (π/2)·log|x|. The logarithm is a parameter. */
module AtanInt {
  import opened Doubles
  import opened Constants
  import opened Polynomials
  import opened Series
  import opened Regions
  import opened Algebra

  const TaylorSwitch: real := 0.0001
  const InvTaylorSwitch: real := 1.0 / TaylorSwitch

  /** Minimax numerator and denominator of Ti2(y)/y on [1e-4, 1). */
  const P2: seq<real> := [0.99999999999999999886, 1.0100093542230733512, 2.1455220673317650277,
    1.5305076352812549690, 1.4078551331250402304, 0.64227878391676890953, 0.28789298099160559927,
    0.063249445901043777286, 0.0090534760702843347330]
  const Q2: seq<real> := [1.0000000000000000000, 1.0100093542230725212, 2.2566331784429801196,
    1.6427308968564321342, 1.6185921530867935222, 0.78440406282611283524, 0.39787941177428306790,
    0.10530849411572513926, 0.022227486952458724944, 0.0013776205701865119100]

  /** The kernel around 0: Ti2(x) ≈ x - x^3/9. */
  function Ti2Taylor(x: real): real
  {
    var x2 := x * x;
    x - 1.0 / 9.0 * x2 * x
  }

  /** The numerator of the [1e-4, 1) branch, in the grouping the source evaluates. */
  function GroupedP(y: real): (p: real)
    ensures p == y * PowerSum(P2, y)
  {
    PowerSum9(P2, y);
    y * P2[0] + (y * y) * (P2[1] + y * P2[2]) + ((y * y) * (y * y)) * (P2[3] + y * P2[4])
      + (((y * y) * (y * y)) * (y * y)) * (P2[5] + y * P2[6])
      + (((y * y) * (y * y)) * ((y * y) * (y * y))) * (P2[7] + y * P2[8])
  }

  /** The denominator of the [1e-4, 1) branch, in the source's grouping. */
  function GroupedQ(y: real): (q: real)
    ensures q == PowerSum(Q2, y)
  {
    PowerSum10(Q2, y);
    Q2[0] + y * Q2[1] + (y * y) * (Q2[2] + y * Q2[3]) + ((y * y) * (y * y)) * (Q2[4] + y * Q2[5])
      + (((y * y) * (y * y)) * (y * y)) * (Q2[6] + y * Q2[7])
      + (((y * y) * (y * y)) * ((y * y) * (y * y))) * (Q2[8] + y * Q2[9])
  }

  /** The numerator of the (1, 1e4) branch: the table read from its last entry. */
  function GroupedReversedP(y: real): (p: real)
    ensures p == PowerSum(Reverse(P2), y)
  {
    PowerSum9(Reverse(P2), y);
    P2[8] + y * P2[7] + (y * y) * (P2[6] + y * P2[5]) + ((y * y) * (y * y)) * (P2[4] + y * P2[3])
      + (((y * y) * (y * y)) * (y * y)) * (P2[2] + y * P2[1])
      + (((y * y) * (y * y)) * ((y * y) * (y * y))) * P2[0]
  }

  /** The denominator of the (1, 1e4) branch: the table read from its last entry. */
  function GroupedReversedQ(y: real): (q: real)
    ensures q == PowerSum(Reverse(Q2), y)
  {
    PowerSum10(Reverse(Q2), y);
    Q2[9] + y * Q2[8] + (y * y) * (Q2[7] + y * Q2[6]) + ((y * y) * (y * y)) * (Q2[5] + y * Q2[4])
      + (((y * y) * (y * y)) * (y * y)) * (Q2[3] + y * Q2[2])
      + (((y * y) * (y * y)) * ((y * y) * (y * y))) * (Q2[1] + y * Q2[0])
  }

  /** Every coefficient of the denominator is positive, so it is at least 1 on y ≥ 0. */
  lemma GroupedQPositive(y: real)
    requires 0.0 <= y
    ensures GroupedQ(y) >= 1.0
  {
  }

  lemma DenominatorPositive(y: real)
    requires 0.0 <= y
    ensures PowerSum(Q2, y) >= 1.0
  {
    GroupedQPositive(y);
  }

  lemma GroupedReversedQPositive(y: real)
    requires 0.0 <= y
    ensures GroupedReversedQ(y) >= Q2[9]
  {
  }

  lemma ReversedDenominatorPositive(y: real)
    requires 0.0 <= y
    ensures PowerSum(Reverse(Q2), y) > 0.0
  {
    GroupedReversedQPositive(y);
  }

  /** The rational approximant R(y) = p(y)/q(y) of the [1e-4, 1) branch. */
  function Kernel(y: real): real
    requires 0.0 <= y
  {
    DenominatorPositive(y);
    y * PowerSum(P2, y) / PowerSum(Q2, y)
  }

  /** The branches of the comparison chain on y = |x|. */
  datatype Branch = Taylor | Rational | One | Reflected | Asymptotic

  /** The region of |x| each branch is meant to serve. */
  function Region(b: Branch): seq<Interval>
  {
    match b
    case Taylor => [Interval(Closed(0.0), Open(TaylorSwitch))]
    case Rational => [Interval(Closed(TaylorSwitch), Open(1.0))]
    case One => [Point(1.0)]
    case Reflected => [Interval(Open(1.0), Open(InvTaylorSwitch))]
    case Asymptotic => [Interval(Closed(InvTaylorSwitch), Unbounded)]
  }

  /** The ordered comparison chain; every magnitude lies in exactly one region,
      and the chain picks that one. */
  function Select(y: real): (b: Branch)
    requires 0.0 <= y
    ensures AnyContains(Region(b), y)
    ensures forall b' :: AnyContains(Region(b'), y) ==> b' == b
  {
    if y < TaylorSwitch then Taylor
    else if y < 1.0 then Rational
    else if y == 1.0 then One
    else if y < InvTaylorSwitch then Reflected
    else Asymptotic
  }

  /** Ti2 on a double, given the logarithm `ln`; the branch values are the
      source's expressions, with the grouped polynomials replaced by the power
      sums they equal. */
  function AtanInt(ln: real -> real, x: Double): (r: Double)
    ensures !x.Finite? ==> r == NaN
    ensures x.Finite? ==> r.Finite?
  {
    match x
    case Finite(v) =>
      if v == 0.0 then Finite(0.0)
      else
        var sign := Sign(v);
        var y := Abs(v);
        (match Select(y)
        case Taylor => Finite(sign * Ti2Taylor(y))
        case Rational =>
          DenominatorPositive(y);
          Finite(sign * (y * PowerSum(P2, y)) / PowerSum(Q2, y))
        case One => Finite(sign * Catalan)
        case Reflected =>
          var l := ln(y);
          var c := sign * 0.5 * Pi * l;
          ReversedDenominatorPositive(y);
          Finite(sign * PowerSum(Reverse(P2), y) / PowerSum(Reverse(Q2), y) + c)
        case Asymptotic =>
          var l := ln(y);
          var c := sign * 0.5 * Pi * l;
          var yinv := 1.0 / y;
          Finite(sign * Ti2Taylor(yinv) + c))
    case _ => NaN
  }

  lemma AtanIntAtZero(ln: real -> real)
    ensures AtanInt(ln, Finite(0.0)) == Finite(0.0)
  {
  }

  /** |x| = 1 is answered with ±Catalan's constant. */
  lemma AtanIntAtOne(ln: real -> real)
    ensures AtanInt(ln, Finite(1.0)) == Finite(Catalan)
    ensures AtanInt(ln, Finite(-1.0)) == Finite(-Catalan)
  {
  }

  /** The Taylor kernel is the Ti2 series cut after the y^3 term. */
  lemma Ti2TaylorSeries(u: real)
    ensures Ti2Taylor(u) == PowerSum(InverseTangentSeries(2, 4), u)
  {
    var c := InverseTangentSeries(2, 4);
    assert Pow(3.0, 2) == 9.0;
    assert c[0] == 0.0 && c[1] == 1.0 && c[2] == 0.0 && c[3] == -1.0 / 9.0;
    PowerSum4(c, u);
  }

  /** Reading the tables backwards evaluates y^9·p(1/y) and y^9·q(1/y), where p
      is the numerator y·Σ P2[i]·y^i and q the denominator of the forward branch. */
  lemma NumeratorReversal(y: real)
    requires y != 0.0
    ensures PowerSum(Reverse(P2), y) == Pow(y, 9) * ((1.0 / y) * PowerSum(P2, 1.0 / y))
  {
    PowerSumReverse(P2, y);
    assert |P2| - 1 == 8;
    assert Pow(y, |P2| - 1) == Pow(y, 8);
    PowSucc(y, 9, 8);
    ScaleInverse(y, Pow(y, 8), PowerSum(P2, 1.0 / y));
  }

  lemma DenominatorReversal(y: real)
    requires y != 0.0
    ensures PowerSum(Reverse(Q2), y) == Pow(y, 9) * PowerSum(Q2, 1.0 / y)
  {
    PowerSumReverse(Q2, y);
    assert PowerSum(Reverse(Q2), y) == Pow(y, |Q2| - 1) * PowerSum(Q2, 1.0 / y);
    assert |Q2| - 1 == 9;
    assert Pow(y, |Q2| - 1) == Pow(y, 9);
  }

  /** On 1 < |x| < 1e4 the result is sign·(R(1/|x|) + (π/2)·log|x|). */
  lemma AtanIntReflection(ln: real -> real, v: real)
    requires 1.0 < Abs(v) < InvTaylorSwitch
    ensures AtanInt(ln, Finite(v)) == Finite(Sign(v) * (Kernel(1.0 / Abs(v)) + Pi / 2.0 * ln(Abs(v))))
  {
    ReflectionUnfold(ln, v);
    ReflectionValue(Sign(v), Abs(v), ln(Abs(v)));
  }

  /** The Reflected branch of AtanInt, in the source's grouping. */
  lemma ReflectionUnfold(ln: real -> real, v: real)
    requires 1.0 < Abs(v) < InvTaylorSwitch
    ensures PowerSum(Reverse(Q2), Abs(v)) > 0.0
    ensures AtanInt(ln, Finite(v))
         == Finite(Sign(v) * PowerSum(Reverse(P2), Abs(v)) / PowerSum(Reverse(Q2), Abs(v))
                   + Sign(v) * 0.5 * Pi * ln(Abs(v)))
  {
    ReversedDenominatorPositive(Abs(v));
    assert Select(Abs(v)) == Reflected;
  }

  /** The reversed-table quotient at y is the kernel at 1/y, so the branch
      value is s·(R(1/y) + (π/2)·l). */
  lemma ReflectionValue(s: real, y: real, l: real)
    requires 1.0 < y < InvTaylorSwitch
    ensures PowerSum(Reverse(Q2), y) != 0.0
    ensures s * PowerSum(Reverse(P2), y) / PowerSum(Reverse(Q2), y) + s * 0.5 * Pi * l
         == s * (Kernel(1.0 / y) + Pi / 2.0 * l)
  {
    var u := 1.0 / y;
    NumeratorReversal(y);
    DenominatorReversal(y);
    DenominatorPositive(u);
    InvertedRatio(s, Pow(y, 9), u * PowerSum(P2, u), PowerSum(Q2, u), PowerSum(Reverse(P2), y), PowerSum(Reverse(Q2), y), Kernel(u), Pi, l);
  }

  /** For |x| ≥ 1e4 the result is sign·(T(1/|x|) + (π/2)·log|x|) with T the truncated series. */
  lemma AtanIntAsymptotic(ln: real -> real, v: real)
    requires Abs(v) >= InvTaylorSwitch
    ensures AtanInt(ln, Finite(v))
         == Finite(Sign(v) * (PowerSum(InverseTangentSeries(2, 4), 1.0 / Abs(v)) + Pi / 2.0 * ln(Abs(v))))
  {
    Ti2TaylorSeries(1.0 / Abs(v));
  }

  /** For 0 < |x| < 1e-4 the result is sign·T(|x|). */
  lemma AtanIntSmall(ln: real -> real, v: real)
    requires v != 0.0 && Abs(v) < TaylorSwitch
    ensures AtanInt(ln, Finite(v)) == Finite(Sign(v) * PowerSum(InverseTangentSeries(2, 4), Abs(v)))
  {
    Ti2TaylorSeries(Abs(v));
  }

  /** For 1e-4 ≤ |x| < 1 the result is sign·R(|x|). */
  lemma AtanIntRational(ln: real -> real, v: real)
    requires TaylorSwitch <= Abs(v) < 1.0
    ensures AtanInt(ln, Finite(v)) == Finite(Sign(v) * Kernel(Abs(v)))
  {
    var y := Abs(v);
    DenominatorPositive(y);
    ScaledQuotient(Sign(v), y * PowerSum(P2, y), PowerSum(Q2, y));
  }

  /** Every branch is sign·g(|x|): the result is the magnitude's result, signed. */
  lemma AtanIntSignMagnitude(ln: real -> real, v: real)
    requires v != 0.0
    ensures AtanInt(ln, Finite(v)) == Finite(Sign(v) * AtanInt(ln, Finite(Abs(v))).val)
  {
    var y := Abs(v);
    assert Abs(y) == y && Sign(y) == 1.0;
    match Select(y)
    case Taylor =>
    case Rational =>
      AtanIntRational(ln, v);
      AtanIntRational(ln, y);
    case One =>
    case Reflected =>
      AtanIntReflection(ln, v);
      AtanIntReflection(ln, y);
    case Asymptotic =>
      AtanIntAsymptotic(ln, v);
      AtanIntAsymptotic(ln, y);
  }

  /** Ti2 is odd on every input, whatever the logarithm. */
  lemma AtanIntOdd(ln: real -> real, x: Double)
    ensures AtanInt(ln, Negate(x)) == Negate(AtanInt(ln, x))
  {
    if x.Finite? && x.val != 0.0 {
      AtanIntSignMagnitude(ln, x.val);
      AtanIntSignMagnitude(ln, -x.val);
    }
  }

  /** The reciprocal identity Ti2(x) = sign(x)·(Ti2(1/|x|) + (π/2)·log|x|) for
      |x| > 1: the Reflected and Asymptotic branches are the Rational and
      Taylor branches at 1/|x|. At |x| = 1e4 the two sides use different
      branches (Asymptotic against Rational), so that point is excluded. */
  lemma AtanIntReciprocal(ln: real -> real, v: real)
    requires 1.0 < Abs(v) && Abs(v) != InvTaylorSwitch
    ensures AtanInt(ln, Finite(v)) == Finite(Sign(v) * (AtanInt(ln, Finite(1.0 / Abs(v))).val + Pi / 2.0 * ln(Abs(v))))
  {
    var u := 1.0 / Abs(v);
    ReciprocalBounds(TaylorSwitch, Abs(v));
    assert Abs(u) == u && Sign(u) == 1.0;
    if Abs(v) < InvTaylorSwitch {
      AtanIntReflection(ln, v);
      AtanIntRational(ln, u);
    } else {
      AtanIntAsymptotic(ln, v);
      AtanIntSmall(ln, u);
    }
  }
}
