/** arctan(x): sign/magnitude split, then five regions of |x|; the region
    (1, 1000) evaluates the [1e-3, 1) approximant with its coefficient tables
    read backwards, which is π/2 - R(1/|x|). */
module Arctan {
  import opened Doubles
  import opened Constants
  import opened Polynomials
  import opened Series
  import opened Regions
  import opened Algebra

  const TaylorSwitch: real := 0.001
  const InvTaylorSwitch: real := 1.0 / TaylorSwitch

  /** Minimax numerator and denominator of arctan(y)/y on [1e-3, 1). */
  const P1: seq<real> := [1.0000000000000000031, 1.8342348086649654905, 3.3257594029617757468,
    3.5990739720281070481, 3.2250546833891888322, 2.0790695069014332191, 1.0011354591290797518,
    0.31803640663671448932, 0.052547928299761760621]
  const Q1: seq<real> := [1.0000000000000000000, 1.8342348086649679506, 3.6590927362947704617,
    4.2104855749348947173, 4.2447522616248727101, 3.1157177460107374180, 1.8270913698071677130,
    0.77654625981176704113, 0.22423950752923047543, 0.033419821882336195679]

  /** The kernel around 0: arctan(x) ≈ x - x^3/3. */
  function ArctanTaylor(x: real): real
  {
    var x2 := x * x;
    x - 1.0 / 3.0 * x2 * x
  }

  /** The numerator of the [1e-3, 1) branch, in the grouping the source evaluates. */
  function GroupedP(y: real): (p: real)
    ensures p == y * PowerSum(P1, y)
  {
    PowerSum9(P1, y);
    y * P1[0] + (y * y) * (P1[1] + y * P1[2]) + ((y * y) * (y * y)) * (P1[3] + y * P1[4])
      + (((y * y) * (y * y)) * (y * y)) * (P1[5] + y * P1[6])
      + (((y * y) * (y * y)) * ((y * y) * (y * y))) * (P1[7] + y * P1[8])
  }

  /** The denominator of the [1e-3, 1) branch, in the source's grouping. */
  function GroupedQ(y: real): (q: real)
    ensures q == PowerSum(Q1, y)
  {
    PowerSum10(Q1, y);
    Q1[0] + y * Q1[1] + (y * y) * (Q1[2] + y * Q1[3]) + ((y * y) * (y * y)) * (Q1[4] + y * Q1[5])
      + (((y * y) * (y * y)) * (y * y)) * (Q1[6] + y * Q1[7])
      + (((y * y) * (y * y)) * ((y * y) * (y * y))) * (Q1[8] + y * Q1[9])
  }

  /** The numerator of the (1, 1000) branch: the table read from its last entry. */
  function GroupedReversedP(y: real): (p: real)
    ensures p == PowerSum(Reverse(P1), y)
  {
    PowerSum9(Reverse(P1), y);
    P1[8] + y * P1[7] + (y * y) * (P1[6] + y * P1[5]) + ((y * y) * (y * y)) * (P1[4] + y * P1[3])
      + (((y * y) * (y * y)) * (y * y)) * (P1[2] + y * P1[1])
      + (((y * y) * (y * y)) * ((y * y) * (y * y))) * P1[0]
  }

  /** The denominator of the (1, 1000) branch: the table read from its last entry. */
  function GroupedReversedQ(y: real): (q: real)
    ensures q == PowerSum(Reverse(Q1), y)
  {
    PowerSum10(Reverse(Q1), y);
    Q1[9] + y * Q1[8] + (y * y) * (Q1[7] + y * Q1[6]) + ((y * y) * (y * y)) * (Q1[5] + y * Q1[4])
      + (((y * y) * (y * y)) * (y * y)) * (Q1[3] + y * Q1[2])
      + (((y * y) * (y * y)) * ((y * y) * (y * y))) * (Q1[1] + y * Q1[0])
  }

  /** Every coefficient of the denominator is positive, so it is at least 1 on y ≥ 0. */
  lemma GroupedQPositive(y: real)
    requires 0.0 <= y
    ensures GroupedQ(y) >= 1.0
  {
  }

  lemma DenominatorPositive(y: real)
    requires 0.0 <= y
    ensures PowerSum(Q1, y) >= 1.0
  {
    GroupedQPositive(y);
  }

  lemma GroupedReversedQPositive(y: real)
    requires 0.0 <= y
    ensures GroupedReversedQ(y) >= Q1[9]
  {
  }

  lemma ReversedDenominatorPositive(y: real)
    requires 0.0 <= y
    ensures PowerSum(Reverse(Q1), y) > 0.0
  {
    GroupedReversedQPositive(y);
  }

  /** The rational approximant R(y) = p(y)/q(y) of the [1e-3, 1) branch. */
  function Kernel(y: real): real
    requires 0.0 <= y
  {
    DenominatorPositive(y);
    y * PowerSum(P1, y) / PowerSum(Q1, y)
  }

  /** The branches of the comparison chain on y = |x|. */
  datatype Branch = Taylor | Rational | One | Reflected | Asymptotic

  /** The region of |x| each branch is meant to serve. */
  function Region(b: Branch): seq<Interval>
  {
    match b
    case Taylor => [Interval(Closed(0.0), Open(TaylorSwitch))]
    case Rational => [Interval(Closed(TaylorSwitch), Open(1.0))]
    case One => [Point(1.0)]
    case Reflected => [Interval(Open(1.0), Open(InvTaylorSwitch))]
    case Asymptotic => [Interval(Closed(InvTaylorSwitch), Unbounded)]
  }

  /** The ordered comparison chain; every magnitude lies in exactly one region,
      and the chain picks that one. */
  function Select(y: real): (b: Branch)
    requires 0.0 <= y
    ensures AnyContains(Region(b), y)
    ensures forall b' :: AnyContains(Region(b'), y) ==> b' == b
  {
    if y < TaylorSwitch then Taylor
    else if y < 1.0 then Rational
    else if y == 1.0 then One
    else if y < InvTaylorSwitch then Reflected
    else Asymptotic
  }

  /** arctan on a double; the branch values are the source's expressions, with
      the grouped polynomials replaced by the power sums they equal. */
  function Arctan(x: Double): (r: Double)
    ensures !x.Finite? ==> r == NaN
    ensures x.Finite? ==> r.Finite?
  {
    match x
    case Finite(v) =>
      if v == 0.0 then Finite(0.0)
      else
        var sign := Sign(v);
        var y := Abs(v);
        (match Select(y)
        case Taylor => Finite(sign * ArctanTaylor(y))
        case Rational =>
          DenominatorPositive(y);
          Finite(sign * (y * PowerSum(P1, y)) / PowerSum(Q1, y))
        case One => Finite(sign * 0.25 * Pi)
        case Reflected =>
          var c := sign * 0.5 * Pi;
          ReversedDenominatorPositive(y);
          Finite(-sign * PowerSum(Reverse(P1), y) / PowerSum(Reverse(Q1), y) + c)
        case Asymptotic =>
          var c := sign * 0.5 * Pi;
          var yinv := 1.0 / y;
          Finite(-sign * ArctanTaylor(yinv) + c))
    case _ => NaN
  }

  lemma ArctanAtZero()
    ensures Arctan(Finite(0.0)) == Finite(0.0)
  {
  }

  /** |x| = 1 is answered with ±π/4. */
  lemma ArctanAtOne()
    ensures Arctan(Finite(1.0)) == Finite(Pi / 4.0)
    ensures Arctan(Finite(-1.0)) == Finite(-Pi / 4.0)
  {
  }

  /** The Taylor kernel is the arctan series cut after the y^3 term. */
  lemma ArctanTaylorSeries(u: real)
    ensures ArctanTaylor(u) == PowerSum(InverseTangentSeries(1, 4), u)
  {
    var c := InverseTangentSeries(1, 4);
    assert Pow(3.0, 1) == 3.0;
    assert c[0] == 0.0 && c[1] == 1.0 && c[2] == 0.0 && c[3] == -1.0 / 3.0;
    PowerSum4(c, u);
  }

  /** Reading the tables backwards evaluates y^9·p(1/y) and y^9·q(1/y), where p
      is the numerator y·Σ P1[i]·y^i and q the denominator of the forward branch. */
  lemma NumeratorReversal(y: real)
    requires y != 0.0
    ensures PowerSum(Reverse(P1), y) == Pow(y, 9) * ((1.0 / y) * PowerSum(P1, 1.0 / y))
  {
    PowerSumReverse(P1, y);
    assert |P1| - 1 == 8;
    assert Pow(y, |P1| - 1) == Pow(y, 8);
    PowSucc(y, 9, 8);
    ScaleInverse(y, Pow(y, 8), PowerSum(P1, 1.0 / y));
  }

  lemma DenominatorReversal(y: real)
    requires y != 0.0
    ensures PowerSum(Reverse(Q1), y) == Pow(y, 9) * PowerSum(Q1, 1.0 / y)
  {
    PowerSumReverse(Q1, y);
    assert PowerSum(Reverse(Q1), y) == Pow(y, |Q1| - 1) * PowerSum(Q1, 1.0 / y);
    assert |Q1| - 1 == 9;
    assert Pow(y, |Q1| - 1) == Pow(y, 9);
  }

  /** On 1 < |x| < 1000 the result is sign·(π/2 - R(1/|x|)). */
  lemma ArctanReflection(v: real)
    requires 1.0 < Abs(v) < InvTaylorSwitch
    ensures Arctan(Finite(v)) == Finite(Sign(v) * (Pi / 2.0 - Kernel(1.0 / Abs(v))))
  {
    ReflectionUnfold(v);
    ReflectionValue(Sign(v), Abs(v));
  }

  /** The Reflected branch of Arctan, in the source's grouping. */
  lemma ReflectionUnfold(v: real)
    requires 1.0 < Abs(v) < InvTaylorSwitch
    ensures PowerSum(Reverse(Q1), Abs(v)) > 0.0
    ensures Arctan(Finite(v))
         == Finite(-Sign(v) * PowerSum(Reverse(P1), Abs(v)) / PowerSum(Reverse(Q1), Abs(v)) + Sign(v) * 0.5 * Pi)
  {
    ReversedDenominatorPositive(Abs(v));
    assert Select(Abs(v)) == Reflected;
  }

  /** The reversed-table quotient at y is the kernel at 1/y, so the branch
      value is s·(π/2 - R(1/y)). */
  lemma ReflectionValue(s: real, y: real)
    requires 1.0 < y < InvTaylorSwitch
    ensures PowerSum(Reverse(Q1), y) != 0.0
    ensures -s * PowerSum(Reverse(P1), y) / PowerSum(Reverse(Q1), y) + s * 0.5 * Pi
         == s * (Pi / 2.0 - Kernel(1.0 / y))
  {
    var u := 1.0 / y;
    NumeratorReversal(y);
    DenominatorReversal(y);
    DenominatorPositive(u);
    ReflectedRatio(s, Pow(y, 9), u * PowerSum(P1, u), PowerSum(Q1, u), PowerSum(Reverse(P1), y), PowerSum(Reverse(Q1), y), Kernel(u), Pi);
  }

  /** For |x| ≥ 1000 the result is sign·(π/2 - T(1/|x|)) with T the truncated series. */
  lemma ArctanAsymptotic(v: real)
    requires Abs(v) >= InvTaylorSwitch
    ensures Arctan(Finite(v)) == Finite(Sign(v) * (Pi / 2.0 - PowerSum(InverseTangentSeries(1, 4), 1.0 / Abs(v))))
  {
    var u := 1.0 / Abs(v);
    AsymptoticUnfold(v);
    ArctanTaylorSeries(u);
    AsymptoticRecombine(Sign(v), ArctanTaylor(u), PowerSum(InverseTangentSeries(1, 4), u));
  }

  /** The Asymptotic branch of Arctan, in the source's grouping. */
  lemma AsymptoticUnfold(v: real)
    requires Abs(v) >= InvTaylorSwitch
    ensures Arctan(Finite(v)) == Finite(-Sign(v) * ArctanTaylor(1.0 / Abs(v)) + Sign(v) * 0.5 * Pi)
  {
    assert Select(Abs(v)) == Asymptotic;
  }

  /** -s·t + s·π/2 is s·(π/2 - t), over atoms. */
  lemma AsymptoticRecombine(s: real, t: real, t': real)
    ensures t == t' ==> -s * t + s * 0.5 * Pi == s * (Pi / 2.0 - t')
  {
  }

  /** For 0 < |x| < 1e-3 the result is sign·T(|x|). */
  lemma ArctanSmall(v: real)
    requires v != 0.0 && Abs(v) < TaylorSwitch
    ensures Arctan(Finite(v)) == Finite(Sign(v) * PowerSum(InverseTangentSeries(1, 4), Abs(v)))
  {
    ArctanTaylorSeries(Abs(v));
  }

  /** For 1e-3 ≤ |x| < 1 the result is sign·R(|x|). */
  lemma ArctanRational(v: real)
    requires TaylorSwitch <= Abs(v) < 1.0
    ensures Arctan(Finite(v)) == Finite(Sign(v) * Kernel(Abs(v)))
  {
    var y := Abs(v);
    DenominatorPositive(y);
    ScaledQuotient(Sign(v), y * PowerSum(P1, y), PowerSum(Q1, y));
  }

  /** Every branch is sign·g(|x|): the result is the magnitude's result, signed. */
  lemma ArctanSignMagnitude(v: real)
    requires v != 0.0
    ensures Arctan(Finite(v)) == Finite(Sign(v) * Arctan(Finite(Abs(v))).val)
  {
    var y := Abs(v);
    assert Abs(y) == y && Sign(y) == 1.0;
    match Select(y)
    case Taylor =>
    case Rational =>
      ArctanRational(v);
      ArctanRational(y);
    case One =>
    case Reflected =>
      ArctanReflection(v);
      ArctanReflection(y);
    case Asymptotic =>
      ArctanAsymptotic(v);
      ArctanAsymptotic(y);
  }

  /** arctan is odd on every input. */
  lemma ArctanOdd(x: Double)
    ensures Arctan(Negate(x)) == Negate(Arctan(x))
  {
    if x.Finite? && x.val != 0.0 {
      ArctanSignMagnitude(x.val);
      ArctanSignMagnitude(-x.val);
    }
  }

  /** The reciprocal identity arctan(x) = sign(x)·(π/2 - arctan(1/|x|)) for
      |x| > 1: the Reflected and Asymptotic branches are the Rational and
      Taylor branches at 1/|x|. At |x| = 1000 the two sides use different
      branches (Asymptotic against Rational), so that point is excluded. */
  lemma ArctanReciprocal(v: real)
    requires 1.0 < Abs(v) && Abs(v) != InvTaylorSwitch
    ensures Arctan(Finite(v)) == Finite(Sign(v) * (Pi / 2.0 - Arctan(Finite(1.0 / Abs(v))).val))
  {
    var u := 1.0 / Abs(v);
    ReciprocalBounds(TaylorSwitch, Abs(v));
    assert Abs(u) == u && Sign(u) == 1.0;
    if Abs(v) < InvTaylorSwitch {
      ArctanReflection(v);
      ArctanRational(u);
    } else {
      ArctanAsymptotic(v);
      ArctanSmall(u);
    }
  }
}
