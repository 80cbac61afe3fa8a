/** The single-valued dilogarithm ℒ2(x) = Li2(x) + ½·log|x|·log|1 - x| style
    function of the library: every finite x other than 0 and 1 is mapped to
    an argument 0 < y ≤ 1/2 with a constant c and a sign s, and the result is
    c + s·(Li2(y) + ½·log(y)·log(1 - y)) evaluated by a short series for tiny
    y and by two minimax quotients otherwise. The logarithm is a parameter. */
module SvDilog {
  import opened Doubles
  import opened Constants
  import opened Polynomials
  import opened Series
  import opened Regions

  const TinySwitch: real := 0.0001

  /** Numerator and denominator of log(1 - y)/y (digits of this file, which
      differ from those in dilog.hpp in the last places). */
  const P1: seq<real> := [-0.9999999999999998672, 2.7601168443679114661, -2.7923621883637091130,
    1.2497503713725827098, -0.23173044836039025264, 0.012188323559602391638]
  const Q1: seq<real> := [1.0000000000000000000, -3.2601168443679653050, 4.0890872772181186442,
    -2.4575883952960022081, 0.71252476615980667576, -0.086169703890931583743, 0.0026519629643638051651]
  /** Numerator and denominator of Li2(y)/y. */
  const P2: seq<real> := [0.9999999999999999482, -2.6884303049105920449, 2.6478043064679810510,
    -1.1539162530148495033, 0.20887751439651881509, -0.010861077434674470876]
  const Q2: seq<real> := [1.0000000000000000000, -2.9384303049106135183, 3.2713007715860567200,
    -1.7077491898534406278, 0.41598884303385830899, -0.039805247256814134496, 0.00082755014107320442259]

  /** The branches of the argument mapping on a finite x. */
  datatype Branch = Inversion | Negative | Zero | Direct | Reflection | One | InverseReflection | Inverse

  /** The values of x each branch serves. */
  function Region(b: Branch): seq<Interval>
  {
    match b
    case Inversion => [Interval(Unbounded, Open(-1.0))]
    case Negative => [Interval(Closed(-1.0), Open(0.0))]
    case Zero => [Point(0.0)]
    case Direct => [Interval(Open(0.0), Closed(0.5))]
    case Reflection => [Interval(Open(0.5), Open(1.0))]
    case One => [Point(1.0)]
    case InverseReflection => [Interval(Open(1.0), Open(2.0))]
    case Inverse => [Interval(Closed(2.0), Unbounded)]
  }

  /** The ordered chain; every finite x lies in exactly one region, and the
      chain picks that one. */
  function Select(x: real): (b: Branch)
    ensures AnyContains(Region(b), x)
    ensures forall b' :: AnyContains(Region(b'), x) ==> b' == b
  {
    if x < -1.0 then Inversion
    else if x < 0.0 then Negative
    else if x == 0.0 then Zero
    else if x <= 0.5 then Direct
    else if x < 1.0 then Reflection
    else if x == 1.0 then One
    else if x < 2.0 then InverseReflection
    else Inverse
  }

  /** What the mapping produces: an exact answer, or the reduced argument y
      with the constant c and the sign s of the recombination. */
  datatype Reduction = Exact(value: real) | Reduced(y: real, c: real, s: real)

  /** 1/d for d ≥ 2 lies in (0, 1/2], reaching 1/2 only at d = 2. */
  lemma SmallReciprocal(d: real)
    requires d >= 2.0
    ensures 0.0 < 1.0 / d <= 0.5
    ensures 1.0 / d == 0.5 <==> d == 2.0
  {
  }

  /** 1/d for 1 < d < 2 lies in (1/2, 1). */
  lemma MiddleReciprocal(d: real)
    requires 1.0 < d < 2.0
    ensures 0.5 < 1.0 / d < 1.0
  {
  }

  /** x/(x - 1) for -1 ≤ x < 0 lies in (0, 1/2], reaching 1/2 only at x = -1. */
  lemma NegativeQuotient(x: real)
    requires -1.0 <= x < 0.0
    ensures 0.0 < x / (x - 1.0) <= 0.5
    ensures x / (x - 1.0) == 0.5 <==> x == -1.0
  {
    assert x / (x - 1.0) == 1.0 - 1.0 / (1.0 - x);
  }

  /** The argument mapping. */
  function Reduce(x: real): (m: Reduction)
    ensures m.Exact? <==> x == 0.0 || x == 1.0
    ensures m.Exact? ==> m.value == (if x == 0.0 then 0.0 else Zeta2)
    ensures m.Reduced? ==> 0.0 < m.y <= 0.5
    ensures m.Reduced? ==> m.s == 1.0 || m.s == -1.0
    ensures m.Reduced? ==> m.c == -Zeta2 || m.c == 0.0 || m.c == Zeta2 || m.c == 2.0 * Zeta2
    ensures m.Reduced? && m.y == 0.5 <==> x == -1.0 || x == 0.5 || x == 2.0
  {
    match Select(x)
    case Inversion => SmallReciprocal(1.0 - x); Reduced(1.0 / (1.0 - x), -Zeta2, 1.0)
    case Negative => NegativeQuotient(x); Reduced(x / (x - 1.0), 0.0, -1.0)
    case Zero => Exact(0.0)
    case Direct => Reduced(x, 0.0, 1.0)
    case Reflection => Reduced(1.0 - x, Zeta2, -1.0)
    case One => Exact(Zeta2)
    case InverseReflection => MiddleReciprocal(x); Reduced(1.0 - 1.0 / x, Zeta2, 1.0)
    case Inverse => SmallReciprocal(x); Reduced(1.0 / x, 2.0 * Zeta2, -1.0)
  }

  /** The inverse of each branch's map: the x a reduced argument came from. */
  function Restore(b: Branch, y: real): real
    requires 0.0 < y <= 0.5
  {
    match b
    case Inversion => 1.0 - 1.0 / y
    case Negative => y / (y - 1.0)
    case InverseReflection => 1.0 / (1.0 - y)
    case Reflection => 1.0 - y
    case Inverse => 1.0 / y
    case _ => y
  }

  /** Each branch's map is one-to-one: the reduced argument determines x. */
  lemma ReduceRoundTrip(x: real)
    requires x != 0.0 && x != 1.0
    ensures Reduce(x).Reduced? && Restore(Select(x), Reduce(x).y) == x
  {
  }

  /** C and D of the tiny-y expansion, in the source's fma grouping. */
  function SmallC(y: real): real
  {
    var y2 := y * y; var y4 := y2 * y2;
    y + Fma(1.0 / 9.0, y, 0.25) * y2 + 1.0 / 16.0 * y4
  }

  function SmallD(y: real): real
  {
    var y2 := y * y; var y4 := y2 * y2;
    -0.5 * y + Fma(-1.0 / 6.0, y, -0.25) * y2 - 0.125 * y4
  }

  /** C is the Li2 series cut after the y^4 term. */
  lemma SmallCSeries(y: real)
    ensures SmallC(y) == PowerSum(PolylogSeries(2, 5), y)
  {
    var c := PolylogSeries(2, 5);
    assert Pow(2.0, 2) == 4.0 && Pow(3.0, 2) == 9.0 && Pow(4.0, 2) == 16.0;
    assert c[0] == 0.0 && c[1] == 1.0 && c[2] == 1.0 / 4.0 && c[3] == 1.0 / 9.0 && c[4] == 1.0 / 16.0;
    PowerSum5(c, y);
  }

  /** D is ½·log(1 - y) = -½·Li1(y), cut after the y^4 term. */
  lemma SmallDSeries(y: real)
    ensures SmallD(y) == -PowerSum(PolylogSeries(1, 5), y) / 2.0
  {
    var c := PolylogSeries(1, 5);
    assert Pow(2.0, 1) == 2.0 && Pow(3.0, 1) == 3.0 && Pow(4.0, 1) == 4.0;
    assert c[0] == 0.0 && c[1] == 1.0 && c[2] == 1.0 / 2.0 && c[3] == 1.0 / 3.0 && c[4] == 1.0 / 4.0;
    PowerSum5(c, y);
  }

  /** The Estrin-scheme evaluations of lines 91-106. */
  function GroupedP1(y: real): (p: real)
    ensures p == PowerSum(P1, y)
  {
    EstrinSix(P1, y);
    Fma(P1[1], y, P1[0]) + (y * y) * Fma(P1[3], y, P1[2])
      + ((y * y) * (y * y)) * Fma(P1[5], y, P1[4])
  }

  function GroupedQ1(y: real): (q: real)
    ensures q == PowerSum(Q1, y)
  {
    EstrinSeven(Q1, y);
    Fma(Q1[1], y, Q1[0]) + (y * y) * Fma(Q1[3], y, Q1[2])
      + ((y * y) * (y * y)) * Fma(Q1[6], y * y, Fma(Q1[5], y, Q1[4]))
  }

  function GroupedP2(y: real): (p: real)
    ensures p == PowerSum(P2, y)
  {
    EstrinSix(P2, y);
    Fma(P2[1], y, P2[0]) + (y * y) * Fma(P2[3], y, P2[2])
      + ((y * y) * (y * y)) * Fma(P2[5], y, P2[4])
  }

  function GroupedQ2(y: real): (q: real)
    ensures q == PowerSum(Q2, y)
  {
    EstrinSeven(Q2, y);
    Fma(Q2[1], y, Q2[0]) + (y * y) * Fma(Q2[3], y, Q2[2])
      + ((y * y) * (y * y)) * Fma(Q2[6], y * y, Fma(Q2[5], y, Q2[4]))
  }

  /** The Estrin schemes of six and seven coefficients are power sums. */
  lemma EstrinSix(c: seq<real>, y: real)
    requires |c| == 6
    ensures Fma(c[1], y, c[0]) + (y * y) * Fma(c[3], y, c[2]) + ((y * y) * (y * y)) * Fma(c[5], y, c[4])
         == PowerSum(c, y)
  {
    PowerSum6(c, y);
  }

  lemma EstrinSeven(c: seq<real>, y: real)
    requires |c| == 7
    ensures Fma(c[1], y, c[0]) + (y * y) * Fma(c[3], y, c[2])
            + ((y * y) * (y * y)) * Fma(c[6], y * y, Fma(c[5], y, c[4]))
         == PowerSum(c, y)
  {
    PowerSum7(c, y);
  }

  /** Both denominators alternate in sign, yet stay positive on [0, 0.5]. */
  lemma Q1Positive(y: real)
    requires 0.0 <= y <= 0.5
    ensures PowerSum(Q1, y) > 0.0
  {
    PowerSum7(Q1, y);
  }

  lemma Q2Positive(y: real)
    requires 0.0 <= y <= 0.5
    ensures PowerSum(Q2, y) > 0.0
  {
    PowerSum7(Q2, y);
  }

  /** The approximant of log(1 - y). */
  function LogKernel(y: real): real
    requires 0.0 <= y <= 0.5
  {
    Q1Positive(y);
    y * PowerSum(P1, y) / PowerSum(Q1, y)
  }

  /** The approximant of Li2(y). */
  function Li2Kernel(y: real): real
    requires 0.0 <= y <= 0.5
  {
    Q2Positive(y);
    y * PowerSum(P2, y) / PowerSum(Q2, y)
  }

  /** The evaluation after the mapping (lines 78-115), with the Estrin
      polynomials replaced by the power sums they equal. */
  function Recombine(ln: real -> real, y: real, c: real, s: real): real
    requires 0.0 < y <= 0.5
  {
    if y < TinySwitch then
      var l := ln(y);
      c + s * Fma(l, SmallD(y), SmallC(y))
    else
      var p1 := PowerSum(P1, y);
      var q1 := PowerSum(Q1, y);
      var p2 := PowerSum(P2, y);
      var q2 := PowerSum(Q2, y);
      Q1Positive(y);
      Q2Positive(y);
      var denomq1half := 1.0 / (2.0 * q1);
      var denomq2 := 1.0 / q2;
      Fma(s * y * p1 * denomq1half, ln(y), Fma(s * denomq2, y * p2, c))
  }

  /** For y < 1e-4: c + s·(T2(y) - ½·log(y)·T1(y)) with T2, T1 the truncated
      Li2 and Li1 series. */
  lemma RecombineSmall(ln: real -> real, y: real, c: real, s: real)
    requires 0.0 < y < TinySwitch
    ensures Recombine(ln, y, c, s)
         == c + s * (PowerSum(PolylogSeries(2, 5), y) - ln(y) * PowerSum(PolylogSeries(1, 5), y) / 2.0)
  {
    SmallUnfold(ln, y, c, s);
    SmallStep(ln(y), PowerSum(PolylogSeries(1, 5), y), PowerSum(PolylogSeries(2, 5), y), c, s);
  }

  /** The y < 1e-4 branch of Recombine, in the source's fma form, with C and
      D replaced by the truncated series they equal. */
  lemma SmallUnfold(ln: real -> real, y: real, c: real, s: real)
    requires 0.0 < y < TinySwitch
    ensures Recombine(ln, y, c, s)
         == c + s * Fma(ln(y), -PowerSum(PolylogSeries(1, 5), y) / 2.0, PowerSum(PolylogSeries(2, 5), y))
  {
    SmallFma(ln(y), y);
  }

  /** The fma of the y < 1e-4 branch with C and D replaced by their series. */
  lemma SmallFma(l: real, y: real)
    ensures Fma(l, SmallD(y), SmallC(y)) == Fma(l, -PowerSum(PolylogSeries(1, 5), y) / 2.0, PowerSum(PolylogSeries(2, 5), y))
  {
    SmallCSeries(y);
    SmallDSeries(y);
  }

  lemma SmallStep(l: real, t1: real, t2: real, c: real, s: real)
    ensures c + s * Fma(l, -t1 / 2.0, t2) == c + s * (t2 - l * t1 / 2.0)
  {
  }

  /** For y ≥ 1e-4: c + s·(R2(y) + ½·log(y)·L(y)) with R2 the Li2 approximant
      and L the approximant of log(1 - y). */
  lemma RecombineRational(ln: real -> real, y: real, c: real, s: real)
    requires TinySwitch <= y <= 0.5
    ensures Recombine(ln, y, c, s) == c + s * (Li2Kernel(y) + ln(y) * LogKernel(y) / 2.0)
  {
    Q1Positive(y);
    Q2Positive(y);
    RationalStep(s, y, PowerSum(P1, y), PowerSum(Q1, y), PowerSum(P2, y), PowerSum(Q2, y), ln(y), c);
  }

  lemma RationalStep(s: real, y: real, p1: real, q1: real, p2: real, q2: real, l: real, c: real)
    requires q1 != 0.0 && q2 != 0.0
    ensures Fma(s * y * p1 * (1.0 / (2.0 * q1)), l, Fma(s * (1.0 / q2), y * p2, c))
         == c + s * (y * p2 / q2 + l * (y * p1 / q1) / 2.0)
  {
  }

  /** svdilog on a double, given the logarithm `ln`. */
  function SvDilog(ln: real -> real, x: Double): (r: Double)
    ensures r == NaN <==> !x.Finite?
    ensures x.Finite? ==> r.Finite?
  {
    match x
    case Finite(v) =>
      (match Reduce(v)
      case Exact(e) => Finite(e)
      case Reduced(y, c, s) => Finite(Recombine(ln, y, c, s)))
    case _ => NaN
  }

  /** The exact values at 0 and 1. */
  lemma SvDilogExactValues(ln: real -> real)
    ensures SvDilog(ln, Finite(0.0)) == Finite(0.0)
    ensures SvDilog(ln, Finite(1.0)) == Finite(Zeta2)
  {
  }

  /** Away from 0 and 1 the result is the recombination at the branch's
      reduced argument. */
  lemma SvDilogReduced(ln: real -> real, v: real)
    requires v != 0.0 && v != 1.0
    ensures Reduce(v).Reduced?
    ensures SvDilog(ln, Finite(v)) == Finite(Recombine(ln, Reduce(v).y, Reduce(v).c, Reduce(v).s))
  {
  }

  /** Where x reduces to y ≥ 1e-4 with constant c and sign s, the result is
      c + s·(R2(y) + ½·log(y)·L(y)). */
  lemma SvDilogRational(ln: real -> real, v: real, y: real, c: real, s: real)
    requires Reduce(v) == Reduced(y, c, s)
    requires y >= TinySwitch
    ensures SvDilog(ln, Finite(v)) == Finite(c + s * (Li2Kernel(y) + ln(y) * LogKernel(y) / 2.0))
  {
    RecombineRational(ln, y, c, s);
  }

  /** Where x reduces to y < 1e-4 with constant c and sign s, the result is
      the truncated expansion c + s·(T2(y) - ½·log(y)·T1(y)). */
  lemma SvDilogSmall(ln: real -> real, v: real, y: real, c: real, s: real)
    requires Reduce(v) == Reduced(y, c, s)
    requires y < TinySwitch
    ensures SvDilog(ln, Finite(v))
      == Finite(c + s * (PowerSum(PolylogSeries(2, 5), y) - ln(y) * PowerSum(PolylogSeries(1, 5), y) / 2.0))
  {
    RecombineSmall(ln, y, c, s);
  }
}
