# beaver: integer powers and special functions, modelled in Dafny

beaver is a header-only C++ library of fast scalar functions. This project
models two of its layers.

- **Integer-exponent powers** (`beaver/pow.hpp`). These are:
  - the compile-time recursion `pow<N>`;
  - the wrapping integer loop `ipow`;
  - the runtime loop `detail::pow_small_int`;
  - the runtime `pow(x, n)`, which uses the loop for `|n| ≤ 64` and `std::pow` beyond.
- **Region dispatch and argument reduction** of `arctan`, `atanint`, `log1p`,
  `dilog`, `trilog` and `svdilog`. Each function is an ordered chain of
  comparisons against fixed breakpoints. Each branch does one of three things:
  - returns an exact value;
  - returns NaN or −∞;
  - maps `x` to a reduced argument and recombines a short series or a minimax
    quotient with a sign and a constant.

A double is `Finite(r) | PosInf | NegInf | NaN` with `r` an exact real (module
`Doubles`). The library's `beaver::log` and `std::pow` are function-valued
parameters (`ln`, `stdPow`). Every minimax table is written with the source's
own digits.

Each special function comes with the following.
- A region table `Region(b)`, one set of intervals per branch. `Select`
  proves that the comparison chain picks the one branch whose region holds
  `x`, and that no other branch's region holds it.
- The source's grouped (Estrin or fma) evaluation of each polynomial, as a
  `Grouped*` function whose contract proves it equal to the plain power sum
  `Σ c[i]·y^i` (module `Polynomials`). The branch bodies evaluate these power
  sums.
- Lemmas proving that the reversed-coefficient evaluations used for large
  `|x|` equal `y^d·p(1/y)`. This algebra turns the inversion branches into the
  forward quotient at `1/y`.
- Positivity of every denominator on its region, so each division is defined.
- Per-branch lemmas stating the value each region returns, the exact special
  values, odd symmetry for `arctan` and `atanint`, and NaN on the branch cut.
  The short Taylor kernels are each compared with the truncation of the series
  they stand for, whose coefficients come from the general term (module
  `Series`).

For `svdilog` the reduction `(y, c, s)` is a function in its own right. It
maps every finite `x` other than 0 and 1 into `0 < y ≤ 0.5`. It reaches
`y = 0.5` exactly at `x ∈ {−1, 0.5, 2}`, so the comment at
`beaver/svdilog.hpp:45` understates the interval as open.

Two facts about the svdilog code that the model keeps as written:
- The recombination halves the log term: it computes
  `c + s·(y·p2/q2 + ½·log(y)·y·p1/q1)` (`beaver/svdilog.hpp:109-114`; see
  the comment at `beaver/svdilog.hpp:113`).
- svdilog's tables are its own: they differ from dilog's in the trailing
  digits. dilog and trilog do share the log-kernel tables digit for digit
  (module `LogKernel`).

## Model

| member | source | states |
|---|---|---|
| Doubles.Sign | beaver/arctan.hpp:34-35 | the sign is ±1 and sign·\|x\| = x |
| Doubles.Abs | beaver/arctan.hpp:35 | fabs is non-negative and equals x or −x |
| Polynomials.PowerSumReverse | beaver/arctan.hpp:55-56 | a polynomial with its coefficients reversed is y^(n−1)·p(1/y) |
| Power.PowN | beaver/pow.hpp:14-34 | the corrected pow<N>(x) equals x^N for N ≥ 0 and 1/x^(−N) for N < 0 |
| Power.PowNZero | beaver/pow.hpp:17-18 | pow<0>(x) = 1 for every x, as written and corrected |
| Power.AsWrittenExponent | beaver/pow.hpp:17-33 | the exponent the source's recursion produces: N itself for every N ≥ 0; for negative N the even steps negate their half's exponent |
| Power.PowNAsWritten | beaver/pow.hpp:14-34 | the source's recursion computes x raised to AsWrittenExponent(N), so x^N for every N ≥ 0 |
| Power.AsWrittenMinusTwo | beaver/pow.hpp:27-29 | as written, pow<−2>(x) = x², while 1/x² is meant |
| Power.IPowStep | beaver/pow.hpp:48-52 | one iteration keeps res·x^n fixed modulo the width of T |
| Power.IPow | beaver/pow.hpp:43-54 | ipow returns x^n reduced modulo the number m of values of T, in [0, m); the loop ends, and n = 0 gives 1 |
| Power.Magnitude | beaver/pow.hpp:68 | \|n\| fits the intermediate long long and the unsigned result for every int n, including the most negative; it is non-zero for n ≠ 0 |
| Power.PowStep | beaver/pow.hpp:70-74 | one iteration keeps res·x^uu fixed |
| Power.PowSmallInt | beaver/pow.hpp:63-76 | the result is 1 for n = 0, x^n for n > 0, 1/x^\|n\| for n < 0 and x ≠ 0, and +∞ for x = 0 with n < 0 |
| Power.RuntimePow | beaver/pow.hpp:79-91 | the loop is used exactly when −64 ≤ n ≤ 64, otherwise std::pow |
| Power.Truncate | beaver/pow.hpp:98-100 | the conversion back to an integer truncates toward zero, and is defined only for a finite value |
| Power.RuntimePowIntegral | beaver/pow.hpp:92-100 | an integral base is promoted, raised by the loop within the cutoff or by std::pow beyond, and truncated back |
| Power.IntegralPowValues | beaver/pow.hpp:92-100 | within the cutoff an integral base gets the exact x^n for n ≥ 0; for n < 0 it gets ±1 for a unit base, 0 for \|x\| ≥ 2, and nothing defined for 0 |
| SvDilog.Select | beaver/svdilog.hpp:49-77 | every real x lies in exactly one of the eight regions, and the chain picks it |
| SvDilog.Reduce | beaver/svdilog.hpp:45-77 | x = 0 and x = 1 give the exact values 0 and ζ2; every other x gives 0 < y ≤ 0.5, s = ±1 and c ∈ {−ζ2, 0, ζ2, 2ζ2}; y = 0.5 exactly at x ∈ {−1, 0.5, 2} |
| SvDilog.ReduceRoundTrip | beaver/svdilog.hpp:49-77 | each branch's map is inverted by the matching inverse map, so y determines x |
| SvDilog.SmallCSeries | beaver/svdilog.hpp:83-84 | C is the Li2 series through y^4 |
| SvDilog.SmallDSeries | beaver/svdilog.hpp:85-86 | D is ½·log(1 − y) = −½·Li1(y) through y^4 |
| SvDilog.GroupedP1 | beaver/svdilog.hpp:91 | the Estrin-form p1 equals Σ P1[i]·y^i |
| SvDilog.GroupedQ1 | beaver/svdilog.hpp:94-97 | the Estrin-form q1 equals Σ Q1[i]·y^i |
| SvDilog.GroupedP2 | beaver/svdilog.hpp:100 | the Estrin-form p2 equals Σ P2[i]·y^i |
| SvDilog.GroupedQ2 | beaver/svdilog.hpp:103-106 | the Estrin-form q2 equals Σ Q2[i]·y^i |
| SvDilog.Q1Positive | beaver/svdilog.hpp:109 | q1 > 0 on [0, 0.5], so 1/(2·q1) is defined |
| SvDilog.Q2Positive | beaver/svdilog.hpp:111 | q2 > 0 on [0, 0.5], so 1/q2 is defined |
| SvDilog.RecombineSmall | beaver/svdilog.hpp:81-88 | for y < 1e-4 the result is c + s·(T2(y) − ½·log(y)·T1(y)), with T2 and T1 the truncated Li2 and Li1 series |
| SvDilog.RecombineRational | beaver/svdilog.hpp:109-114 | for y ≥ 1e-4 the nested fma is c + s·(y·p2/q2 + ½·log(y)·y·p1/q1) |
| SvDilog.SvDilog | beaver/svdilog.hpp:8-116 | NaN exactly for non-finite input, and a finite value otherwise |
| SvDilog.SvDilogExactValues | beaver/svdilog.hpp:57-68 | svdilog(0) = 0 and svdilog(1) = ζ2 |
| SvDilog.SvDilogReduced | beaver/svdilog.hpp:46-77 | away from 0 and 1 the result is the recombination at the branch's (y, c, s) |
| SvDilog.SvDilogSmall | beaver/svdilog.hpp:78-88 | with y < 1e-4 the result is c + s·(T2(y) − ½·log(y)·T1(y)) |
| SvDilog.SvDilogRational | beaver/svdilog.hpp:89-115 | with y ≥ 1e-4 the result is c + s·(R2(y) + ½·log(y)·L(y)), for the two minimax quotients |
| Arctan.ArctanTaylorSeries | beaver/arctan.hpp:18-21 | arctan_Taylor(u) = u − u³/3, the arctan series through u³ |
| Arctan.GroupedP | beaver/arctan.hpp:44 | the grouped p equals y·Σ P1[i]·y^i |
| Arctan.GroupedQ | beaver/arctan.hpp:45 | the grouped q equals Σ Q1[i]·y^i |
| Arctan.GroupedReversedP | beaver/arctan.hpp:55 | the reversed p equals Σ P1[8−i]·y^i |
| Arctan.GroupedReversedQ | beaver/arctan.hpp:56 | the reversed q equals Σ Q1[9−i]·y^i |
| Arctan.GroupedQPositive | beaver/arctan.hpp:45-46 | the grouped q is at least 1 for y ≥ 0 |
| Arctan.DenominatorPositive | beaver/arctan.hpp:45-46 | q(y) ≥ 1 for y ≥ 0 |
| Arctan.GroupedReversedQPositive | beaver/arctan.hpp:56-57 | the reversed q is at least Q1[9] > 0 for y ≥ 0 |
| Arctan.ReversedDenominatorPositive | beaver/arctan.hpp:56-57 | the reversed q is positive for y ≥ 0 |
| Arctan.Select | beaver/arctan.hpp:37-63 | the five regions [0, 1e-3), [1e-3, 1), {1}, (1, 1000), [1000, ∞) partition \|x\|, and the chain picks the one holding \|x\| |
| Arctan.Arctan | beaver/arctan.hpp:24-64 | NaN for non-finite input, a finite value otherwise |
| Arctan.ArctanAtZero | beaver/arctan.hpp:30-32 | arctan(0) = 0 |
| Arctan.ArctanAtOne | beaver/arctan.hpp:47-48 | arctan(±1) = ±π/4 |
| Arctan.NumeratorReversal | beaver/arctan.hpp:44-55 | the reversed p at y is y^9·p(1/y) for the forward p |
| Arctan.DenominatorReversal | beaver/arctan.hpp:45-56 | the reversed q at y is y^9·q(1/y) for the forward q |
| Arctan.ArctanSmall | beaver/arctan.hpp:37-38 | for 0 < \|x\| < 1e-3 the result is sign·T(\|x\|), with T the truncated arctan series |
| Arctan.ArctanRational | beaver/arctan.hpp:39-46 | for 1e-3 ≤ \|x\| < 1 the result is sign·R(\|x\|), with R = y·p/q |
| Arctan.ArctanReflection | beaver/arctan.hpp:49-57 | for 1 < \|x\| < 1000 the result is sign·(π/2 − R(1/\|x\|)) |
| Arctan.ArctanAsymptotic | beaver/arctan.hpp:58-63 | for \|x\| ≥ 1000 the result is sign·(π/2 − T(1/\|x\|)) |
| Arctan.ArctanReciprocal | beaver/arctan.hpp:37-63 | for \|x\| > 1 other than the switch point 1000, arctan(x) = sign·(π/2 − arctan(1/\|x\|)): the model obeys the reciprocal identity of arctan exactly |
| Arctan.ArctanSignMagnitude | beaver/arctan.hpp:33-63 | every non-zero x gives sign(x)·arctan(\|x\|) |
| Arctan.ArctanOdd | beaver/arctan.hpp:24-64 | arctan(−x) = −arctan(x) on every double, including NaN and the infinities |
| AtanInt.Ti2TaylorSeries | beaver/atanint.hpp:17-20 | Ti2_Taylor(u) = u − u³/9, the Ti2 series through u³ |
| AtanInt.GroupedP | beaver/atanint.hpp:40 | the grouped p equals y·Σ P2[i]·y^i |
| AtanInt.GroupedQ | beaver/atanint.hpp:41 | the grouped q equals Σ Q2[i]·y^i |
| AtanInt.GroupedReversedP | beaver/atanint.hpp:52 | the reversed p equals Σ P2[8−i]·y^i |
| AtanInt.GroupedReversedQ | beaver/atanint.hpp:53 | the reversed q equals Σ Q2[9−i]·y^i |
| AtanInt.GroupedQPositive | beaver/atanint.hpp:41-42 | the grouped q is at least 1 for y ≥ 0 |
| AtanInt.DenominatorPositive | beaver/atanint.hpp:41-42 | q(y) ≥ 1 for y ≥ 0 |
| AtanInt.GroupedReversedQPositive | beaver/atanint.hpp:53-54 | the reversed q is at least Q2[9] > 0 for y ≥ 0 |
| AtanInt.ReversedDenominatorPositive | beaver/atanint.hpp:53-54 | the reversed q is positive for y ≥ 0 |
| AtanInt.Select | beaver/atanint.hpp:33-61 | the five regions [0, 1e-4), [1e-4, 1), {1}, (1, 1e4), [1e4, ∞) partition \|x\|, and the chain picks the one holding \|x\| |
| AtanInt.AtanInt | beaver/atanint.hpp:21-62 | NaN for non-finite input, a finite value otherwise |
| AtanInt.AtanIntAtZero | beaver/atanint.hpp:26-28 | atanint(0) = 0 |
| AtanInt.AtanIntAtOne | beaver/atanint.hpp:43-44 | atanint(±1) = ±Catalan |
| AtanInt.NumeratorReversal | beaver/atanint.hpp:40-52 | the reversed p at y is y^9·p(1/y) for the forward p |
| AtanInt.DenominatorReversal | beaver/atanint.hpp:41-53 | the reversed q at y is y^9·q(1/y) for the forward q |
| AtanInt.AtanIntSmall | beaver/atanint.hpp:33-34 | for 0 < \|x\| < 1e-4 the result is sign·T(\|x\|), with T the truncated Ti2 series |
| AtanInt.AtanIntRational | beaver/atanint.hpp:35-42 | for 1e-4 ≤ \|x\| < 1 the result is sign·R(\|x\|) |
| AtanInt.AtanIntReflection | beaver/atanint.hpp:45-54 | for 1 < \|x\| < 1e4 the result is sign·(R(1/\|x\|) + (π/2)·log\|x\|) |
| AtanInt.AtanIntAsymptotic | beaver/atanint.hpp:55-61 | for \|x\| ≥ 1e4 the result is sign·(T(1/\|x\|) + (π/2)·log\|x\|) |
| AtanInt.AtanIntReciprocal | beaver/atanint.hpp:33-61 | for \|x\| > 1 other than the switch point 1e4, Ti2(x) = sign·(Ti2(1/\|x\|) + (π/2)·log\|x\|), the inverse tangent integral's reciprocal identity |
| AtanInt.AtanIntSignMagnitude | beaver/atanint.hpp:30-61 | every non-zero x gives sign(x)·atanint(\|x\|) |
| AtanInt.AtanIntOdd | beaver/atanint.hpp:21-62 | atanint(−x) = −atanint(x) on every double |
| Log1p.Log1pTaylorSeries | beaver/log1p.hpp:16-20 | log1p_Taylor(x) = x − x²/2 + x³/3 − x⁴/4 + x⁵/5, the log(1 + x) series through x⁵ |
| Log1p.GroupedP | beaver/log1p.hpp:46 | the grouped p equals x·Σ P1[i]·x^i |
| Log1p.GroupedQ | beaver/log1p.hpp:47 | the grouped q equals Σ Q1[i]·x^i |
| Log1p.GroupedQPositive | beaver/log1p.hpp:47-48 | the grouped q is positive on (−0.3, 0.3) |
| Log1p.DenominatorPositive | beaver/log1p.hpp:47-48 | q(x) > 0 on (−0.3, 0.3) |
| Log1p.Select | beaver/log1p.hpp:27-51 | every real x lies in exactly one region, and the chain picks it; x = −1 is tested before x < −1 |
| Log1p.Log1p | beaver/log1p.hpp:21-52 | NaN exactly for non-finite x and x < −1; −∞ exactly at x = −1; never +∞ |
| Log1p.Log1pAtZero | beaver/log1p.hpp:27-29 | log1p(0) = 0 |
| Log1p.Log1pSmall | beaver/log1p.hpp:40-41 | for 0 < \|x\| < 1e-3 the result is the signed quintic series |
| Log1p.Log1pRational | beaver/log1p.hpp:42-48 | for 1e-3 ≤ \|x\| < 0.3 the result is the quotient x·p(x)/q(x) in signed x |
| Log1p.Log1pLogarithm | beaver/log1p.hpp:49-51 | for x > −1 with \|x\| ≥ 0.3 the result is log(1 + x) |
| LogKernel.GroupedP | beaver/dilog.hpp:81 | the fma-grouped pl equals y·Σ P1[i]·y^i |
| LogKernel.GroupedQ | beaver/dilog.hpp:82 | the fma-grouped ql equals Σ Q1[i]·y^i |
| LogKernel.GroupedQPositive | beaver/dilog.hpp:82-83 | the grouped ql is positive on [0, 0.5] |
| LogKernel.DenominatorPositive | beaver/dilog.hpp:82-83 | ql(y) > 0 on [0, 0.5], so l = pl/ql is defined |
| Dilog.Li2TaylorSeries | beaver/dilog.hpp:26-30 | Li2_Taylor(u) = u + u²/4 + u³/9 + u⁴/16, the Li2 series through u⁴ |
| Dilog.Li1TaylorSeries | beaver/dilog.hpp:96 | logtaylor is the Li1 = −log(1 − y) series through y⁴ |
| Dilog.GroupedP2a | beaver/dilog.hpp:67 | the grouped p equals x·Σ P2a[i]·x^i |
| Dilog.GroupedQ2a | beaver/dilog.hpp:68 | the grouped q equals Σ Q2a[i]·x^i |
| Dilog.GroupedP2b | beaver/dilog.hpp:58 | the grouped p equals x·Σ P2b[i]·x^i |
| Dilog.GroupedQ2b | beaver/dilog.hpp:59 | the grouped q equals Σ Q2b[i]·x^i |
| Dilog.GroupedReversedP2b | beaver/dilog.hpp:49 | the reversed p equals Σ P2b[5−i]·x^i |
| Dilog.GroupedReversedQ2b | beaver/dilog.hpp:50 | the reversed q equals Σ Q2b[6−i]·x^i |
| Dilog.GroupedQ2aPositive | beaver/dilog.hpp:68-69 | the grouped q is positive on [0, 0.5] |
| Dilog.Q2aPositive | beaver/dilog.hpp:68-69 | Σ Q2a[i]·x^i > 0 on [0, 0.5] |
| Dilog.GroupedQ2bPositive | beaver/dilog.hpp:59-60 | the grouped q is at least 1 for x ≤ 0 |
| Dilog.Q2bPositive | beaver/dilog.hpp:59-60 | Σ Q2b[i]·x^i ≥ 1 for x ≤ 0 |
| Dilog.GroupedReversedQ2bPositive | beaver/dilog.hpp:50-51 | the reversed q is at least Q2b[6] > 0 for x ≤ 0 |
| Dilog.ReversedQ2bPositive | beaver/dilog.hpp:50-51 | the reversed q is positive for x ≤ 0 |
| Dilog.Select | beaver/dilog.hpp:37-102 | every real x lies in exactly one of the eleven regions, and the chain picks it |
| Dilog.Dilog | beaver/dilog.hpp:31-103 | NaN exactly for non-finite x and x > 1; finite exactly for finite x ≤ 1 |
| Dilog.DilogAtMinusOne | beaver/dilog.hpp:52-53 | dilog(−1) = −ζ2/2 |
| Dilog.DilogAtZero | beaver/dilog.hpp:61-62 | dilog(0) = 0 |
| Dilog.DilogAtHalf | beaver/dilog.hpp:70-72 | dilog(0.5) = ζ2/2 − ln²2/2 |
| Dilog.DilogAtOne | beaver/dilog.hpp:98-99 | dilog(1) = ζ2 |
| Dilog.NumeratorReversal | beaver/dilog.hpp:49-58 | the reversed p at x is x^6·p(1/x) for the forward p |
| Dilog.DenominatorReversal | beaver/dilog.hpp:50-59 | the reversed q at x is x^6·q(1/x) for the forward q |
| Dilog.DilogInversionTaylor | beaver/dilog.hpp:37-42 | for x < −1e4 the result is −T(1/x) − ζ2 − ½·log(−x)², with T the truncated Li2 series |
| Dilog.DilogInversion | beaver/dilog.hpp:43-51 | on [−1e4, −1) the result is −R_b(1/x) − ζ2 − ½·log(−x)² |
| Dilog.DilogReciprocal | beaver/dilog.hpp:37-62 | for x < −1 other than the switch point −1e4, Li2(x) = −Li2(1/x) − ζ2 − ½·log(−x)²: the model obeys the inversion identity of Li2 exactly |
| Dilog.DilogNegative | beaver/dilog.hpp:54-60 | on (−1, −1e-4) the result is R_b(x) |
| Dilog.DilogSmall | beaver/dilog.hpp:61-62 | on [−1e-4, 1e-4) the result is the truncated Li2 series |
| Dilog.DilogPositive | beaver/dilog.hpp:63-69 | on [1e-4, 0.5) the result is R_a(x) |
| Dilog.DilogReflection | beaver/dilog.hpp:73-89 | on (0.5, 1 − 1e-4) the result is ζ2 − l·log(1 − x) − R_a(1 − x), with l = pl/ql at y = 1 − x |
| Dilog.NearOneTaylorSeries | beaver/dilog.hpp:95 | the near-one kernel is ζ2 minus the Li2 series through y⁴ |
| Dilog.DilogNearOne | beaver/dilog.hpp:90-97 | at x = 1 − y with 0 < y ≤ 1e-4, that is on [1 − 1e-4, 1), the result is ζ2 − T2(y) + log(y)·T1(y) |
| Trilog.Li3TaylorSeries | beaver/trilog.hpp:31-35 | Li3_Taylor(u) = u + u²/8 + u³/27 + u⁴/64, the Li3 series through u⁴ |
| Trilog.GroupedP3a | beaver/trilog.hpp:74 | the grouped p equals x·Σ P3a[i]·x^i |
| Trilog.GroupedQ3a | beaver/trilog.hpp:75 | the grouped q equals Σ Q3a[i]·x^i |
| Trilog.GroupedP3b | beaver/trilog.hpp:65 | the grouped p equals x·Σ P3b[i]·x^i |
| Trilog.GroupedQ3b | beaver/trilog.hpp:66 | the grouped q equals Σ Q3b[i]·x^i |
| Trilog.GroupedReversedP3b | beaver/trilog.hpp:56 | the reversed p equals Σ P3b[5−i]·x^i |
| Trilog.GroupedReversedQ3b | beaver/trilog.hpp:57 | the reversed q equals Σ Q3b[6−i]·x^i |
| Trilog.GroupedP3c | beaver/trilog.hpp:94 | the numerator that starts at y² still equals y·Σ P3c[i]·y^i, since P3c[0] = 0 |
| Trilog.GroupedQ3c | beaver/trilog.hpp:95 | the grouped q equals Σ Q3c[i]·y^i |
| Trilog.GroupedQ3aPositive | beaver/trilog.hpp:75-76 | the grouped q is positive on [0, 0.5] |
| Trilog.Q3aPositive | beaver/trilog.hpp:75-76 | Σ Q3a[i]·x^i > 0 on [0, 0.5] |
| Trilog.GroupedQ3bPositive | beaver/trilog.hpp:66-67 | the grouped q is at least 1 for x ≤ 0 |
| Trilog.Q3bPositive | beaver/trilog.hpp:66-67 | Σ Q3b[i]·x^i ≥ 1 for x ≤ 0 |
| Trilog.GroupedReversedQ3bPositive | beaver/trilog.hpp:57-58 | the reversed q is at least Q3b[6] > 0 for x ≤ 0 |
| Trilog.ReversedQ3bPositive | beaver/trilog.hpp:57-58 | the reversed q is positive for x ≤ 0 |
| Trilog.GroupedQ3cPositive | beaver/trilog.hpp:95-96 | the grouped q is positive on [0, 0.5] |
| Trilog.Q3cPositive | beaver/trilog.hpp:95-96 | Σ Q3c[i]·y^i > 0 on [0, 0.5] |
| Trilog.Select | beaver/trilog.hpp:42-109 | every real x lies in exactly one of the eleven regions, and the chain picks it |
| Trilog.Trilog | beaver/trilog.hpp:36-110 | NaN exactly for non-finite x and x > 1; finite exactly for finite x ≤ 1 |
| Trilog.TrilogAtMinusOne | beaver/trilog.hpp:59-60 | trilog(−1) = −¾·ζ3 |
| Trilog.TrilogAtZero | beaver/trilog.hpp:68-69 | trilog(0) = 0 |
| Trilog.TrilogAtHalf | beaver/trilog.hpp:77-79 | trilog(0.5) = ⅞·ζ3 + ln³2/6 − ζ2·ln2/2 |
| Trilog.TrilogAtOne | beaver/trilog.hpp:105-106 | trilog(1) = ζ3 |
| Trilog.NumeratorReversal | beaver/trilog.hpp:56-65 | the reversed p at x is x^6·p(1/x) for the forward p |
| Trilog.DenominatorReversal | beaver/trilog.hpp:57-66 | the reversed q at x is x^6·q(1/x) for the forward q |
| Trilog.InversionQuotient | beaver/trilog.hpp:56-58 | for x < 0 the reversed quotient is defined and equals R_b(1/x) |
| Trilog.TrilogInversionTaylor | beaver/trilog.hpp:42-48 | for x < −1e4 the result is T(1/x) − ζ2·log(−x) − log(−x)³/6, with T the truncated Li3 series |
| Trilog.TrilogInversion | beaver/trilog.hpp:49-58 | on [−1e4, −1) the result is R_b(1/x) − ζ2·log(−x) − log(−x)³/6 |
| Trilog.TrilogReciprocal | beaver/trilog.hpp:42-69 | for x < −1 other than the switch point −1e4, Li3(x) = Li3(1/x) − ζ2·log(−x) − log(−x)³/6: the model obeys the inversion identity of Li3 exactly |
| Trilog.TrilogNegative | beaver/trilog.hpp:61-67 | on (−1, −1e-4) the result is R_b(x) |
| Trilog.TrilogSmall | beaver/trilog.hpp:68-69 | on [−1e-4, 1e-4) the result is the truncated Li3 series |
| Trilog.TrilogPositive | beaver/trilog.hpp:70-76 | on [1e-4, 0.5) the result is R_a(x) |
| Trilog.TrilogReflection | beaver/trilog.hpp:80-96 | on (0.5, 1 − 1e-4) the result is ζ3 + R_c(y) + ζ2·l − ½·l²·log(y) + l³/6, with y = 1 − x and l = pl/ql |

## Left out

- Approximation accuracy. The model does not claim that any minimax quotient approximates the function it stands for.
- IEEE-754 rounding, single-rounding fma, overflow and underflow. All arithmetic is exact real arithmetic, and `fma(a, b, c)` is `a·b + c`.
- Signed zero. `arctan(−0.0)` and `atanint(−0.0)` return `+0.0` in the source, and the model has only one zero.
- `beaver::log`. It is the parameter `ln`; `log.hpp` is not part of this model.
- `std::pow`. It is the parameter `stdPow`. The choice between its `double` and `long double` overloads is not distinguished (`beaver/pow.hpp:87-91`).
- Non-arithmetic `T` in the runtime `pow` (`beaver/pow.hpp:101-105`). That branch only forwards to `std::pow`.
- `beaver/config.hpp` and `beaver.hpp`. They hold only macros and includes. `beaver/atan.hpp`, which `beaver.hpp` includes, is not part of this model.
- The unused locals `l2` and `l3` at `beaver/dilog.hpp:84-85`.
- The grouped polynomial forms inside the branches. Each branch evaluates the plain power sum. The Grouped* functions hold the source's grouping, with the powers y2, y4, … written out as products, and their contracts equate it with the power sum.
- Trilog: the branch on [1 − 1e-4, 1) (`beaver/trilog.hpp:97-104`) appears in the body with the source's coefficients. No lemma relates those coefficients to an independently defined expansion of Li3 at 1.
- Power.PowN: requires x ≠ 0 when N < 0. The IEEE division by zero that gives ±∞ there is not modelled, and `T` is taken to be a floating type.
- Power.PowNAsWritten: requires x ≠ 0 when N < 0, as PowN does.
- Power.IPow: models an unsigned `T` whose products wrap modulo 2^width. That holds for `unsigned char`, whose promoted `int` product always fits, and for `unsigned int` and wider. For `unsigned short`, `res * x` and `x * x` at `beaver/pow.hpp:49-50` are computed in signed `int` and can overflow (65535·65535), which is undefined behaviour rather than a wrap. For signed `T` an overflowing product is undefined behaviour too. The exponent is a 32-bit unsigned value.
- Power.PowSmallInt: the base is a finite value. Infinite or NaN bases and overflow of the products are not modelled, and 1/0 is +∞ whatever the sign of zero.
- Power.RuntimePowIntegral: the final conversion to `T` is undefined in C++ when the value is out of `T`'s range. The model truncates every finite value and does not bound it by `T`'s range.
- Arctan.ArctanReciprocal: the switch point |x| = 1000 is excluded. There |x| takes the asymptotic branch while 1/|x| = 0.001 takes the rational one, and the two truncations are not proved to agree.
- AtanInt.AtanIntReciprocal: the switch point |x| = 1e4 is excluded, for the same reason.
- Dilog.DilogReciprocal: the switch point x = −1e4 is excluded. There x takes the rational inversion branch while 1/x = −1e-4 takes the Taylor branch, and the two truncations are not proved to agree.
- Trilog.TrilogReciprocal: the switch point x = −1e4 is excluded, for the same reason.

## Findings

| source | as written | input that shows it | evidently intended | confidence | as-written member | corrected member |
|---|---|---|---|---|---|---|
| beaver/pow.hpp:27-29 | for even negative N, `pow<N>` inverts the square of `pow<N/2>`, which is already a reciprocal | N = −2, x = 2: gives 4 | x^N = 1/4, by squaring the reciprocal half power without inverting again | not executed | Power.AsWrittenMinusTwo | Power.PowN |
