/** Reference coefficient sequences of the Taylor series the short kernels
    truncate, each defined from its general term rather than copied. */
module Series {
  import opened Polynomials

  /** Coefficient of y^k in Li_s(y) = Σ_{k≥1} y^k / k^s (Li_1(y) = -log(1-y)). */
  function PolylogCoeff(s: nat, k: nat): real
  {
    if k == 0 then 0.0 else 1.0 / Pow(k as real, s)
  }

  /** The first n coefficients of Li_s. */
  function PolylogSeries(s: nat, n: nat): (c: seq<real>)
    ensures |c| == n
  {
    seq(n, k requires 0 <= k < n => PolylogCoeff(s, k))
  }

  /** Coefficient of y^k in Σ_{j≥0} (-1)^j y^(2j+1) / (2j+1)^s:
      arctan for s = 1, the inverse-tangent integral Ti2 for s = 2. */
  function InverseTangentCoeff(s: nat, k: nat): real
  {
    if k % 2 == 0 then 0.0
    else if k % 4 == 1 then 1.0 / Pow(k as real, s)
    else -1.0 / Pow(k as real, s)
  }

  function InverseTangentSeries(s: nat, n: nat): (c: seq<real>)
    ensures |c| == n
  {
    seq(n, k requires 0 <= k < n => InverseTangentCoeff(s, k))
  }

  /** Coefficient of x^k in log(1 + x) = Σ_{k≥1} (-1)^(k+1) x^k / k. */
  function Log1pCoeff(k: nat): real
  {
    if k == 0 then 0.0 else if k % 2 == 1 then 1.0 / (k as real) else -1.0 / (k as real)
  }

  function Log1pSeries(n: nat): (c: seq<real>)
    ensures |c| == n
  {
    seq(n, k requires 0 <= k < n => Log1pCoeff(k))
  }
}
