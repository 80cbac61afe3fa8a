/** The value space of an IEEE-754 double as the special functions see it.
    A finite double is taken as the exact real it denotes; rounding and the
    sign of zero are not modelled. */
module Doubles {

  datatype Double = Finite(val: real) | PosInf | NegInf | NaN

  /** Unary minus on doubles: flips finite values and the two infinities. */
  function Negate(d: Double): (r: Double)
    ensures d.Finite? <==> r.Finite?
    ensures d.Finite? ==> r.val == -d.val
    ensures (d == NaN) <==> (r == NaN)
  {
    match d
    case Finite(v) => Finite(-v)
    case PosInf => NegInf
    case NegInf => PosInf
    case NaN => NaN
  }

  /** std::fabs on a finite value. */
  function Abs(v: real): (a: real)
    ensures a >= 0.0
    ensures a == v || a == -v
  {
    if v < 0.0 then -v else v
  }

  /** std::copysign(1.0, v) for a finite value. */
  function Sign(v: real): (s: real)
    ensures s == 1.0 || s == -1.0
    ensures s * Abs(v) == v
  {
    if v < 0.0 then -1.0 else 1.0
  }

  /** std::fma(a, b, c): a·b + c, exact here since rounding is not modelled. */
  function Fma(a: real, b: real, c: real): real
  {
    a * b + c
  }
}

/** The universal constants of the library, with the digits the source writes. */
module Constants {
  const Pi: real := 3.1415926535897932385
  const Ln2: real := 0.69314718055994530942
  const Zeta2: real := 1.6449340668482264365
  const Zeta3: real := 1.2020569031595942854
  const Catalan: real := 0.91596559417721901505
}
