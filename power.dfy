/** The integer-exponent powers of pow.hpp: the compile-time recursion
    pow<N>, the wrapping integer loop ipow, the runtime loop pow_small_int
    and the runtime dispatch pow(x, n) with its cutoff. Floating values are
    exact reals; std::pow is a parameter. */
module Power {
  import opened Doubles
  import opened Polynomials

  newtype int32 = v: int | -0x8000_0000 <= v < 0x8000_0000
  newtype int64 = v: int | -0x8000_0000_0000_0000 <= v < 0x8000_0000_0000_0000
  newtype uint32 = v: int | 0 <= v < 0x1_0000_0000

  datatype Option<T> = None | Some(value: T)

  /** Beyond this |n| the runtime pow defers to std::pow. */
  const PowStdPowCutoff: int32 := 64

  /** x^n for an integer exponent: 1/x^(-n) when n is negative. */
  function IntPow(x: real, n: int): real
    requires n >= 0 || x != 0.0
  {
    if n >= 0 then Pow(x, n) else 1.0 / Pow(x, -n)
  }

  /** x^n as a double: division by an exact zero gives +∞. */
  function ExactPow(x: real, n: int): Double
  {
    if n < 0 && x == 0.0 then PosInf else Finite(IntPow(x, n))
  }

  /** x^n over the integers. */
  function ZPow(x: int, n: nat): int
  {
    if n == 0 then 1 else x * ZPow(x, n - 1)
  }

  // ---------------------------------------------------------------------
  // pow<N>
  // ---------------------------------------------------------------------

  lemma {:induction false} PowSquare(x: real, k: nat)
    ensures Pow(x, k) * Pow(x, k) == Pow(x, 2 * k)
  {
    PowAdd(x, k, k);
  }

  /** Peeling the factor 1/x off 1/x^(m+1). */
  lemma ReciprocalStep(x: real, m: nat)
    requires x != 0.0
    ensures (1.0 / x) * (1.0 / Pow(x, m)) == 1.0 / Pow(x, m + 1)
  {
    assert Pow(x, m + 1) == x * Pow(x, m);
  }

  /** Squaring 1/x^k. */
  lemma ReciprocalSquare(x: real, k: nat)
    requires x != 0.0
    ensures (1.0 / Pow(x, k)) * (1.0 / Pow(x, k)) == 1.0 / Pow(x, 2 * k)
  {
    PowSquare(x, k);
  }

  /** pow<N>(x) with the even negative case corrected to square the
      already reciprocal half power. */
  function PowN(N: int, x: real): (r: real)
    requires N >= 0 || x != 0.0
    ensures r == IntPow(x, N)
    decreases if N >= 0 then N else -N
  {
    if N == 0 then 1.0
    else if N % 2 == 0 then
      var y := PowN(N / 2, x);
      EvenStep(N, x, y);
      y * y
    else if N > 0 then
      var y := PowN(N - 1, x);
      OddStep(N, x, y);
      x * y
    else
      var y := PowN(N + 1, x);
      IntPowReciprocalStep(x, N + 1);
      (1.0 / x) * y
  }

  /** Squaring x^(N/2) gives x^N for every even N. */
  lemma EvenStep(N: int, x: real, y: real)
    requires N % 2 == 0 && (N >= 0 || x != 0.0) && y == IntPow(x, N / 2)
    ensures y * y == IntPow(x, N)
  {
    IntPowSquare(x, N / 2);
  }

  /** Multiplying x^(N-1) by x gives x^N for every positive N. */
  lemma OddStep(N: int, x: real, y: real)
    requires N > 0 && y == IntPow(x, N - 1)
    ensures x * y == IntPow(x, N)
  {
    PowSucc(x, N, N - 1);
  }

  /** The exponent the source's recursion actually computes: e(N) = N on
      N ≥ 0, but each even negative step negates the already negative
      exponent of its half. */
  function AsWrittenExponent(N: int): (e: int)
    ensures N >= 0 ==> e == N
    decreases if N >= 0 then N else -N
  {
    if N == 0 then 0
    else if N > 0 then
      if N % 2 == 0 then 2 * AsWrittenExponent(N / 2) else 1 + AsWrittenExponent(N - 1)
    else
      if N % 2 == 0 then -2 * AsWrittenExponent(N / 2) else AsWrittenExponent(N + 1) - 1
  }

  /** Squaring x^e doubles the integer exponent. */
  lemma IntPowSquare(x: real, e: int)
    requires e >= 0 || x != 0.0
    ensures IntPow(x, e) * IntPow(x, e) == IntPow(x, 2 * e)
  {
    if e >= 0 {
      PowSquare(x, e);
    } else {
      ReciprocalSquare(x, -e);
    }
  }

  /** Inverting x^k negates the integer exponent. */
  lemma IntPowInverse(x: real, k: int)
    requires x != 0.0
    ensures IntPow(x, k) != 0.0 && 1.0 / IntPow(x, k) == IntPow(x, -k)
  {
    if k < 0 {
      var p := Pow(x, -k);
      assert p != 0.0;
      assert 1.0 / (1.0 / p) == p;
    }
  }

  /** Multiplying x^e by 1/x lowers the integer exponent by one. */
  lemma IntPowReciprocalStep(x: real, e: int)
    requires x != 0.0
    ensures (1.0 / x) * IntPow(x, e) == IntPow(x, e - 1)
  {
    if e > 0 {
      var p := Pow(x, e - 1);
      assert Pow(x, e) == x * p;
      assert (1.0 / x) * (x * p) == p;
    } else {
      ReciprocalStep(x, -e);
    }
  }

  /** The value of each step of the source's recursion, given the value
      of the recursive call. */
  lemma EvenPositiveStep(N: int, x: real, y: real)
    requires N > 0 && N % 2 == 0 && y == IntPow(x, AsWrittenExponent(N / 2))
    ensures y * y == IntPow(x, AsWrittenExponent(N))
  {
    EvenPositiveExponent(N);
    SquareOfPower(x, AsWrittenExponent(N / 2), AsWrittenExponent(N), y);
  }

  /** The as-written exponent of an even positive N is twice that of N/2. */
  lemma EvenPositiveExponent(N: int)
    requires N > 0 && N % 2 == 0
    ensures AsWrittenExponent(N) == 2 * AsWrittenExponent(N / 2)
  {
  }

  /** The square of y = x^e is x^d for d = 2e. */
  lemma SquareOfPower(x: real, e: int, d: int, y: real)
    requires (e >= 0 || x != 0.0) && d == 2 * e && y == IntPow(x, e)
    ensures y * y == IntPow(x, d)
  {
    IntPowSquare(x, e);
  }

  /** The reciprocal of the square of y = x^e is x^m for m = -2e. */
  lemma InverseSquareOfPower(x: real, e: int, m: int, y: real)
    requires x != 0.0 && m == -(2 * e) && y == IntPow(x, e)
    ensures y * y != 0.0 && 1.0 / (y * y) == IntPow(x, m)
  {
    IntPowSquare(x, e);
    IntPowInverse(x, 2 * e);
  }

  lemma OddPositiveStep(N: int, x: real, y: real)
    requires N > 0 && N % 2 == 1 && y == IntPow(x, AsWrittenExponent(N - 1))
    ensures x * y == IntPow(x, AsWrittenExponent(N))
  {
    OddStep(N, x, y);
  }

  lemma EvenNegativeStep(N: int, x: real, y: real)
    requires N < 0 && N % 2 == 0 && x != 0.0
    requires y == IntPow(x, AsWrittenExponent(N / 2))
    ensures y * y != 0.0 && 1.0 / (y * y) == IntPow(x, AsWrittenExponent(N))
  {
    EvenNegativeExponent(N);
    InverseSquareOfPower(x, AsWrittenExponent(N / 2), AsWrittenExponent(N), y);
  }

  /** The as-written exponent of an even negative N is minus twice that of N/2. */
  lemma EvenNegativeExponent(N: int)
    requires N < 0 && N % 2 == 0
    ensures AsWrittenExponent(N) == -(2 * AsWrittenExponent(N / 2))
  {
  }

  lemma OddNegativeStep(N: int, x: real, y: real)
    requires N < 0 && N % 2 == 1 && x != 0.0
    requires y == IntPow(x, AsWrittenExponent(N + 1))
    ensures (1.0 / x) * y == IntPow(x, AsWrittenExponent(N))
  {
    var e := AsWrittenExponent(N + 1);
    assert AsWrittenExponent(N) == e - 1;
    IntPowReciprocalStep(x, e);
  }

  /** pow<N>(x) as the source writes it: the even negative case inverts
      the square of a half power that is already a reciprocal. Its value
      is x raised to AsWrittenExponent(N). */
  function PowNAsWritten(N: int, x: real): (r: real)
    requires N >= 0 || x != 0.0
    ensures r == IntPow(x, AsWrittenExponent(N))
    decreases if N >= 0 then N else -N
  {
    if N == 0 then 1.0
    else if N > 0 then
      if N % 2 == 0 then
        var y := PowNAsWritten(N / 2, x);
        EvenPositiveStep(N, x, y);
        y * y
      else
        var y := PowNAsWritten(N - 1, x);
        OddPositiveStep(N, x, y);
        x * y
    else
      if N % 2 == 0 then
        var y := PowNAsWritten(N / 2, x);
        EvenNegativeStep(N, x, y);
        1.0 / (y * y)
      else
        var y := PowNAsWritten(N + 1, x);
        OddNegativeStep(N, x, y);
        (1.0 / x) * y
  }

  /** pow<0>(x) is 1 for every x. */
  lemma PowNZero(x: real)
    ensures PowN(0, x) == 1.0 && PowNAsWritten(0, x) == 1.0
  {
  }

  /** As written, pow<-2>(x) is x², not 1/x²: pow<-2>(2) is 4 where 1/4 is
      meant. */
  lemma AsWrittenMinusTwo(x: real)
    requires x != 0.0
    ensures PowNAsWritten(-2, x) == x * x
    ensures PowN(-2, x) == 1.0 / (x * x)
  {
    assert AsWrittenExponent(-1) == -1;
    assert AsWrittenExponent(-2) == 2;
    assert Pow(x, 1) == x;
    assert Pow(x, 2) == x * x;
  }

  // ---------------------------------------------------------------------
  // Congruences modulo m, for the wrapping loop
  // ---------------------------------------------------------------------

  /** The remainder is determined by any decomposition z = m·q + r. */
  lemma ModUnique(z: int, q: int, r: int, m: int)
    requires m > 0 && 0 <= r < m && z == m * q + r
    ensures z % m == r
  {
    var q', r' := z / m, z % m;
    assert z == m * q' + r';
    var d := q - q';
    assert m * d == m * q - m * q';
    assert m * d == r' - r;
    if d >= 1 {
      AtLeastModulus(m, d);
    } else if d <= -1 {
      AtMostNegatedModulus(m, d);
    }
  }

  lemma AtLeastModulus(m: int, d: int)
    requires m > 0 && d >= 1
    ensures m * d >= m
  {
    assert m * d == m + m * (d - 1);
  }

  lemma AtMostNegatedModulus(m: int, d: int)
    requires m > 0 && d <= -1
    ensures m * d <= -m
  {
    assert m * d == -m + m * (d + 1);
  }

  /** The remainder of a product depends only on the factors' remainders. */
  lemma MulMod(a: int, c: int, m: int)
    requires m > 0
    ensures (a * c) % m == ((a % m) * (c % m)) % m
  {
    var qa, ra := a / m, a % m;
    var qc, rc := c / m, c % m;
    var u := ra * rc;
    assert a * c == m * (qa * c + ra * qc) + u by {
      assert a == m * qa + ra && c == m * qc + rc;
    }
    ModUnique(u, u / m, u % m, m);
    ModUnique(a * c, qa * c + ra * qc + u / m, u % m, m);
  }

  /** Products of congruent factors are congruent. */
  lemma CongMul(a: int, a': int, c: int, c': int, m: int)
    requires m > 0 && a % m == a' % m && c % m == c' % m
    ensures (a * c) % m == (a' * c') % m
  {
    MulMod(a, c, m);
    MulMod(a', c', m);
  }

  lemma ModIdempotent(a: int, m: int)
    requires m > 0
    ensures (a % m) % m == a % m
  {
    ModUnique(a % m, 0, a % m, m);
  }

  /** Reducing the base first does not change the power modulo m. */
  lemma {:induction false} ZPowMod(b: int, q: nat, m: int)
    requires m > 0
    ensures ZPow(b % m, q) % m == ZPow(b, q) % m
  {
    if q > 0 {
      ZPowMod(b, q - 1, m);
      ModIdempotent(b, m);
      CongMul(b % m, b, ZPow(b % m, q - 1), ZPow(b, q - 1), m);
    }
  }

  lemma {:induction false} ZPowAdd(b: int, i: nat, j: nat)
    ensures ZPow(b, i + j) == ZPow(b, i) * ZPow(b, j)
  {
    if i > 0 {
      ZPowAdd(b, i - 1, j);
      assert ZPow(b, i + j) == b * ZPow(b, i - 1 + j);
    }
  }

  lemma {:induction false} ZPowSquare(b: int, q: nat)
    ensures ZPow(b * b, q) == ZPow(b, 2 * q)
  {
    if q > 0 {
      var j: nat := 2 * (q - 1);
      ZPowSquare(b, q - 1);
      var p := ZPow(b * b, q - 1);
      assert p == ZPow(b, j);
      ZPowAdd(b, 2, j);
      assert ZPow(b, 1) == b * ZPow(b, 0);
      assert ZPow(b, 2) == b * ZPow(b, 1);
      assert 2 + j == 2 * q;
      assert ZPow(b * b, q) == (b * b) * p;
    }
  }

  /** One iteration of the wrapping loop keeps res·x^n fixed modulo m. */
  lemma IPowStep(res: int, b: int, k: nat, m: int)
    requires m > 0
    ensures ((if k % 2 == 1 then (res * b) % m else res) * ZPow((b * b) % m, k / 2)) % m
         == (res * ZPow(b, k)) % m
  {
    var q, t := k / 2, k % 2;
    var head := if t == 1 then (res * b) % m else res;
    ZPowAdd(b, t, 2 * q);
    ZPowSquare(b, q);
    assert ZPow(b, k) == ZPow(b, t) * ZPow(b * b, q);
    assert head % m == (res * ZPow(b, t)) % m by {
      if t == 1 {
        ModIdempotent(res * b, m);
        assert ZPow(b, t) == b;
      }
    }
    ZPowMod(b * b, q, m);
    CongMul(head, res * ZPow(b, t), ZPow((b * b) % m, q), ZPow(b * b, q), m);
    assert res * ZPow(b, t) * ZPow(b * b, q) == res * ZPow(b, k);
  }

  // ---------------------------------------------------------------------
  // ipow
  // ---------------------------------------------------------------------

  /** ipow(x, n) for an unsigned T with m values: binary exponentiation in
      which every product wraps modulo m. */
  method IPow(x: int, n: uint32, m: int) returns (r: int)
    requires m > 1
    requires 0 <= x < m
    ensures 0 <= r < m
    ensures r == ZPow(x, n as nat) % m
  {
    var res := 1;
    var b := x;
    var k := n;
    while k != 0
      invariant 0 <= res < m && 0 <= b < m
      invariant (res * ZPow(b, k as nat)) % m == ZPow(x, n as nat) % m
      decreases k
    {
      IPowStep(res, b, k as nat, m);
      if k % 2 == 1 {
        res := (res * b) % m;
      }
      b := (b * b) % m;
      k := k / 2;
    }
    ModUnique(res, 0, res, m);
    r := res;
  }

  // ---------------------------------------------------------------------
  // pow_small_int and the runtime pow
  // ---------------------------------------------------------------------

  /** |n| computed in a 64-bit integer and then narrowed to unsigned: the
      intermediate always fits, even for the most negative int32. */
  function Magnitude(n: int32): (u: uint32)
    ensures u as int == Abs(n as real).Floor
    ensures n != 0 ==> u != 0
  {
    var wide: int64 := if n < 0 then -(n as int64) else n as int64;
    wide as uint32
  }

  /** One iteration of the floating loop keeps res·x^uu fixed. */
  lemma PowStep(b: real, k: nat)
    ensures Pow(b, k) == Pow(b, k % 2) * Pow(b * b, k / 2)
  {
    PowAdd(b, k % 2, 2 * (k / 2));
    PowSquareBase(b, k / 2);
  }

  lemma {:induction false} PowSquareBase(b: real, q: nat)
    ensures Pow(b * b, q) == Pow(b, 2 * q)
  {
    if q > 0 {
      PowSquareBase(b, q - 1);
      PowSucc(b * b, q, q - 1);
      PowSucc(b, 2 * q, 2 * q - 1);
      PowSucc(b, 2 * q - 1, 2 * (q - 1));
      SquareStep(b, Pow(b * b, q), Pow(b * b, q - 1), Pow(b, 2 * q), Pow(b, 2 * q - 1), Pow(b, 2 * (q - 1)));
    }
  }

  /** The algebra of PowSquareBase's step, over atoms. */
  lemma SquareStep(b: real, a: real, a': real, c: real, d: real, e: real)
    ensures a == (b * b) * a' && a' == e && c == b * d && d == b * e ==> a == c
  {
  }

  /** A positive power vanishes exactly at a zero base. */
  lemma PowZero(x: real, k: nat)
    requires k > 0
    ensures Pow(x, k) == 0.0 <==> x == 0.0
  {
  }

  /** detail::pow_small_int(x, n). */
  method PowSmallInt(x: real, n: int32) returns (r: Double)
    ensures r == ExactPow(x, n as int)
  {
    if n == 0 {
      return Finite(1.0);
    }
    var neg := n < 0;
    var uu := Magnitude(n);
    var res := 1.0;
    var b := x;
    ghost var total := uu as nat;
    while uu != 0
      invariant res * Pow(b, uu as nat) == Pow(x, total)
      decreases uu
    {
      PowStep(b, uu as nat);
      if uu % 2 == 1 {
        res := res * b;
      }
      b := b * b;
      uu := uu / 2;
    }
    PowZero(x, total);
    if neg {
      if res == 0.0 {
        r := PosInf;
      } else {
        r := Finite(1.0 / res);
      }
    } else {
      r := Finite(res);
    }
  }

  /** Whether the runtime pow uses the loop for exponent n. */
  predicate InCutoff(n: int32)
  {
    -PowStdPowCutoff <= n <= PowStdPowCutoff
  }

  /** The runtime pow(x, n) for a floating T. */
  method RuntimePow(x: real, n: int32, stdPow: (real, real) -> Double) returns (r: Double)
    ensures InCutoff(n) ==> r == ExactPow(x, n as int)
    ensures !InCutoff(n) ==> r == stdPow(x, n as real)
  {
    if -PowStdPowCutoff <= n && n <= PowStdPowCutoff {
      r := PowSmallInt(x, n);
    } else {
      r := stdPow(x, n as real);
    }
  }

  /** static_cast of a double to an integer type: truncation toward zero,
      undefined for a non-finite value. */
  function Truncate(d: Double): (r: Option<int>)
    ensures r.Some? <==> d.Finite?
    ensures r.Some? ==> Abs(r.value as real) <= Abs(d.val) < Abs(r.value as real) + 1.0
    ensures r.Some? ==> (r.value as real) * d.val >= 0.0
  {
    match d
    case Finite(v) => Some(if v >= 0.0 then v.Floor else -((-v).Floor))
    case _ => None
  }

  /** The runtime pow(x, n) for an integral T: promoted to a floating value,
      raised, and truncated back. */
  method RuntimePowIntegral(x: int, n: int32, stdPow: (real, real) -> Double) returns (r: Option<int>)
    ensures InCutoff(n) ==> r == Truncate(ExactPow(x as real, n as int))
    ensures !InCutoff(n) ==> r == Truncate(stdPow(x as real, n as real))
  {
    var xf := x as real;
    if -PowStdPowCutoff <= n && n <= PowStdPowCutoff {
      var d := PowSmallInt(xf, n);
      r := Truncate(d);
    } else {
      r := Truncate(stdPow(xf, n as real));
    }
  }

  lemma {:induction false} PowOfInt(x: int, k: nat)
    ensures Pow(x as real, k) == ZPow(x, k) as real
  {
    if k > 0 {
      PowOfInt(x, k - 1);
    }
  }

  /** ZPow grows with the base: |x| ≥ 2 makes every positive power at least 2 in size. */
  lemma {:induction false} ZPowLarge(x: int, k: nat)
    requires k > 0 && (x >= 2 || x <= -2)
    ensures ZPow(x, k) >= 2 || ZPow(x, k) <= -2
  {
    if k > 1 {
      ZPowLarge(x, k - 1);
      var p := ZPow(x, k - 1);
      if x >= 2 && p >= 2 {
        assert x * p >= 2 * 2;
      } else if x >= 2 {
        assert x * p <= 2 * -2;
      } else if p >= 2 {
        assert x * p <= -2 * 2;
      } else {
        assert x * p >= -2 * -2;
      }
    }
  }

  /** What the loop route gives an integral base: the exact power for n ≥ 0,
      ±1 for a unit base, 0 for any other non-zero base with n < 0, and no
      defined value for 0 with n < 0. */
  lemma IntegralPowValues(x: int, n: int)
    ensures n >= 0 ==> Truncate(ExactPow(x as real, n)) == Some(ZPow(x, n))
    ensures n < 0 && x == 0 ==> Truncate(ExactPow(x as real, n)) == None
    ensures n < 0 && (x == 1 || x == -1) ==> Truncate(ExactPow(x as real, n)) == Some(ZPow(x, -n))
    ensures n < 0 && (x >= 2 || x <= -2) ==> Truncate(ExactPow(x as real, n)) == Some(0)
  {
    if n >= 0 {
      PowOfInt(x, n);
    } else if x == 1 || x == -1 {
      UnitNegativePow(x, n);
    } else if x != 0 {
      NegativePowTruncates(x, n);
    }
  }

  /** A unit base raised to a negative power is its own reciprocal power. */
  lemma UnitNegativePow(x: int, n: int)
    requires n < 0 && (x == 1 || x == -1)
    ensures Truncate(ExactPow(x as real, n)) == Some(ZPow(x, -n))
  {
    PowOfInt(x, -n);
    UnitPow(x, -n);
  }

  /** A base of size at least 2 raised to a negative power truncates to 0. */
  lemma NegativePowTruncates(x: int, n: int)
    requires n < 0 && (x >= 2 || x <= -2)
    ensures Truncate(ExactPow(x as real, n)) == Some(0)
  {
    PowOfInt(x, -n);
    ZPowLarge(x, -n);
    var q := 1.0 / (ZPow(x, -n) as real);
    assert -1.0 < q < 1.0;
  }

  lemma {:induction false} UnitPow(x: int, k: nat)
    requires x == 1 || x == -1
    ensures ZPow(x, k) == 1 || ZPow(x, k) == -1
    ensures 1.0 / (ZPow(x, k) as real) == ZPow(x, k) as real
  {
    if k > 0 {
      UnitPow(x, k - 1);
    }
  }
}
