/** Exact polynomial algebra behind the minimax evaluations: powers, the plain
    power sum Σ c[i]·y^i that each grouped (Estrin) evaluation in the source is
    compared with, and the identity behind the reversed-coefficient branches. */
module Polynomials {

  /** x^n for a natural exponent. */
  function Pow(x: real, n: nat): (r: real)
    ensures x > 0.0 ==> r > 0.0
    ensures x != 0.0 ==> r != 0.0
  {
    if n == 0 then 1.0 else x * Pow(x, n - 1)
  }

  /** The power sum c[0] + c[1]·y + ... + c[|c|-1]·y^(|c|-1). */
  function PowerSum(c: seq<real>, y: real): real
  {
    if |c| == 0 then 0.0 else PowerSum(c[..|c| - 1], y) + c[|c| - 1] * Pow(y, |c| - 1)
  }

  /** The coefficient sequence read from the highest degree down. */
  function Reverse(c: seq<real>): (r: seq<real>)
    ensures |r| == |c|
    ensures forall i :: 0 <= i < |c| ==> r[i] == c[|c| - 1 - i]
  {
    seq(|c|, i requires 0 <= i < |c| => c[|c| - 1 - i])
  }

  lemma {:induction false} PowAdd(x: real, a: nat, b: nat)
    ensures Pow(x, a + b) == Pow(x, a) * Pow(x, b)
  {
    if a > 0 {
      PowAdd(x, a - 1, b);
      assert Pow(x, a + b) == x * Pow(x, a - 1 + b);
    }
  }

  /** x^k · (1/x)^k == 1. */
  lemma {:induction false} PowInverse(x: real, k: nat)
    requires x != 0.0
    ensures Pow(x, k) * Pow(1.0 / x, k) == 1.0
  {
    if k > 0 {
      PowInverse(x, k - 1);
      var a, b := Pow(x, k - 1), Pow(1.0 / x, k - 1);
      assert Pow(x, k) * Pow(1.0 / x, k) == (x * (1.0 / x)) * (a * b);
    }
  }

  /** The Horner recurrence: peeling off the constant coefficient. */
  lemma {:induction false} PowerSumCons(c: seq<real>, y: real)
    requires |c| > 0
    ensures PowerSum(c, y) == c[0] + y * PowerSum(c[1..], y)
  {
    if |c| > 1 {
      var n := |c| - 1;
      PowerSumCons(c[..n], y);
      assert c[..n][1..] == c[1..][..n - 1];
      assert c[1..][n - 1] == c[n];
      var t := PowerSum(c[1..][..n - 1], y);
      assert PowerSum(c[1..], y) == t + c[n] * Pow(y, n - 1);
      assert y * PowerSum(c[1..], y) == y * t + c[n] * (y * Pow(y, n - 1));
    } else {
      assert c[1..] == [];
    }
  }

  /** PowerSumCons with the tail's value named, so that callers can chain it. */
  lemma HornerStep(c: seq<real>, y: real, tail: real)
    requires |c| > 0 && PowerSum(c[1..], y) == tail
    ensures PowerSum(c, y) == c[0] + y * tail
  {
    PowerSumCons(c, y);
  }

  lemma PowerSum1(c: seq<real>, y: real)
    requires |c| == 1
    ensures PowerSum(c, y) == c[0]
  {
    HornerStep(c, y, PowerSum(c[1..], y));
  }

  lemma PowerSum2(c: seq<real>, y: real)
    requires |c| == 2
    ensures PowerSum(c, y) == c[0] + y * c[1]
  {
    PowerSum1(c[1..], y);
    HornerStep(c, y, c[1]);
  }

  lemma PowerSum3(c: seq<real>, y: real)
    requires |c| == 3
    ensures PowerSum(c, y) == c[0] + y * (c[1] + y * c[2])
  {
    PowerSum2(c[1..], y);
    HornerStep(c, y, c[1] + y * c[2]);
  }

  lemma PowerSum4(c: seq<real>, y: real)
    requires |c| == 4
    ensures PowerSum(c, y) == c[0] + y * (c[1] + y * (c[2] + y * c[3]))
  {
    PowerSum3(c[1..], y);
    HornerStep(c, y, c[1] + y * (c[2] + y * c[3]));
  }

  lemma PowerSum5(c: seq<real>, y: real)
    requires |c| == 5
    ensures PowerSum(c, y) == c[0] + y * (c[1] + y * (c[2] + y * (c[3] + y * c[4])))
  {
    PowerSum4(c[1..], y);
    HornerStep(c, y, c[1] + y * (c[2] + y * (c[3] + y * c[4])));
  }

  lemma PowerSum6(c: seq<real>, y: real)
    requires |c| == 6
    ensures PowerSum(c, y) == c[0] + y * (c[1] + y * (c[2] + y * (c[3] + y * (c[4] + y * c[5]))))
  {
    PowerSum5(c[1..], y);
    HornerStep(c, y, c[1] + y * (c[2] + y * (c[3] + y * (c[4] + y * c[5]))));
  }

  lemma PowerSum7(c: seq<real>, y: real)
    requires |c| == 7
    ensures PowerSum(c, y)
         == c[0] + y * (c[1] + y * (c[2] + y * (c[3] + y * (c[4] + y * (c[5] + y * c[6])))))
  {
    PowerSum6(c[1..], y);
    HornerStep(c, y, c[1] + y * (c[2] + y * (c[3] + y * (c[4] + y * (c[5] + y * c[6])))));
  }

  lemma PowerSum8(c: seq<real>, y: real)
    requires |c| == 8
    ensures PowerSum(c, y)
         == c[0] + y * (c[1] + y * (c[2] + y * (c[3] + y * (c[4] + y * (c[5] + y * (c[6] + y * c[7]))))))
  {
    PowerSum7(c[1..], y);
    HornerStep(c, y, c[1] + y * (c[2] + y * (c[3] + y * (c[4] + y * (c[5] + y * (c[6] + y * c[7]))))));
  }

  lemma PowerSum9(c: seq<real>, y: real)
    requires |c| == 9
    ensures PowerSum(c, y)
         == c[0] + y * (c[1] + y * (c[2] + y * (c[3] + y * (c[4] + y * (c[5] + y * (c[6] + y * (c[7] + y * c[8])))))))
  {
    PowerSum8(c[1..], y);
    HornerStep(c, y, c[1] + y * (c[2] + y * (c[3] + y * (c[4] + y * (c[5] + y * (c[6] + y * (c[7] + y * c[8])))))));
  }

  lemma PowerSum10(c: seq<real>, y: real)
    requires |c| == 10
    ensures PowerSum(c, y)
         == c[0] + y * (c[1] + y * (c[2] + y * (c[3] + y * (c[4] + y * (c[5] + y * (c[6] + y * (c[7] + y * (c[8] + y * c[9]))))))))
  {
    PowerSum9(c[1..], y);
    HornerStep(c, y, c[1] + y * (c[2] + y * (c[3] + y * (c[4] + y * (c[5] + y * (c[6] + y * (c[7] + y * (c[8] + y * c[9]))))))));
  }

  /** Reversing c puts its first coefficient last. */
  lemma ReverseCons(c: seq<real>)
    requires |c| > 0
    ensures Reverse(c) == Reverse(c[1..]) + [c[0]]
  {
    var r, t := Reverse(c), Reverse(c[1..]) + [c[0]];
    assert |r| == |t|;
    forall i | 0 <= i < |r|
      ensures r[i] == t[i]
    {
      if i < |r| - 1 {
        assert t[i] == Reverse(c[1..])[i] == c[1..][|c| - 2 - i];
      }
    }
  }

  /** Reading the coefficients backwards evaluates y^(n-1)·p(1/y): the identity
      behind every inversion branch that reuses a table in reverse order. */
  lemma PowerSumReverse(c: seq<real>, y: real)
    requires y != 0.0 && |c| > 0
    ensures PowerSum(Reverse(c), y) == Pow(y, |c| - 1) * PowerSum(c, 1.0 / y)
  {
    ReverseByInverse(c, y, 1.0 / y);
  }

  /** PowerSumReverse for any z with y·z = 1, by induction on c. */
  lemma {:induction false} ReverseByInverse(c: seq<real>, y: real, z: real)
    requires y * z == 1.0 && |c| > 0
    ensures PowerSum(Reverse(c), y) == Pow(y, |c| - 1) * PowerSum(c, z)
  {
    ReverseSum(c, y);
    PowerSumCons(c, z);
    if |c| == 1 {
      ReverseBase(c, y, z);
    } else {
      ReverseByInverse(c[1..], y, z);
      PowSucc(y, |c| - 1, |c[1..]| - 1);
      ReverseStep(y, z, c[0], Pow(y, |c[1..]| - 1), Pow(y, |c| - 1),
                  PowerSum(Reverse(c[1..]), y), PowerSum(c[1..], z),
                  PowerSum(Reverse(c), y), PowerSum(c, z));
    }
  }

  lemma ReverseBase(c: seq<real>, y: real, z: real)
    requires |c| == 1
    ensures PowerSum(Reverse(c), y) == Pow(y, |c| - 1) * PowerSum(c, z)
  {
    ReverseSum(c, y);
    PowerSumCons(c, z);
    assert PowerSum(c[1..], z) == 0.0;
    assert PowerSum(Reverse(c[1..]), y) == 0.0;
    assert Pow(y, |c| - 1) == 1.0;
  }

  lemma ReverseSum(c: seq<real>, y: real)
    requires |c| > 0
    ensures PowerSum(Reverse(c), y) == PowerSum(Reverse(c[1..]), y) + c[0] * Pow(y, |c| - 1)
  {
    ReverseCons(c);
    PowerSumSnoc(Reverse(c[1..]), c[0], y, |c| - 1);
  }

  /** Appending a coefficient adds its term of the next degree. */
  lemma PowerSumSnoc(s: seq<real>, a: real, y: real, k: nat)
    requires k == |s|
    ensures PowerSum(s + [a], y) == PowerSum(s, y) + a * Pow(y, k)
  {
    assert (s + [a])[..|s|] == s;
  }

  lemma PowSucc(y: real, k: nat, j: nat)
    requires k == j + 1
    ensures Pow(y, k) == y * Pow(y, j)
  {
  }

  /** The algebra of the inductive step, over atoms. */
  lemma ReverseStep(y: real, z: real, a: real, p: real, q: real, r: real, s: real, lhs: real, t: real)
    ensures y * z == 1.0 && r == p * s && q == y * p && lhs == r + a * q && t == a + z * s
            ==> lhs == q * t
  {
    if y * z == 1.0 && r == p * s && q == y * p {
      assert q * (z * s) == (y * z) * (p * s);
    }
  }
}
