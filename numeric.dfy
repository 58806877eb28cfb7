/**
 * Exact arithmetic shared by every part of the pfinance model.
 *
 * Python floats are modelled as Dafny `real` (exact rationals). Python's
 * `ZeroDivisionError` becomes the `DivisionByZero` case of `Result`, and the
 * integer-exponent `**` becomes `Pow`.
 */
module Numeric {

  /** The value of a computation, or the ZeroDivisionError Python raises on it. */
  datatype Result<T> = Ok(value: T) | DivisionByZero

  /** `x ** n` for a non-negative integer exponent. */
  function Pow(x: real, n: nat): real
  {
    if n == 0 then 1.0 else Pow(x, n - 1) * x
  }

  lemma {:induction false} PowAdd(x: real, a: nat, b: nat)
    ensures Pow(x, a + b) == Pow(x, a) * Pow(x, b)
  {
    if b > 0 {
      PowAdd(x, a, b - 1);
      assert Pow(x, a + b) == Pow(x, a + (b - 1)) * x;
    }
  }

  lemma {:induction false} PowMul(x: real, a: nat, b: nat)
    ensures Pow(x, a * b) == Pow(Pow(x, a), b)
  {
    if b > 0 {
      var c := a * (b - 1);
      assert a * b == c + a;
      calc {
        Pow(x, a * b);
        Pow(x, c + a);
        { PowAdd(x, c, a); }
        Pow(x, c) * Pow(x, a);
        { PowMul(x, a, b - 1); }
        Pow(Pow(x, a), b - 1) * Pow(x, a);
      }
    }
  }

  lemma {:induction false} PowNonZero(x: real, n: nat)
    requires x != 0.0
    ensures Pow(x, n) != 0.0
  {
    if n > 0 {
      PowNonZero(x, n - 1);
    }
  }

  lemma {:induction false} PowOfOne(n: nat)
    ensures Pow(1.0, n) == 1.0
  {
    if n > 0 {
      PowOfOne(n - 1);
    }
  }

  lemma {:induction false} PowOfZero(n: nat)
    requires n > 0
    ensures Pow(0.0, n) == 0.0
  {
    if n > 1 {
      PowOfZero(n - 1);
    }
  }

  /** A yearly rate spread over `frequency` periods of the year: the per-period rate. */
  function PerPeriod(rate: real, frequency: int): real
    requires frequency != 0
  {
    rate / frequency as real
  }

  /** A non-zero rate has a non-zero per-period rate. */
  lemma PerPeriodNonZero(rate: real, frequency: int)
    requires rate != 0.0 && frequency != 0
    ensures PerPeriod(rate, frequency) != 0.0
  {
    QuotientNonZero(rate, frequency as real);
  }

  /** A quotient of non-zero numbers is non-zero. */
  lemma QuotientNonZero(a: real, b: real)
    requires a != 0.0 && b != 0.0
    ensures a / b != 0.0
  {
    assert a / b * b == a;
  }

  /**
   * 1 + x + x^2 + ... + x^(n-1), in Horner form: the balance of an account
   * that grows by the factor x and then receives 1, n times over.
   */
  function GeometricSum(x: real, n: nat): real
  {
    if n == 0 then 0.0 else GeometricSum(x, n - 1) * x + 1.0
  }

  /** The closed form of the geometric series: (x - 1) * (1 + ... + x^(n-1)) == x^n - 1. */
  lemma {:induction false} GeometricSumClosed(x: real, n: nat)
    ensures GeometricSum(x, n) * (x - 1.0) == Pow(x, n) - 1.0
  {
    if n > 0 {
      GeometricSumClosed(x, n - 1);
      GeometricStep(GeometricSum(x, n - 1), Pow(x, n - 1), x);
    }
  }

  /** One step of `GeometricSumClosed`, on plain numbers: adding a term keeps `g * (x - 1) == p - 1`. */
  lemma GeometricStep(g: real, p: real, x: real)
    requires g * (x - 1.0) == p - 1.0
    ensures (g * x + 1.0) * (x - 1.0) == p * x - 1.0
  {
    calc {
      (g * x + 1.0) * (x - 1.0);
      g * (x - 1.0) * x + x - 1.0;
      (p - 1.0) * x + x - 1.0;
    }
  }

  /** Sum of a list of reals, accumulated left to right as Python's `+=` loops do. */
  function Sum(s: seq<real>): real
  {
    if s == [] then 0.0 else Sum(s[..|s| - 1]) + s[|s| - 1]
  }

  lemma SumAppend(s: seq<real>, x: real)
    ensures Sum(s + [x]) == Sum(s) + x
  {
    assert (s + [x])[..|s|] == s;
  }

  /** Python's `int()` on a float: truncation toward zero. */
  function Trunc(x: real): (r: int)
    ensures 0.0 <= x ==> 0 <= r && r as real <= x < r as real + 1.0
    ensures x < 0.0 ==> r <= 0 && r as real - 1.0 < x <= r as real
  {
    if 0.0 <= x then x.Floor else -((-x).Floor)
  }

  /** Number of decimal digits of a non-negative integer: `len(str(n))`. */
  function Digits(n: nat): (d: nat)
    ensures d >= 1
  {
    if n < 10 then 1 else 1 + Digits(n / 10)
  }

  /** A number has `Digits(n)` digits exactly when it lies in [10^(d-1), 10^d). */
  lemma {:induction false} DigitsBounds(n: nat)
    ensures n as real < Pow(10.0, Digits(n))
    ensures n >= 1 ==> Pow(10.0, Digits(n) - 1) <= n as real
  {
    if n >= 10 {
      DigitsBounds(n / 10);
      var q := n / 10;
      assert n == 10 * q + n % 10;
      assert Pow(10.0, Digits(n)) == Pow(10.0, Digits(q)) * 10.0;
      assert Pow(10.0, Digits(n) - 1) == Pow(10.0, Digits(q));
      // q < 10^d with q an integer and 10^d an integer-valued real, so q + 1 <= 10^d
      IntegralPow10(Digits(q));
      var p := Pow(10.0, Digits(q)).Floor;
      assert q < p;
      assert n as real < 10.0 * (q as real + 1.0) <= 10.0 * Pow(10.0, Digits(q));
    }
  }

  /** Powers of ten are whole numbers. */
  lemma {:induction false} IntegralPow10(d: nat)
    ensures Pow(10.0, d) == Pow(10.0, d).Floor as real
  {
    if d > 0 {
      IntegralPow10(d - 1);
      var p := Pow(10.0, d - 1).Floor;
      assert Pow(10.0, d) == (p * 10) as real;
    }
  }
}
