/**
 * Fractional and decimal dollar notation (pfinance/conversion.py).
 *
 * In fractional notation the digits after the point count units of
 * `1 / fraction`: with fraction 4, 1.3 means 1 + 3/4. The number of digits
 * used is the length of `fraction` written out in decimal.
 */
module Conversion {
  import opened Numeric

  /**
   * `len(str(fraction))`: its decimal digits, and a sign character when it is
   * negative.
   */
  function FractionLength(fraction: int): (n: nat)
  {
    if fraction < 0 then Digits(-fraction) + 1 else Digits(fraction)
  }

  /**
   * The length tells the size of the fraction: a positive fraction of length
   * `n` lies in [10^(n-1), 10^n), so the `n` digits after the point can hold
   * any count of units below it. A negative fraction spends one character on
   * its sign, and 0 is the one character "0".
   */
  lemma FractionLengthBounds(fraction: int)
    ensures FractionLength(fraction) >= 1
    ensures fraction > 0 ==> Pow(10.0, FractionLength(fraction) - 1) <= fraction as real < Pow(10.0, FractionLength(fraction))
    ensures fraction == 0 ==> FractionLength(fraction) == 1
    ensures fraction < 0 ==> FractionLength(fraction) >= 2
    ensures fraction < 0 ==>
              Pow(10.0, FractionLength(fraction) - 2) <= -fraction as real < Pow(10.0, FractionLength(fraction) - 1)
  {
    if fraction > 0 {
      DigitsBounds(fraction);
    } else if fraction < 0 {
      DigitsBounds(-fraction);
    }
  }

  /** The fractional part of `x` as a signed real: `x - int(x)`. */
  function Mantissa(x: real): (m: real)
    ensures 0.0 <= x ==> 0.0 <= m < 1.0
    ensures x < 0.0 ==> -1.0 < m <= 0.0
  {
    x - Trunc(x) as real
  }

  /** Converts a fractional dollar into a decimal dollar; dividing by `fraction` fails when it is 0. */
  function DollarDecimal(fractionalDollar: real, fraction: int): (r: Result<real>)
    ensures r.DivisionByZero? <==> fraction == 0
  {
    var fractionLength := FractionLength(fraction);
    var integerPart := Trunc(fractionalDollar);
    var mantissaPart := (fractionalDollar - integerPart as real) * Pow(10.0, fractionLength);
    if fraction == 0 then DivisionByZero
    else Ok(integerPart as real + mantissaPart / fraction as real)
  }

  /** Converts a decimal dollar into a fractional dollar. */
  function DollarFractional(decimalDollar: real, fraction: int): real
  {
    var fractionLength := FractionLength(fraction);
    var integerPart := Trunc(decimalDollar);
    PowPositive10(fractionLength);
    var mantissaPart := (decimalDollar - integerPart as real) / Pow(10.0, fractionLength);
    integerPart as real + mantissaPart * fraction as real
  }

  /**
   * With a positive fraction `DollarFractional` keeps the whole dollars: the
   * digits written after the point stand for less than one dollar.
   */
  lemma FractionalKeepsWholeDollars(decimalDollar: real, fraction: int)
    ensures fraction > 0 ==> Trunc(DollarFractional(decimalDollar, fraction)) == Trunc(decimalDollar)
  {
    var p := Pow(10.0, FractionLength(fraction));
    PowPositive10(FractionLength(fraction));
    var i := Trunc(decimalDollar);
    KeepsWholeDollars(decimalDollar, fraction, p, i, (decimalDollar - i as real) / p);
  }

  /** The digits `DollarFractional` writes after the point stay within one dollar of the whole part. */
  lemma KeepsWholeDollars(y: real, fraction: int, p: real, i: int, q: real)
    requires p == Pow(10.0, FractionLength(fraction)) && p > 0.0
    requires i == Trunc(y) && q == (y - i as real) / p
    ensures fraction > 0 ==> Trunc(i as real + q * fraction as real) == i
  {
    if fraction > 0 {
      assert fraction as real < p by {
        FractionLengthBounds(fraction);
      }
      ScaledPartKeepsTrunc(y, i, y - i as real, p, fraction as real, q * fraction as real);
    }
  }

  /** The arithmetic of `KeepsWholeDollars`, on plain numbers. */
  lemma ScaledPartKeepsTrunc(y: real, i: int, m: real, p: real, f: real, s: real)
    requires i == Trunc(y) && m == y - i as real && 0.0 < f < p && s == m / p * f
    ensures Trunc(i as real + s) == i
  {
    if y >= 0.0 {
      assert 0.0 <= s < 1.0 by {
        ScaledBelowOne(m, p, f);
      }
      TruncWholePlusPart(i, s);
    } else {
      assert -1.0 < s <= 0.0 by {
        ScaledAboveMinusOne(m, p, f);
      }
      TruncWholeMinusPart(i, s);
    }
  }

  /** Powers of ten are positive. */
  lemma {:induction false} PowPositive10(n: nat)
    ensures Pow(10.0, n) > 0.0
  {
    if n > 0 {
      PowPositive10(n - 1);
    }
  }

  /** 1.3 with fraction 4 is 1 + 3/4. */
  lemma DollarDecimalExample()
    ensures DollarDecimal(1.3, 4) == Ok(1.75)
  {
    assert Trunc(1.3) == 1;
    assert Pow(10.0, 1) == 10.0;
  }

  /** 1.125 is 1 + 2/16, written 1.02 with fraction 16. */
  lemma DollarFractionalExample()
    ensures DollarFractional(1.125, 16) == 1.02
  {
    assert Trunc(1.125) == 1;
    assert Digits(16) == 2;
    assert Pow(10.0, 2) == 100.0;
  }

  /** A whole number of dollars reads the same in both notations. */
  lemma WholeDollars(n: int, fraction: int)
    requires fraction != 0
    ensures DollarDecimal(n as real, fraction) == Ok(n as real)
    ensures DollarFractional(n as real, fraction) == n as real
  {
    var p := Pow(10.0, FractionLength(fraction));
    PowPositive10(FractionLength(fraction));
    assert Trunc(n as real) == n;
    DollarDecimalUnfold(n as real, fraction, n, 0.0, p, n as real);
    DollarFractionalUnfold(n as real, fraction, n, 0.0, p, n as real);
  }

  /** Truncation toward zero is odd. */
  lemma TruncOdd(x: real)
    ensures Trunc(-x) == -Trunc(x)
  {
  }

  /** Both conversions are odd: negating the input negates the output. */
  lemma ConversionsOdd(x: real, fraction: int)
    requires fraction != 0
    ensures DollarDecimal(-x, fraction).value == -DollarDecimal(x, fraction).value
    ensures DollarFractional(-x, fraction) == -DollarFractional(x, fraction)
  {
    DecimalOdd(x, fraction);
    FractionalOdd(x, fraction);
  }

  lemma DecimalOdd(x: real, fraction: int)
    requires fraction != 0
    ensures DollarDecimal(-x, fraction).value == -DollarDecimal(x, fraction).value
  {
    var p := Pow(10.0, FractionLength(fraction));
    var i := Trunc(x);
    var m := x - i as real;
    PowPositive10(FractionLength(fraction));
    var d := i as real + m * p / fraction as real;
    assert DollarDecimal(x, fraction).value == d by {
      DollarDecimalUnfold(x, fraction, i, m, p, d);
    }
    assert DollarDecimal(-x, fraction).value == -d by {
      TruncOdd(x);
      NegateScaled(m, p, fraction as real);
      assert -d == (-i) as real + (-m) * p / fraction as real;
      DollarDecimalUnfold(-x, fraction, -i, -m, p, -d);
    }
  }

  lemma FractionalOdd(x: real, fraction: int)
    requires fraction != 0
    ensures DollarFractional(-x, fraction) == -DollarFractional(x, fraction)
  {
    var p := Pow(10.0, FractionLength(fraction));
    var i := Trunc(x);
    var m := x - i as real;
    PowPositive10(FractionLength(fraction));
    var r := i as real + m / p * fraction as real;
    assert DollarFractional(x, fraction) == r by {
      DollarFractionalUnfold(x, fraction, i, m, p, r);
    }
    assert DollarFractional(-x, fraction) == -r by {
      NegatedParts(x, i, m);
      NegatedFractional(i, m, p, fraction as real, r);
      DollarFractionalUnfold(-x, fraction, -i, -m, p, -r);
    }
  }

  /** The whole and fractional parts of `-x` are those of `x`, negated. */
  lemma NegatedParts(x: real, i: int, m: real)
    requires i == Trunc(x) && m == x - i as real
    ensures Trunc(-x) == -i && -x - (-i) as real == -m
  {
    TruncOdd(x);
  }

  /** Negating the parts negates the fractional-notation value, on plain numbers. */
  lemma NegatedFractional(i: int, m: real, p: real, f: real, r: real)
    requires p != 0.0 && r == i as real + m / p * f
    ensures -r == (-i) as real + (-m) / p * f
  {
    assert (-m) / p * f == -(m / p * f);
  }

  /** The algebra of `ConversionsOdd`, on plain numbers. */
  lemma NegateScaled(m: real, p: real, f: real)
    requires p != 0.0 && f != 0.0
    ensures (-m) * p / f == -(m * p / f)
    ensures (-m) / p * f == -(m / p * f)
  {
  }

  /**
   * A decimal dollar written in fractional notation reads back as the same
   * decimal dollar: the fractional part `m` becomes `m * fraction / 10^d`,
   * which stays below 1 because `fraction < 10^d`.
   */
  lemma DecimalRoundTrip(y: real, fraction: int)
    requires fraction > 0
    ensures DollarDecimal(DollarFractional(y, fraction), fraction) == Ok(y)
  {
    if y >= 0.0 {
      DecimalRoundTripNonNegative(y, fraction);
    } else {
      var w := DollarFractional(-y, fraction);
      var z := DollarFractional(y, fraction);
      assert z == -w by {
        ConversionsOdd(-y, fraction);
      }
      assert DollarDecimal(w, fraction) == Ok(-y) by {
        DecimalRoundTripNonNegative(-y, fraction);
      }
      assert DollarDecimal(z, fraction).value == y by {
        ConversionsOdd(w, fraction);
      }
    }
  }

  lemma DecimalRoundTripNonNegative(y: real, fraction: int)
    requires fraction > 0 && y >= 0.0
    ensures DollarDecimal(DollarFractional(y, fraction), fraction) == Ok(y)
  {
    var f := fraction as real;
    var p := Pow(10.0, FractionLength(fraction));
    assert p != 0.0 by {
      PowPositive10(FractionLength(fraction));
    }
    var i := Trunc(y);
    var m := y - i as real;
    var part := m / p * f;
    var z := DollarFractional(y, fraction);
    assert z == i as real + part && Trunc(z) == i by {
      DollarFractionalUnfold(y, fraction, i, m, p, i as real + part);
      FractionalKeepsWholeDollars(y, fraction);
    }
    assert part * p / f == m by {
      CancelScaling(m, p, f, part);
    }
    DollarDecimalUnfold(z, fraction, i, part, p, y);
  }

  /** `DollarDecimal` on a number whose whole and fractional parts are known. */
  lemma DollarDecimalUnfold(z: real, fraction: int, i: int, part: real, p: real, v: real)
    requires fraction != 0 && Trunc(z) == i && z - i as real == part
    requires p == Pow(10.0, FractionLength(fraction))
    requires v == i as real + part * p / fraction as real
    ensures DollarDecimal(z, fraction) == Ok(v)
  {
    var r := DollarDecimal(z, fraction);
    var scaled := (z - Trunc(z) as real) * Pow(10.0, FractionLength(fraction));
    assert r.Ok? && r.value == Trunc(z) as real + scaled / fraction as real;
    ProductOfEquals(z - Trunc(z) as real, part, Pow(10.0, FractionLength(fraction)), p);
    DecimalValueOfEquals(Trunc(z), i, scaled, part * p, fraction as real, r.value, v);
  }

  /** The last step of `DollarDecimalUnfold`, on plain numbers: equal parts give equal values. */
  lemma DecimalValueOfEquals(t: int, i: int, s: real, s': real, f: real, w: real, v: real)
    requires f != 0.0 && t == i && s == s'
    requires w == t as real + s / f && v == i as real + s' / f
    ensures w == v
  {
  }

  /** Equal factors give equal products, on plain numbers. */
  lemma ProductOfEquals(a: real, b: real, c: real, d: real)
    requires a == b && c == d
    ensures a * c == b * d
  {
  }

  /** `DollarFractional` on a number whose whole and fractional parts are known. */
  lemma DollarFractionalUnfold(z: real, fraction: int, i: int, part: real, p: real, v: real)
    requires Trunc(z) == i && z - i as real == part
    requires p == Pow(10.0, FractionLength(fraction)) && p != 0.0
    requires v == i as real + part / p * fraction as real
    ensures DollarFractional(z, fraction) == v
  {
  }

  /** With `0 <= m < 1` and `0 < f < p`, `m / p * f` lies in `[0, 1)`. */
  lemma ScaledBelowOne(m: real, p: real, f: real)
    requires 0.0 <= m < 1.0 && 0.0 < f < p
    ensures 0.0 <= m / p * f < 1.0
  {
    assert m / p * f == (m * f) / p;
    assert m * f <= f;
    BelowDivisor(m * f, p);
  }

  /** With `-1 < m <= 0` and `0 < f < p`, `m / p * f` lies in `(-1, 0]`. */
  lemma ScaledAboveMinusOne(m: real, p: real, f: real)
    requires -1.0 < m <= 0.0 && 0.0 < f < p
    ensures -1.0 < m / p * f <= 0.0
  {
    assert m / p * f == (m * f) / p;
    assert -f <= m * f;
    AboveMinusDivisor(m * f, p);
  }

  /** A quotient `a / d` with `-d < a <= 0` lies in `(-1, 0]`. */
  lemma AboveMinusDivisor(a: real, d: real)
    requires -d < a <= 0.0
    ensures -1.0 < a / d <= 0.0
  {
    var b := -a;
    BelowDivisor(b, d);
    assert a / d == -(b / d);
  }
  /** A quotient `a / d` with `0 <= a < d` lies in `[0, 1)`. */
  lemma BelowDivisor(a: real, d: real)
    requires 0.0 <= a < d
    ensures 0.0 <= a / d < 1.0
  {
    var q := a / d;
    assert q * d == a;
  }

  /** A whole number plus a part in `[0, 1)` truncates to the whole number. */
  lemma TruncWholePlusPart(i: int, s: real)
    requires 0 <= i && 0.0 <= s < 1.0
    ensures Trunc(i as real + s) == i
  {
  }

  /** A non-positive whole number plus a part in `(-1, 0]` truncates to the whole number. */
  lemma TruncWholeMinusPart(i: int, s: real)
    requires i <= 0 && -1.0 < s <= 0.0
    ensures Trunc(i as real + s) == i
  {
  }

  /** Scaling by `f / p` and back by `p / f` restores `m`. */
  lemma CancelScaling(m: real, p: real, f: real, part: real)
    requires p != 0.0 && f != 0.0 && part == m / p * f
    ensures part * p / f == m
  {
    assert part * p == m * f;
  }

  /**
   * A fractional dollar whose digits denote less than a whole dollar reads
   * back as the same fractional dollar: decimal then fractional notation is
   * the identity on well-formed inputs.
   */
  lemma FractionalRoundTrip(x: real, fraction: int)
    requires fraction > 0 && x >= 0.0
    requires DollarDecimal(x, fraction).value < Trunc(x) as real + 1.0
    ensures DollarFractional(DollarDecimal(x, fraction).value, fraction) == x
  {
    var z := DollarDecimal(x, fraction).value;
    var p := Pow(10.0, FractionLength(fraction));
    var part := Mantissa(x) * p / fraction as real;
    PowPositive10(FractionLength(fraction));
    DollarDecimalUnfold(x, fraction, Trunc(x), Mantissa(x), p, Trunc(x) as real + part);
    DecimalDigitsAlgebra(Trunc(x), Mantissa(x), p, fraction as real, part);
    DollarFractionalUnfold(z, fraction, Trunc(x), part, p, x);
  }

  /** The arithmetic of `FractionalRoundTrip`, on plain numbers. */
  lemma DecimalDigitsAlgebra(i: int, m: real, p: real, f: real, part: real)
    requires 0 <= i && 0.0 <= m && 0.0 < p && 0.0 < f && part < 1.0
    requires part == m * p / f
    ensures Trunc(i as real + part) == i
    ensures part / p * f == m
  {
    assert 0.0 <= m * p;
    assert 0.0 <= part;
    TruncWholePlusPart(i, part);
    UndoScaling(m, p, f);
  }

  /** Scaling by `p / f` and back by `f / p` restores `m`. */
  lemma UndoScaling(m: real, p: real, f: real)
    requires p != 0.0 && f != 0.0
    ensures (m * p / f) / p * f == m
  {
  }
}
