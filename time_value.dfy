/**
 * Time value of money: annuities, present value, discounted cash flows,
 * the modified internal rate of return and variable-rate growth
 * (pfinance/time_value.py).
 */
module TimeValue {
  import opened Numeric
  import General

  /** Python's `None` next to a value. */
  datatype Option<T> = None | Some(value: T)

  /**
   * Value after `periods` periods of regular payments of `payment` with
   * interest compounded `compoundingFrequency` times a period; with
   * `startOfPeriod` every payment earns one more compounding.
   */
  function FutureValueSeries(payment: real, interestRate: real, periods: nat, compoundingFrequency: nat, startOfPeriod: bool)
    : (r: Result<real>)
    ensures interestRate == 0.0 ==> r == Ok(payment * periods as real)
    ensures r.DivisionByZero? <==> interestRate != 0.0 && compoundingFrequency == 0
  {
    if interestRate == 0.0 then Ok(payment * periods as real)
    else if compoundingFrequency == 0 then DivisionByZero
    else
      var effectiveRate := PerPeriod(interestRate, compoundingFrequency);
      var totalPeriods := periods * compoundingFrequency;
      var startModifier := if startOfPeriod then 1.0 + effectiveRate else 1.0;
      Ok(SeriesValue(payment, startModifier, Pow(1.0 + effectiveRate, totalPeriods), effectiveRate))
  }

  /** The annuity formula: `payment * modifier * (growth - 1) / e`. */
  function SeriesValue(payment: real, modifier: real, growth: real, e: real): real
    requires e != 0.0
  {
    payment * modifier * (growth - 1.0) / e
  }

  /**
   * At a non-zero rate the end-of-period series is the balance of an account
   * that grows by `1 + e` and then receives `payment`, once in each of the
   * `n` compounding periods; a start-of-period series is that balance grown
   * once more.
   */
  lemma FutureValueSeriesIsAnnuity(payment: real, interestRate: real, periods: nat, compoundingFrequency: nat, e: real, n: nat)
    requires interestRate != 0.0 && compoundingFrequency > 0
    requires e == PerPeriod(interestRate, compoundingFrequency) && n == periods * compoundingFrequency
    ensures FutureValueSeries(payment, interestRate, periods, compoundingFrequency, false).value
         == payment * GeometricSum(1.0 + e, n)
    ensures FutureValueSeries(payment, interestRate, periods, compoundingFrequency, true).value
         == payment * GeometricSum(1.0 + e, n) * (1.0 + e)
  {
    PerPeriodNonZero(interestRate, compoundingFrequency);
    SeriesValueIsGeometric(payment, 1.0, e, n);
    SeriesValueIsGeometric(payment, 1.0 + e, e, n);
  }

  /** The annuity formula is `payment` times the geometric sum, times the modifier. */
  lemma SeriesValueIsGeometric(payment: real, modifier: real, e: real, n: nat)
    requires e != 0.0
    ensures SeriesValue(payment, modifier, Pow(1.0 + e, n), e) == payment * GeometricSum(1.0 + e, n) * modifier
    ensures SeriesValue(payment, 1.0, Pow(1.0 + e, n), e) == payment * GeometricSum(1.0 + e, n)
  {
    GeometricSumClosed(1.0 + e, n);
    DivideGrowth(payment, modifier, e, Pow(1.0 + e, n), GeometricSum(1.0 + e, n));
  }

  /** The algebra behind `SeriesValueIsGeometric`, on plain numbers. */
  lemma DivideGrowth(payment: real, modifier: real, e: real, growth: real, g: real)
    requires e != 0.0 && g * (1.0 + e - 1.0) == growth - 1.0
    ensures SeriesValue(payment, modifier, growth, e) == payment * g * modifier
  {
    assert growth - 1.0 == g * e;
  }

  /** A start-of-period series is the end-of-period series grown by one compounding period. */
  lemma FutureValueSeriesStart(payment: real, interestRate: real, periods: nat, compoundingFrequency: nat)
    requires compoundingFrequency > 0
    ensures FutureValueSeries(payment, interestRate, periods, compoundingFrequency, true).value
         == FutureValueSeries(payment, interestRate, periods, compoundingFrequency, false).value
            * (1.0 + PerPeriod(interestRate, compoundingFrequency))
  {
    if interestRate != 0.0 {
      FutureValueSeriesIsAnnuity(payment, interestRate, periods, compoundingFrequency,
                                 PerPeriod(interestRate, compoundingFrequency), periods * compoundingFrequency);
    } else {
      assert PerPeriod(interestRate, compoundingFrequency) == 0.0;
    }
  }

  /**
   * Present value of `periods` payments of `payment` and a final amount
   * `futureValue`, with the sign convention of a loan (money received is
   * negative). Fails when the discount factor `(1 + rate)^periods` is 0.
   */
  function PresentValue(payment: real, interestRate: real, periods: nat, futureValue: real, startOfPeriod: bool)
    : (r: Result<real>)
    ensures interestRate == 0.0 ==> r == Ok(-payment * periods as real - futureValue)
    ensures r.DivisionByZero? <==> interestRate != 0.0 && Pow(1.0 + interestRate, periods) == 0.0
  {
    if interestRate == 0.0 then Ok(-1.0 * payment * periods as real - futureValue)
    else
      var pvType := if startOfPeriod then 1.0 else 0.0;
      var numerator := SeriesValue(payment, 1.0 + interestRate * pvType, Pow(1.0 + interestRate, periods), interestRate)
                       + futureValue;
      var denominator := Pow(1.0 + interestRate, periods);
      if denominator == 0.0 then DivisionByZero
      else Ok(-1.0 * numerator / denominator)
  }

  /** The discount factor vanishes only for a rate of -100% and a non-zero number of periods. */
  lemma PresentValueFails(payment: real, interestRate: real, periods: nat, futureValue: real, startOfPeriod: bool)
    ensures PresentValue(payment, interestRate, periods, futureValue, startOfPeriod).DivisionByZero?
        <==> interestRate == -1.0 && periods > 0
  {
    if 1.0 + interestRate != 0.0 {
      PowNonZero(1.0 + interestRate, periods);
    } else if periods > 0 {
      PowOfZero(periods);
    }
  }

  /**
   * Present and future value agree: the present value grown over the term,
   * plus the future value of the payments and of `futureValue`, is 0.
   */
  lemma PresentValueGrowsToFutureValue(payment: real, interestRate: real, periods: nat, futureValue: real, startOfPeriod: bool)
    requires 1.0 + interestRate != 0.0
    ensures PresentValue(payment, interestRate, periods, futureValue, startOfPeriod).Ok?
    ensures PresentValue(payment, interestRate, periods, futureValue, startOfPeriod).value
            * Pow(1.0 + interestRate, periods)
         == -(FutureValueSeries(payment, interestRate, periods, 1, startOfPeriod).value + futureValue)
  {
    PowNonZero(1.0 + interestRate, periods);
    var growth := Pow(1.0 + interestRate, periods);
    if interestRate != 0.0 {
      var modifier := if startOfPeriod then 1.0 + interestRate else 1.0;
      assert PerPeriod(interestRate, 1) == interestRate;
      assert periods * 1 == periods;
      assert FutureValueSeries(payment, interestRate, periods, 1, startOfPeriod).value
          == SeriesValue(payment, modifier, growth, interestRate);
      assert 1.0 + interestRate * (if startOfPeriod then 1.0 else 0.0) == modifier;
      assert PresentValue(payment, interestRate, periods, futureValue, startOfPeriod).value
          == -1.0 * (SeriesValue(payment, modifier, growth, interestRate) + futureValue) / growth;
      GrowDiscounted(SeriesValue(payment, modifier, growth, interestRate) + futureValue, growth);
    } else {
      PowOfOne(periods);
    }
  }

  /** Dividing by a non-zero factor and multiplying back, on plain numbers. */
  lemma GrowDiscounted(numerator: real, denominator: real)
    requires denominator != 0.0
    ensures -1.0 * numerator / denominator * denominator == -numerator
  {
  }

  /** `x / (1 + rate)^n`: `x` received `n` periods from now, discounted to today. */
  function Discount(x: real, rate: real, n: nat): real
    requires 1.0 + rate != 0.0
  {
    PowNonZero(1.0 + rate, n);
    x / Pow(1.0 + rate, n)
  }

  /** Sum of the cash flows, the i-th (from 0) discounted over `i + 1` periods. */
  function Dcf(cashFlows: seq<real>, rate: real): real
    requires cashFlows == [] || 1.0 + rate != 0.0
  {
    if cashFlows == [] then 0.0
    else Dcf(cashFlows[..|cashFlows| - 1], rate) + Discount(cashFlows[|cashFlows| - 1], rate, |cashFlows|)
  }

  /** Without a discount rate the discounted cash flow is the plain sum. */
  lemma {:induction false} DcfAtZeroRate(cashFlows: seq<real>)
    ensures Dcf(cashFlows, 0.0) == Sum(cashFlows)
  {
    if cashFlows != [] {
      DcfAtZeroRate(cashFlows[..|cashFlows| - 1]);
      PowOfOne(|cashFlows|);
    }
  }

  /** Discounted cash flow, accumulated over the list; fails when a discount factor is 0. */
  method DiscountedCashFlow(cashFlows: seq<real>, discountRate: real) returns (r: Result<real>)
    ensures r.DivisionByZero? <==> cashFlows != [] && 1.0 + discountRate == 0.0
    ensures r.Ok? ==> r.value == Dcf(cashFlows, discountRate)
  {
    var dcf := 0.0;
    for i := 0 to |cashFlows|
      invariant i > 0 ==> 1.0 + discountRate != 0.0
      invariant dcf == Dcf(cashFlows[..i], discountRate)
    {
      var factor := Pow(1.0 + discountRate, i + 1);
      if 1.0 + discountRate != 0.0 {
        PowNonZero(1.0 + discountRate, i + 1);
      } else {
        PowOfZero(i + 1);
      }
      if factor == 0.0 {
        return DivisionByZero;
      }
      assert cashFlows[..i + 1][..i] == cashFlows[..i];
      dcf := dcf + cashFlows[i] / factor;
    }
    assert cashFlows[..|cashFlows|] == cashFlows;
    r := Ok(dcf);
  }

  /** The part of a cash flow that is money paid out (negative), else 0. */
  function NegativePart(x: real): real
  {
    if x < 0.0 then x else 0.0
  }

  /** The part of a cash flow that is money received (positive), else 0. */
  function PositivePart(x: real): real
  {
    if x > 0.0 then x else 0.0
  }

  /** Every cash flow splits into its paid-out and its received part. */
  lemma PartsSplit(x: real)
    ensures NegativePart(x) + PositivePart(x) == x
    ensures NegativePart(x) <= 0.0 <= PositivePart(x)
    ensures NegativePart(x) == 0.0 || PositivePart(x) == 0.0
  {
  }

  /**
   * The paid-out parts of a list of cash flows, position by position: a
   * negative flow is kept in place and every other position holds 0.
   */
  function Negatives(cashFlows: seq<real>): (s: seq<real>)
    ensures |s| == |cashFlows|
    ensures forall i :: 0 <= i < |s| ==> s[i] <= 0.0 && (s[i] != 0.0 <==> cashFlows[i] < 0.0)
    ensures forall i :: 0 <= i < |s| && s[i] != 0.0 ==> s[i] == cashFlows[i]
  {
    seq(|cashFlows|, i requires 0 <= i < |cashFlows| => NegativePart(cashFlows[i]))
  }

  /**
   * The received parts of a list of cash flows, position by position: a
   * positive flow is kept in place and every other position holds 0.
   */
  function Positives(cashFlows: seq<real>): (s: seq<real>)
    ensures |s| == |cashFlows|
    ensures forall i :: 0 <= i < |s| ==> s[i] >= 0.0 && (s[i] != 0.0 <==> cashFlows[i] > 0.0)
    ensures forall i :: 0 <= i < |s| && s[i] != 0.0 ==> s[i] == cashFlows[i]
  {
    seq(|cashFlows|, i requires 0 <= i < |cashFlows| => PositivePart(cashFlows[i]))
  }

  /** Splits the cash flows into paid-out and received lists of the same length, padded with 0. */
  method Partition(cashFlows: seq<real>) returns (negativeValues: seq<real>, positiveValues: seq<real>)
    ensures negativeValues == Negatives(cashFlows) && positiveValues == Positives(cashFlows)
    ensures forall i :: 0 <= i < |cashFlows| ==> negativeValues[i] + positiveValues[i] == cashFlows[i]
  {
    negativeValues, positiveValues := [], [];
    for i := 0 to |cashFlows|
      invariant negativeValues == Negatives(cashFlows[..i]) && positiveValues == Positives(cashFlows[..i])
    {
      var value := cashFlows[i];
      if value < 0.0 {
        negativeValues, positiveValues := negativeValues + [value], positiveValues + [0.0];
      } else if value > 0.0 {
        positiveValues, negativeValues := positiveValues + [value], negativeValues + [0.0];
      } else {
        negativeValues, positiveValues := negativeValues + [0.0], positiveValues + [0.0];
      }
    }
    assert cashFlows[..|cashFlows|] == cashFlows;
    forall i | 0 <= i < |cashFlows|
      ensures negativeValues[i] + positiveValues[i] == cashFlows[i]
    {
      PartsSplit(cashFlows[i]);
    }
  }

  /** The rule that rejects a list of cash flows: one of its two parts holds at most one distinct value. */
  predicate Degenerate(cashFlows: seq<real>)
  {
    |set x | x in Negatives(cashFlows)| <= 1 || |set x | x in Positives(cashFlows)| <= 1
  }

  /** A set of at most one element holds no two distinct values. */
  lemma SmallSetSingleValued(s: set<real>, a: real, b: real)
    requires |s| <= 1 && a in s && b in s
    ensures a == b
  {
    assert |s - {a}| == |s| - 1;
  }

  /** A list whose entries are all 0 has at most one distinct value. */
  lemma ZerosSingleValued(s: seq<real>)
    requires forall i :: 0 <= i < |s| ==> s[i] == 0.0
    ensures |set x | x in s| <= 1
  {
    var distinct := set x | x in s;
    if s == [] {
      assert distinct == {};
    } else {
      assert s[0] in distinct;
      forall x | x in distinct
        ensures x == 0.0
      {
        var i :| 0 <= i < |s| && s[i] == x;
      }
      assert distinct == {0.0};
    }
  }

  /**
   * The rejection rule holds exactly when the cash flows have no strictly
   * negative entry or no strictly positive entry: a list with both has the
   * values x < 0 and 0 among its paid-out parts, and 0 and y > 0 among its
   * received parts.
   */
  lemma DegenerateIffOneSigned(cashFlows: seq<real>)
    ensures Degenerate(cashFlows) <==>
      (forall i :: 0 <= i < |cashFlows| ==> cashFlows[i] >= 0.0)
      || (forall i :: 0 <= i < |cashFlows| ==> cashFlows[i] <= 0.0)
  {
    var negatives, positives := Negatives(cashFlows), Positives(cashFlows);
    if (exists i :: 0 <= i < |cashFlows| && cashFlows[i] < 0.0)
       && (exists j :: 0 <= j < |cashFlows| && cashFlows[j] > 0.0) {
      var i :| 0 <= i < |cashFlows| && cashFlows[i] < 0.0;
      var j :| 0 <= j < |cashFlows| && cashFlows[j] > 0.0;
      if |set x | x in negatives| <= 1 {
        SmallSetSingleValued((set x | x in negatives), negatives[i], negatives[j]);
      }
      if |set x | x in positives| <= 1 {
        SmallSetSingleValued((set x | x in positives), positives[i], positives[j]);
      }
    } else if forall i :: 0 <= i < |cashFlows| ==> cashFlows[i] >= 0.0 {
      ZerosSingleValued(negatives);
    } else {
      ZerosSingleValued(positives);
    }
  }

  /** A list that passes the rejection rule holds at least two cash flows. */
  lemma AcceptedHasTwoFlows(cashFlows: seq<real>)
    requires !Degenerate(cashFlows)
    ensures |cashFlows| >= 2
  {
    DegenerateIffOneSigned(cashFlows);
  }

  /**
   * The growth ratio of the modified internal rate of return: the received
   * flows grown at the reinvestment rate to the end of the term, over the
   * paid-out flows discounted at the finance rate to the start. `None` for
   * cash flows that are not both paid out and received; the MIRR itself is
   * this ratio's `(n - 1)`-th root, less 1.
   */
  method MirrRatio(cashFlows: seq<real>, financeRate: real, reinvestRate: real) returns (r: Option<Result<real>>)
    ensures r.None? <==> Degenerate(cashFlows)
    ensures r.Some? ==> |cashFlows| >= 2
    ensures r.Some? ==>
      (r.value.DivisionByZero? <==>
        1.0 + reinvestRate == 0.0 || 1.0 + financeRate == 0.0 || Dcf(Negatives(cashFlows), financeRate) == 0.0)
    ensures r.Some? && r.value.Ok? ==>
      r.value.value * (Dcf(Negatives(cashFlows), financeRate) * (1.0 + financeRate))
      == -1.0 * Dcf(Positives(cashFlows), reinvestRate) * Pow(1.0 + reinvestRate, |cashFlows|)
  {
    var negativeValues, positiveValues := Partition(cashFlows);
    if |set x | x in negativeValues| <= 1 || |set x | x in positiveValues| <= 1 {
      return None;
    }
    AcceptedHasTwoFlows(cashFlows);
    var n := |cashFlows|;
    var reinvested := DiscountedCashFlow(positiveValues, reinvestRate);
    if reinvested.DivisionByZero? {
      return Some(DivisionByZero);
    }
    var numerator := -1.0 * reinvested.value * Pow(1.0 + reinvestRate, n);
    var financed := DiscountedCashFlow(negativeValues, financeRate);
    if financed.DivisionByZero? {
      return Some(DivisionByZero);
    }
    var denominator := financed.value * (1.0 + financeRate);
    if denominator == 0.0 {
      ZeroProduct(financed.value, 1.0 + financeRate);
      return Some(DivisionByZero);
    }
    r := Some(Ok(numerator / denominator));
  }

  /** A product is 0 only when a factor is. */
  lemma ZeroProduct(a: real, b: real)
    requires a * b == 0.0
    ensures a == 0.0 || b == 0.0
  {
  }

  /** `(1 + r)^n` is positive for a rate above -100%. */
  lemma {:induction false} PowPositive(x: real, n: nat)
    requires x > 0.0
    ensures Pow(x, n) > 0.0
  {
    if n > 0 {
      PowPositive(x, n - 1);
    }
  }

  /** Discounting at a rate above -100% keeps the sign of every flow, so paid-out flows discount to at most 0. */
  lemma {:induction false} DcfOfNonPositive(cashFlows: seq<real>, rate: real)
    requires 1.0 + rate > 0.0
    requires forall i :: 0 <= i < |cashFlows| ==> cashFlows[i] <= 0.0
    ensures Dcf(cashFlows, rate) <= 0.0
    ensures (exists i :: 0 <= i < |cashFlows| && cashFlows[i] < 0.0) ==> Dcf(cashFlows, rate) < 0.0
  {
    if cashFlows != [] {
      var prefix, last := cashFlows[..|cashFlows| - 1], cashFlows[|cashFlows| - 1];
      DcfOfNonPositive(prefix, rate);
      PowPositive(1.0 + rate, |cashFlows|);
      if exists i :: 0 <= i < |cashFlows| && cashFlows[i] < 0.0 {
        var i :| 0 <= i < |cashFlows| && cashFlows[i] < 0.0;
        if i < |cashFlows| - 1 {
          assert prefix[i] < 0.0;
        }
      }
    }
  }

  /**
   * For an accepted list and a finance rate above -100%, the paid-out flows
   * discount to a negative amount, so the ratio is defined whenever the
   * reinvestment rate is not -100%.
   */
  lemma MirrRatioDefined(cashFlows: seq<real>, financeRate: real)
    requires !Degenerate(cashFlows) && 1.0 + financeRate > 0.0
    ensures Dcf(Negatives(cashFlows), financeRate) < 0.0
  {
    DegenerateIffOneSigned(cashFlows);
    var i :| 0 <= i < |cashFlows| && cashFlows[i] < 0.0;
    assert Negatives(cashFlows)[i] < 0.0;
    DcfOfNonPositive(Negatives(cashFlows), financeRate);
  }

  /** Growth factor of a schedule of per-period interest rates: the product of every `1 + rate`. */
  function Growth(interestSchedule: seq<real>): real
  {
    if interestSchedule == [] then 1.0
    else Growth(interestSchedule[..|interestSchedule| - 1]) * (1.0 + interestSchedule[|interestSchedule| - 1])
  }

  /** Growth over two consecutive schedules is the product of their growths. */
  lemma {:induction false} GrowthAppend(a: seq<real>, b: seq<real>)
    ensures Growth(a + b) == Growth(a) * Growth(b)
  {
    if b != [] {
      var b' := b[..|b| - 1];
      assert (a + b)[..|a + b| - 1] == a + b';
      assert (a + b)[|a + b| - 1] == b[|b| - 1];
      GrowthAppend(a, b');
      assert Growth(a + b) == Growth(a + b') * (1.0 + b[|b| - 1]);
      assert Growth(b) == Growth(b') * (1.0 + b[|b| - 1]);
      GrowthStep(Growth(a + b), Growth(a + b'), Growth(a), Growth(b), Growth(b'), 1.0 + b[|b| - 1]);
    } else {
      assert a + b == a;
    }
  }

  /** The schedule of `n` equal rates. */
  function Constant(rate: real, n: nat): (s: seq<real>)
    ensures |s| == n && forall i :: 0 <= i < n ==> s[i] == rate
  {
    if n == 0 then [] else Constant(rate, n - 1) + [rate]
  }

  /** The algebra of one step of `GrowthAppend`, on plain numbers. */
  lemma GrowthStep(abf: real, ab: real, a: real, bf: real, b: real, factor: real)
    requires ab == a * b && abf == ab * factor && bf == b * factor
    ensures abf == a * bf
  {
  }

  /** A schedule of `n` equal rates grows like compound interest at that rate. */
  lemma {:induction false} GrowthOfConstantRate(rate: real, n: nat)
    ensures Growth(Constant(rate, n)) == Pow(1.0 + rate, n)
  {
    if n > 0 {
      assert Constant(rate, n)[..n - 1] == Constant(rate, n - 1);
      GrowthOfConstantRate(rate, n - 1);
    }
  }

  /** Value of `principal` after a period of each rate of the schedule, in order. */
  method FutureValueSchedule(principal: real, interestSchedule: seq<real>) returns (futureValue: real)
    ensures futureValue == principal * Growth(interestSchedule)
  {
    futureValue := principal;
    for i := 0 to |interestSchedule|
      invariant futureValue == principal * Growth(interestSchedule[..i])
    {
      assert interestSchedule[..i + 1][..i] == interestSchedule[..i];
      futureValue := futureValue * (1.0 + interestSchedule[i]);
    }
    assert interestSchedule[..|interestSchedule|] == interestSchedule;
  }

  /** A constant schedule reproduces yearly compound interest at that rate. */
  lemma ConstantScheduleIsCompoundInterest(principal: real, rate: real, n: nat)
    ensures General.CompoundInterest(principal, rate, n, 1).Ok?
    ensures General.CompoundInterest(principal, rate, n, 1).value == principal * Growth(Constant(rate, n))
  {
    GrowthOfConstantRate(rate, n);
    General.CompoundYearly(principal, rate, n);
  }
}
