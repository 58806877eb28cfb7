/**
 * Common finance formulas and the loan amortisation schedule
 * (pfinance/general.py).
 */
module General {
  import opened Numeric

  /** Value of `principle` after `periods` periods of simple interest. */
  function SimpleInterest(principle: real, interestRate: real, periods: int): (r: real)
    ensures r - principle == (principle * interestRate) * periods as real
    ensures interestRate == 0.0 || periods == 0 ==> r == principle
  {
    principle * (1.0 + interestRate * periods as real)
  }

  /** Simple interest starts at the principle and adds the same `principle * interestRate` every period. */
  lemma SimpleInterestIsLinear(principle: real, interestRate: real, periods: int)
    ensures SimpleInterest(principle, interestRate, 0) == principle
    ensures SimpleInterest(principle, interestRate, periods + 1)
         == SimpleInterest(principle, interestRate, periods) + principle * interestRate
  {
  }

  /** The effective annual rate of a nominal rate compounded `periods` times a year. */
  function EffectiveInterest(nominalRate: real, periods: nat): (r: Result<real>)
    ensures r.DivisionByZero? <==> periods == 0
  {
    if periods == 0 then DivisionByZero
    else Ok(Pow(1.0 + nominalRate / periods as real, periods) - 1.0)
  }

  /** A zero nominal rate has a zero effective rate; compounding once a year leaves the rate as it is. */
  lemma EffectiveInterestFacts(nominalRate: real, periods: nat)
    requires periods > 0
    ensures EffectiveInterest(0.0, periods) == Ok(0.0)
    ensures EffectiveInterest(nominalRate, 1) == Ok(nominalRate)
  {
    PowOfOne(periods);
    assert nominalRate / 1 as real == nominalRate;
    assert Pow(1.0 + nominalRate, 1) == 1.0 + nominalRate;
  }

  /** Value of `principle` after `periods` years of interest compounded `compoundingFrequency` times a year. */
  function CompoundInterest(principle: real, interestRate: real, periods: nat, compoundingFrequency: nat): (r: Result<real>)
    ensures r.DivisionByZero? <==> compoundingFrequency == 0
  {
    match EffectiveInterest(interestRate, compoundingFrequency)
    case DivisionByZero => DivisionByZero
    case Ok(e) => Ok(principle * Pow(1.0 + e, periods))
  }

  /** Without interest, or without time, compounding leaves the principle unchanged. */
  lemma CompoundInterestIdentities(principle: real, interestRate: real, periods: nat, compoundingFrequency: nat)
    requires compoundingFrequency > 0
    ensures CompoundInterest(principle, 0.0, periods, compoundingFrequency) == Ok(principle)
    ensures CompoundInterest(principle, interestRate, 0, compoundingFrequency) == Ok(principle)
  {
    EffectiveInterestFacts(0.0, compoundingFrequency);
    PowOfOne(periods);
  }

  /** Compounding once a year grows the principle by `1 + interestRate` every year. */
  lemma CompoundYearly(principle: real, interestRate: real, periods: nat)
    ensures CompoundInterest(principle, interestRate, periods, 1).Ok?
    ensures CompoundInterest(principle, interestRate, periods, 1).value == principle * Pow(1.0 + interestRate, periods)
  {
    var e := EffectiveInterest(interestRate, 1).value;
    assert CompoundInterest(principle, interestRate, periods, 1).value == principle * Pow(1.0 + e, periods);
    EffectiveInterestFacts(interestRate, 1);
    assert Pow(1.0 + e, periods) == Pow(1.0 + interestRate, periods);
  }

  /** One period of interest on `balance` at `interestRate / paymentFrequency`. */
  function PeriodInterest(balance: real, interestRate: real, paymentFrequency: int): real
    requires paymentFrequency != 0
  {
    balance * interestRate / paymentFrequency as real
  }

  /**
   * The periodic payment that repays `principal - downPayment` in `term`
   * payments, with interest compounded at every payment.
   */
  function LoanPayment(principal: real, interestRate: real, paymentFrequency: int, term: nat, downPayment: real): (r: Result<real>)
    ensures interestRate == 0.0 ==>
      r == if term == 0 then DivisionByZero else Ok((principal - downPayment) / term as real)
    ensures interestRate != 0.0 && paymentFrequency != 0 ==>
      (r.DivisionByZero? <==> Pow(1.0 + interestRate / paymentFrequency as real, term) == 1.0)
    ensures interestRate != 0.0 && paymentFrequency == 0 ==> r.DivisionByZero?
    ensures r.Ok? ==> term > 0
  {
    var loanAmount := principal - downPayment;
    if interestRate == 0.0 then
      if term == 0 then DivisionByZero else Ok(loanAmount / term as real)
    else if paymentFrequency == 0 then DivisionByZero
    else
      var effectiveRate := interestRate / paymentFrequency as real;
      var growth := Pow(1.0 + effectiveRate, term);
      if growth - 1.0 == 0.0 then DivisionByZero
      else Ok(Annuity(loanAmount, effectiveRate, growth))
  }

  /** The annuity formula: the payment repaying `loanAmount` at `effectiveRate` per period, with `growth` the loan's growth over the term. */
  function Annuity(loanAmount: real, effectiveRate: real, growth: real): real
    requires growth != 1.0
  {
    loanAmount * effectiveRate * growth / (growth - 1.0)
  }

  /** Balance of the loan after `k` payments, as the schedule computes it period by period. */
  function Balance(loanAmount: real, interestRate: real, paymentFrequency: int, payment: real, k: nat): real
    requires paymentFrequency != 0
  {
    if k == 0 then loanAmount
    else
      var b := Balance(loanAmount, interestRate, paymentFrequency, payment, k - 1);
      b - (payment - PeriodInterest(b, interestRate, paymentFrequency))
  }

  /** One period's interest is the balance times the per-period rate. */
  lemma PeriodInterestIsRate(balance: real, interestRate: real, paymentFrequency: int)
    requires paymentFrequency != 0
    ensures PeriodInterest(balance, interestRate, paymentFrequency)
         == balance * (interestRate / paymentFrequency as real)
  {
  }

  /**
   * The recurrence the schedule follows once the per-period growth factor `x`
   * is fixed: each period multiplies the balance by `x` and takes off one payment.
   */
  function Amortized(start: real, x: real, payment: real, k: nat): real
  {
    if k == 0 then start else Amortized(start, x, payment, k - 1) * x - payment
  }

  /** The algebra of one step of `AmortizedClosedForm`, on plain numbers. */
  lemma AmortizedStep(v: real, start: real, x: real, payment: real, p: real, g: real, p1: real, g1: real)
    requires v == start * p - payment * g
    requires p1 == p * x && g1 == g * x + 1.0
    ensures v * x - payment == start * p1 - payment * g1
  {
  }

  /** Closed form of the recurrence: `start` grown `k` times, less each payment grown from the period it was made. */
  lemma {:induction false} AmortizedClosedForm(start: real, x: real, payment: real, k: nat)
    ensures Amortized(start, x, payment, k) == start * Pow(x, k) - payment * GeometricSum(x, k)
  {
    if k > 0 {
      AmortizedClosedForm(start, x, payment, k - 1);
      AmortizedStep(Amortized(start, x, payment, k - 1), start, x, payment,
                    Pow(x, k - 1), GeometricSum(x, k - 1), Pow(x, k), GeometricSum(x, k));
    }
  }

  /** One period of the schedule, on plain numbers: paying after adding the interest is multiplying by the growth factor. */
  lemma PaymentPeriodGrows(b: real, next: real, interestRate: real, paymentFrequency: int, payment: real, x: real)
    requires paymentFrequency != 0 && x == 1.0 + interestRate / paymentFrequency as real
    requires next == b - (payment - PeriodInterest(b, interestRate, paymentFrequency))
    ensures next == b * x - payment
  {
    PeriodInterestIsRate(b, interestRate, paymentFrequency);
  }

  /** The schedule's balance follows the recurrence with growth factor 1 + rate/frequency. */
  lemma {:induction false} BalanceIsAmortized(loanAmount: real, interestRate: real, paymentFrequency: int, payment: real,
                                              x: real, k: nat)
    requires paymentFrequency != 0 && x == 1.0 + interestRate / paymentFrequency as real
    ensures Balance(loanAmount, interestRate, paymentFrequency, payment, k) == Amortized(loanAmount, x, payment, k)
  {
    if k > 0 {
      BalanceIsAmortized(loanAmount, interestRate, paymentFrequency, payment, x, k - 1);
      PaymentPeriodGrows(Balance(loanAmount, interestRate, paymentFrequency, payment, k - 1),
                         Balance(loanAmount, interestRate, paymentFrequency, payment, k),
                         interestRate, paymentFrequency, payment, x);
    }
  }

  /**
   * After `k` payments the balance is the loan grown by `k` periods of
   * interest, less every payment grown from the period it was made.
   */
  lemma BalanceClosedForm(loanAmount: real, interestRate: real, paymentFrequency: int, payment: real, k: nat)
    requires paymentFrequency != 0
    ensures Balance(loanAmount, interestRate, paymentFrequency, payment, k)
         == loanAmount * Pow(1.0 + interestRate / paymentFrequency as real, k)
            - payment * GeometricSum(1.0 + interestRate / paymentFrequency as real, k)
  {
    var x := 1.0 + interestRate / paymentFrequency as real;
    BalanceIsAmortized(loanAmount, interestRate, paymentFrequency, payment, x, k);
    AmortizedClosedForm(loanAmount, x, payment, k);
  }

  /** The algebra of full repayment at a non-zero rate, on plain numbers. */
  lemma RepaidAtRate(loan: real, e: real, growth: real, g: real, payment: real)
    requires g * e == growth - 1.0 && growth - 1.0 != 0.0
    requires payment == Annuity(loan, e, growth)
    ensures loan * growth - payment * g == 0.0
  {
    var d := growth - 1.0;
    assert payment * d == loan * e * growth;
    assert (payment * g) * e == payment * d;
    assert (payment * g - loan * growth) * e == 0.0;
    assert e != 0.0;
  }

  /** The algebra of full repayment without interest, on plain numbers. */
  lemma RepaidWithoutInterest(loan: real, term: nat, payment: real)
    requires term > 0 && payment == loan / term as real
    ensures loan * 1.0 - payment * term as real == 0.0
  {
  }

  /** The payment `LoanPayment` computes repays the loan exactly: the balance after the last payment is 0. */
  lemma LoanFullyRepaid(principal: real, interestRate: real, paymentFrequency: int, term: nat, downPayment: real)
    requires LoanPayment(principal, interestRate, paymentFrequency, term, downPayment).Ok?
    requires paymentFrequency != 0
    ensures Balance(principal - downPayment, interestRate, paymentFrequency,
                    LoanPayment(principal, interestRate, paymentFrequency, term, downPayment).value, term) == 0.0
  {
    var loan := principal - downPayment;
    var payment := LoanPayment(principal, interestRate, paymentFrequency, term, downPayment).value;
    var x := 1.0 + interestRate / paymentFrequency as real;
    BalanceClosedForm(loan, interestRate, paymentFrequency, payment, term);
    PaymentClearsClosedForm(principal, interestRate, paymentFrequency, term, downPayment,
                            loan, payment, Pow(x, term), GeometricSum(x, term));
  }

  /** The computed payment makes the closed form of the final balance vanish. */
  lemma PaymentClearsClosedForm(principal: real, interestRate: real, paymentFrequency: int, term: nat,
                                downPayment: real, loan: real, payment: real, p: real, g: real)
    requires LoanPayment(principal, interestRate, paymentFrequency, term, downPayment).Ok?
    requires paymentFrequency != 0
    requires loan == principal - downPayment
    requires payment == LoanPayment(principal, interestRate, paymentFrequency, term, downPayment).value
    requires p == Pow(1.0 + interestRate / paymentFrequency as real, term)
    requires g == GeometricSum(1.0 + interestRate / paymentFrequency as real, term)
    ensures loan * p - payment * g == 0.0
  {
    var e := interestRate / paymentFrequency as real;
    var x := 1.0 + e;
    if interestRate == 0.0 {
      assert p == 1.0 && g == term as real by {
        assert x == 1.0;
        PowOfOne(term);
        GeometricSumOfOne(term);
      }
      RepaidWithoutInterest(loan, term, payment);
    } else {
      assert g * e == p - 1.0 by {
        GeometricSumClosed(x, term);
      }
      assert p - 1.0 != 0.0;
      assert payment == Annuity(loan, e, p);
      RepaidAtRate(loan, e, p, g, payment);
    }
  }

  /** With a factor of 1 the geometric sum just counts its terms. */
  lemma {:induction false} GeometricSumOfOne(n: nat)
    ensures GeometricSum(1.0, n) == n as real
  {
    if n > 0 {
      GeometricSumOfOne(n - 1);
    }
  }

  /**
   * Without interest no period accrues interest, so every payment repays
   * principal in full and the balance falls by the payment each period.
   */
  lemma {:induction false} BalanceWithoutInterest(loanAmount: real, paymentFrequency: int, payment: real, k: nat)
    requires paymentFrequency != 0
    ensures PeriodInterest(Balance(loanAmount, 0.0, paymentFrequency, payment, k), 0.0, paymentFrequency) == 0.0
    ensures Balance(loanAmount, 0.0, paymentFrequency, payment, k) == loanAmount - k as real * payment
  {
    if k > 0 {
      BalanceWithoutInterest(loanAmount, paymentFrequency, payment, k - 1);
    }
  }

  /** The three parallel lists of a loan schedule, one entry per payment. */
  datatype LoanSchedule = LoanSchedule(principalPayment: seq<real>, interestPayment: seq<real>, remainingBalance: seq<real>)

  /**
   * Row `k` of an amortisation schedule with constant payment `payment`: the
   * interest is one period's interest on the balance after `k` payments, the
   * rest of the payment repays principal, and what remains is the balance
   * after `k + 1` payments.
   */
  predicate AmortisedRow(s: LoanSchedule, k: nat, loan: real, interestRate: real, paymentFrequency: int, payment: real)
    requires paymentFrequency != 0
    requires k < |s.principalPayment| && k < |s.interestPayment| && k < |s.remainingBalance|
  {
    var b := Balance(loan, interestRate, paymentFrequency, payment, k);
    && s.interestPayment[k] == PeriodInterest(b, interestRate, paymentFrequency)
    && s.interestPayment[k] + s.principalPayment[k] == payment
    && s.remainingBalance[k] == b - s.principalPayment[k]
    && s.remainingBalance[k] == Balance(loan, interestRate, paymentFrequency, payment, k + 1)
  }

  /** A schedule of `n` rows, every one of them amortising `loan` as `AmortisedRow` says. */
  predicate Amortised(s: LoanSchedule, n: nat, loan: real, interestRate: real, paymentFrequency: int, payment: real)
    requires paymentFrequency != 0
  {
    && |s.principalPayment| == |s.interestPayment| == |s.remainingBalance| == n
    && forall k :: 0 <= k < n ==> AmortisedRow(s, k, loan, interestRate, paymentFrequency, payment)
  }

  /**
   * The amortisation schedule of a loan: every payment is the constant
   * `LoanPayment`, split into the interest on the balance it finds and the
   * principal it repays; the balance after the last payment is 0.
   */
  method LoanPaymentSchedule(principal: real, interestRate: real, paymentFrequency: int, term: nat, downPayment: real)
    returns (r: Result<LoanSchedule>)
    ensures r.DivisionByZero? <==>
      LoanPayment(principal, interestRate, paymentFrequency, term, downPayment).DivisionByZero? || paymentFrequency == 0
    ensures r.Ok? ==>
      && paymentFrequency != 0 && term > 0
      && Amortised(r.value, term, principal - downPayment, interestRate, paymentFrequency,
                   LoanPayment(principal, interestRate, paymentFrequency, term, downPayment).value)
      && r.value.remainingBalance[term - 1] == 0.0
  {
    var paymentResult := LoanPayment(principal, interestRate, paymentFrequency, term, downPayment);
    if paymentResult.DivisionByZero? || paymentFrequency == 0 {
      return DivisionByZero;
    }
    var payment := paymentResult.value;
    ghost var loan := principal - downPayment;
    var loanAmount := principal - downPayment;
    var s := LoanSchedule([], [], []);
    for i := 0 to term
      invariant Amortised(s, i, loan, interestRate, paymentFrequency, payment)
      invariant loanAmount == Balance(loan, interestRate, paymentFrequency, payment, i)
    {
      var interest := PeriodInterest(loanAmount, interestRate, paymentFrequency);
      var repaid := payment - interest;
      ghost var s0 := s;
      s := LoanSchedule(s.principalPayment + [repaid], s.interestPayment + [interest],
                        s.remainingBalance + [loanAmount - repaid]);
      forall k | 0 <= k < i
        ensures AmortisedRow(s, k, loan, interestRate, paymentFrequency, payment)
      {
        assert AmortisedRow(s0, k, loan, interestRate, paymentFrequency, payment);
      }
      loanAmount := loanAmount - repaid;
    }
    LoanFullyRepaid(principal, interestRate, paymentFrequency, term, downPayment);
    assert AmortisedRow(s, term - 1, loan, interestRate, paymentFrequency, payment);
    r := Ok(s);
  }
}
