/**
 * The older helper functions: the transaction-list ACB fold and the interest
 * formulas (pfinance/functions.py; acb.py and py-finance/functions.py hold
 * the same definitions).
 */
module Functions {
  import opened Numeric
  import General
  import TimeValue
  import Securities

  /**
   * Value of `principle` after `periods` periods at `ratePerPeriod`,
   * compounded `compoundingsPerPeriod` times a period.
   */
  function CompoundInterest(principle: real, ratePerPeriod: real, periods: nat, compoundingsPerPeriod: nat)
    : (r: Result<real>)
    ensures r.DivisionByZero? <==> compoundingsPerPeriod == 0
  {
    if compoundingsPerPeriod == 0 then DivisionByZero
    else
      var effectiveRate := PerPeriod(ratePerPeriod, compoundingsPerPeriod);
      var totalPeriods := periods * compoundingsPerPeriod;
      Ok(principle * Pow(1.0 + effectiveRate, totalPeriods))
  }

  /** Without interest or without time the principle is returned unchanged. */
  lemma CompoundInterestIdentities(principle: real, ratePerPeriod: real, periods: nat, compoundingsPerPeriod: nat)
    requires compoundingsPerPeriod > 0
    ensures CompoundInterest(principle, 0.0, periods, compoundingsPerPeriod).value == principle
    ensures CompoundInterest(principle, ratePerPeriod, 0, compoundingsPerPeriod).value == principle
  {
    assert PerPeriod(0.0, compoundingsPerPeriod) == 0.0;
    PowOfOne(periods * compoundingsPerPeriod);
  }

  /**
   * This formula and the one built on the effective annual rate agree:
   * `(1 + r/k)^(n*k) == ((1 + r/k)^k)^n`.
   */
  lemma CompoundInterestAgrees(principle: real, ratePerPeriod: real, periods: nat, compoundingsPerPeriod: nat)
    requires compoundingsPerPeriod > 0
    ensures General.CompoundInterest(principle, ratePerPeriod, periods, compoundingsPerPeriod).value
         == CompoundInterest(principle, ratePerPeriod, periods, compoundingsPerPeriod).value
  {
    var x := 1.0 + PerPeriod(ratePerPeriod, compoundingsPerPeriod);
    var e := General.EffectiveInterest(ratePerPeriod, compoundingsPerPeriod).value;
    assert 1.0 + e == Pow(x, compoundingsPerPeriod);
    PowMul(x, compoundingsPerPeriod, periods);
    assert periods * compoundingsPerPeriod == compoundingsPerPeriod * periods;
    assert Pow(1.0 + e, periods) == Pow(x, periods * compoundingsPerPeriod);
  }

  /**
   * The regular-payments series without a guard for a zero rate: the
   * per-period rate is a divisor, so a zero rate divides by zero.
   */
  function FutureValueSeries(payment: real, ratePerPeriod: real, periods: nat, compoundingsPerPeriod: nat, startOfPeriod: bool)
    : (r: Result<real>)
    ensures r.DivisionByZero? <==> compoundingsPerPeriod == 0 || ratePerPeriod == 0.0
  {
    if compoundingsPerPeriod == 0 then DivisionByZero
    else
      var effectiveRate := PerPeriod(ratePerPeriod, compoundingsPerPeriod);
      var totalPeriods := periods * compoundingsPerPeriod;
      var startOfPeriodModifier := if startOfPeriod then 1.0 + effectiveRate else 1.0;
      if effectiveRate == 0.0 then
        assert ratePerPeriod == 0.0 by {
          if ratePerPeriod != 0.0 { PerPeriodNonZero(ratePerPeriod, compoundingsPerPeriod); }
        }
        DivisionByZero
      else
        assert ratePerPeriod != 0.0;
        Ok(payment * ((Pow(1.0 + effectiveRate, totalPeriods) - 1.0) / effectiveRate) * startOfPeriodModifier)
  }

  /** The algebra relating the two association orders of the annuity formula, on plain numbers. */
  lemma ReassociateSeries(payment: real, growth: real, e: real, modifier: real)
    requires e != 0.0
    ensures payment * ((growth - 1.0) / e) * modifier == TimeValue.SeriesValue(payment, modifier, growth, e)
  {
  }

  /**
   * Wherever it does not divide by zero, the unguarded series equals the
   * guarded one: both are `payment` times the geometric sum, times the
   * start-of-period modifier.
   */
  lemma FutureValueSeriesAgrees(payment: real, ratePerPeriod: real, periods: nat, compoundingsPerPeriod: nat, startOfPeriod: bool)
    requires FutureValueSeries(payment, ratePerPeriod, periods, compoundingsPerPeriod, startOfPeriod).Ok?
    ensures FutureValueSeries(payment, ratePerPeriod, periods, compoundingsPerPeriod, startOfPeriod).value
         == TimeValue.FutureValueSeries(payment, ratePerPeriod, periods, compoundingsPerPeriod, startOfPeriod).value
  {
    var e := PerPeriod(ratePerPeriod, compoundingsPerPeriod);
    var n := periods * compoundingsPerPeriod;
    var modifier := if startOfPeriod then 1.0 + e else 1.0;
    PerPeriodNonZero(ratePerPeriod, compoundingsPerPeriod);
    ReassociateSeries(payment, Pow(1.0 + e, n), e, modifier);
  }

  /** A start-of-period series is the end-of-period series times `1 + r/k`. */
  lemma FutureValueSeriesStart(payment: real, ratePerPeriod: real, periods: nat, compoundingsPerPeriod: nat)
    requires ratePerPeriod != 0.0 && compoundingsPerPeriod > 0
    ensures FutureValueSeries(payment, ratePerPeriod, periods, compoundingsPerPeriod, true).value
         == FutureValueSeries(payment, ratePerPeriod, periods, compoundingsPerPeriod, false).value
            * (1.0 + PerPeriod(ratePerPeriod, compoundingsPerPeriod))
  {
    FutureValueSeriesAgrees(payment, ratePerPeriod, periods, compoundingsPerPeriod, true);
    FutureValueSeriesAgrees(payment, ratePerPeriod, periods, compoundingsPerPeriod, false);
    TimeValue.FutureValueSeriesIsAnnuity(payment, ratePerPeriod, periods, compoundingsPerPeriod,
                                         PerPeriod(ratePerPeriod, compoundingsPerPeriod), periods * compoundingsPerPeriod);
  }

  /** `simple_interest(100, 0.10, 10) == 200`. */
  lemma SimpleInterestExample()
    ensures General.SimpleInterest(100.0, 0.10, 10) == 200.0
  {
  }

  /**
   * The monthly car-loan payment before it is rounded to cents: the annual
   * percentage rate is compounded monthly over `loanTermMonths` payments.
   */
  function AutoLoanMonthlyPayment(vehiclePrice: real, downPayment: real, interestAprPercent: real, loanTermMonths: nat)
    : (r: Result<real>)
    ensures r.DivisionByZero? <==> Pow(1.0 + interestAprPercent / 100.0 / 12.0, loanTermMonths) == 1.0
  {
    var interestApr := interestAprPercent / 100.0;
    var loanAmount := vehiclePrice - downPayment;
    var growth := Pow(1.0 + interestApr / 12.0, loanTermMonths);
    if growth - 1.0 == 0.0 then DivisionByZero
    else Ok(General.Annuity(loanAmount, interestApr / 12.0, growth))
  }

  /** With a non-zero rate the car-loan payment is the general loan payment with twelve payments a year. */
  lemma AutoLoanIsLoanPayment(vehiclePrice: real, downPayment: real, interestAprPercent: real, loanTermMonths: nat)
    requires interestAprPercent != 0.0
    ensures AutoLoanMonthlyPayment(vehiclePrice, downPayment, interestAprPercent, loanTermMonths)
         == General.LoanPayment(vehiclePrice, interestAprPercent / 100.0, 12, loanTermMonths, downPayment)
  {
    assert interestAprPercent / 100.0 / 12 as real == interestAprPercent / 100.0 / 12.0;
  }

  /** One line of a transaction list: shares bought (positive) or sold (otherwise), unit price and commission. */
  datatype Transaction = Transaction(shares: int, price: real, commission: real)

  /** Net shares held after the transactions. */
  function NetShares(transactions: seq<Transaction>): int
  {
    if transactions == [] then 0
    else NetShares(transactions[..|transactions| - 1]) + transactions[|transactions| - 1].shares
  }

  /** What one transaction adds to the book value: a purchase pays its commission, a sale does not. */
  function Contribution(t: Transaction): real
  {
    if t.shares > 0 then t.shares as real * t.price + t.commission
    else t.shares as real * t.price
  }

  /** Book value after the transactions. */
  function BookValue(transactions: seq<Transaction>): real
  {
    if transactions == [] then 0.0
    else BookValue(transactions[..|transactions| - 1]) + Contribution(transactions[|transactions| - 1])
  }

  /**
   * The adjusted cost base of a list of transactions: book value per net
   * share; fails when no shares are held, in particular for an empty list.
   */
  method CalculateAcb(transactions: seq<Transaction>) returns (r: Result<real>)
    ensures r.DivisionByZero? <==> NetShares(transactions) == 0
    ensures transactions == [] ==> r.DivisionByZero?
    ensures r.Ok? ==> r.value * NetShares(transactions) as real == BookValue(transactions)
    ensures r.Ok? ==> r.value == BookValue(transactions) / NetShares(transactions) as real
  {
    var totalShares := 0;
    var bookValue := 0.0;
    for i := 0 to |transactions|
      invariant totalShares == NetShares(transactions[..i])
      invariant bookValue == BookValue(transactions[..i])
    {
      PrefixTotals(transactions, i);
      var t := transactions[i];
      if t.shares > 0 {
        totalShares := totalShares + t.shares;
        bookValue := bookValue + t.shares as real * t.price + t.commission;
      } else {
        totalShares := totalShares + t.shares;
        bookValue := bookValue + t.shares as real * t.price;
      }
    }
    assert transactions[..|transactions|] == transactions;
    if totalShares == 0 {
      return DivisionByZero;
    }
    r := Ok(bookValue / totalShares as real);
    PerShareTimesShares(bookValue, totalShares, r.value);
  }

  /** Extending a prefix of the list by one transaction adds its shares and its contribution to the totals. */
  lemma PrefixTotals(transactions: seq<Transaction>, i: nat)
    requires i < |transactions|
    ensures NetShares(transactions[..i + 1]) == NetShares(transactions[..i]) + transactions[i].shares
    ensures BookValue(transactions[..i + 1]) == BookValue(transactions[..i]) + Contribution(transactions[i])
  {
    assert transactions[..i + 1][..i] == transactions[..i];
  }

  /** The algebra of `CalculateAcb`'s result, on plain numbers: the value per share times the shares is the whole. */
  lemma PerShareTimesShares(bookValue: real, shares: int, perShare: real)
    requires shares != 0 && perShare == bookValue / shares as real
    ensures perShare * shares as real == bookValue
  {
  }

  /** `calculate_acb([(100, 10, 10), (-50, 10, 10)])` is 10.2: the sale is booked at its price, without commission. */
  lemma CalculateAcbExample()
    ensures var ts := [Transaction(100, 10.0, 10.0), Transaction(-50, 10.0, 10.0)];
      NetShares(ts) == 50 && BookValue(ts) == 510.0 && BookValue(ts) / NetShares(ts) as real == 10.2
  {
    var ts := [Transaction(100, 10.0, 10.0), Transaction(-50, 10.0, 10.0)];
    assert ts[..1] == [Transaction(100, 10.0, 10.0)];
    assert ts[..1][..0] == [];
  }

  /** Net shares and book value of two lists in a row add up. */
  lemma {:induction false} TotalsAppend(a: seq<Transaction>, b: seq<Transaction>)
    ensures NetShares(a + b) == NetShares(a) + NetShares(b)
    ensures BookValue(a + b) == BookValue(a) + BookValue(b)
  {
    if b == [] {
      assert a + b == a;
    } else {
      var b' := b[..|b| - 1];
      assert (a + b)[..|a + b| - 1] == a + b';
      assert (a + b)[|a + b| - 1] == b[|b| - 1];
      TotalsAppend(a, b');
    }
  }

  /** The tracker trades that record purchases only. */
  function AsBuys(transactions: seq<Transaction>): seq<Securities.Trade>
  {
    seq(|transactions|, i requires 0 <= i < |transactions| =>
      Securities.Buy(transactions[i].shares, transactions[i].price, transactions[i].commission))
  }

  /**
   * For purchases only, replaying them on a tracker that already holds
   * shares adds exactly the net shares and book value this fold computes.
   */
  lemma {:induction false} ReplayBuys(p: Securities.Position, transactions: seq<Transaction>)
    requires p.shares >= 0 && Securities.Consistent(p)
    requires forall i :: 0 <= i < |transactions| ==> transactions[i].shares > 0
    ensures Securities.Replay(p, AsBuys(transactions)).Ok?
    ensures var q := Securities.Replay(p, AsBuys(transactions)).value;
      && q.shares == p.shares + NetShares(transactions)
      && q.bookValue == p.bookValue + BookValue(transactions)
      && Securities.Consistent(q)
    decreases |transactions|
  {
    if transactions != [] {
      var t, rest := transactions[0], transactions[1..];
      assert transactions == [t] + rest;
      assert AsBuys(transactions)[1..] == AsBuys(rest);
      TotalsAppend([t], rest);
      assert [t][..0] == [];
      Securities.BuySetsAcb(p, t.shares, t.price, t.commission);
      ReplayBuys(Securities.AfterBuy(p, t.shares, t.price, t.commission), rest);
    }
  }

  /** For a non-empty list of purchases the fold and the tracker compute the same ACB. */
  lemma {:induction false} BuysAgreeWithTracker(transactions: seq<Transaction>)
    requires transactions != []
    requires forall i :: 0 <= i < |transactions| ==> transactions[i].shares > 0
    ensures NetShares(transactions) > 0
    ensures Securities.Replay(Securities.Empty, AsBuys(transactions)).Ok?
    ensures Securities.Replay(Securities.Empty, AsBuys(transactions)).value.acb
         == BookValue(transactions) / NetShares(transactions) as real
  {
    SharesPositive(transactions);
    ReplayBuys(Securities.Empty, transactions);
    AverageCost(Securities.Replay(Securities.Empty, AsBuys(transactions)).value);
  }

  /** A consistent position that holds shares has the book value per share as its ACB. */
  lemma AverageCost(p: Securities.Position)
    requires Securities.Consistent(p) && p.shares != 0
    ensures p.acb == p.bookValue / p.shares as real
  {
  }

  /** A non-empty list of purchases holds shares. */
  lemma {:induction false} SharesPositive(transactions: seq<Transaction>)
    requires transactions != []
    requires forall i :: 0 <= i < |transactions| ==> transactions[i].shares > 0
    ensures NetShares(transactions) > 0
  {
    var prefix := transactions[..|transactions| - 1];
    if prefix != [] {
      SharesPositive(prefix);
    }
  }

  /**
   * With a sale the two disagree: the fold books the sale at its price, the
   * tracker at the ACB. Buying 100 at 10 (+10) and selling 50 at 10 gives
   * 10.2 here and 10.1 in the tracker.
   */
  lemma SalesDisagreeWithTracker()
    ensures var ts := [Transaction(100, 10.0, 10.0), Transaction(-50, 10.0, 10.0)];
      && NetShares(ts) == 50 && BookValue(ts) / NetShares(ts) as real == 10.2
      && Securities.AfterSell(Securities.AfterBuy(Securities.Empty, 100, 10.0, 10.0), 50).acb == 10.1
  {
    CalculateAcbExample();
  }
}
