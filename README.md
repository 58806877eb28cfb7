# pfinance in Dafny

A model of `pfinance`, a small Python library of personal-finance formulas, with proofs about it. The model covers:

- interest: simple and compound interest, the effective rate, loan payments and the amortisation schedule;
- time value of money: annuities, present value, discounted cash flow, the modified internal rate of return, and growth under a schedule of rates;
- asset depreciation: straight line, sum of years, double declining balance, units of production and declining balance;
- securities: bond coupon rate, Norbert's gambit, and the in-place adjusted cost base (ACB) tracker;
- fractional and decimal dollar notation;
- the older helper modules: `functions.py`, `acb.py` and `py-finance/functions.py`.

How Python constructs are modelled:

- Python floats become exact `real`s.
- Integer exponents become `Numeric.Pow`.
- A `ZeroDivisionError` becomes the `DivisionByZero` case of `Numeric.Result`, so every division the Python code performs shows up as an error path.
- The `None` of the MIRR becomes `TimeValue.Option`.

How each kind of source function is modelled:

- Source functions that only compute a value are Dafny functions.
- Functions that loop are methods with loop invariants. Their postconditions tie the result to a specification function or predicate, and lemmas prove the promised properties about it:
  - the sum-of-years, double-declining and declining-balance schedules;
  - the loan payment schedule;
  - `discounted_cash_flow`;
  - the MIRR partition;
  - `future_value_schedule`;
  - `calculate_acb`.
- The ACB tracker `adjusted_cost_base` is the class `Securities.AdjustedCostBase`, whose `Buy` and `Sell` update its fields in place. Its behaviour is specified by the functions `AfterBuy`, `AfterSell` and `CapitalGain` on the value type `Position`.

Modules:

| file | module | models |
|---|---|---|
| numeric.dfy | Numeric | the `Result` type, `**`, `int()`, `len(str(n))`, sums and geometric sums |
| general.dfy | General | pfinance/general.py |
| time_value.dfy | TimeValue | pfinance/time_value.py |
| depreciation.dfy | Depreciation | pfinance/depreciation.py |
| securities.dfy | Securities | pfinance/securities.py |
| conversion.dfy | Conversion | pfinance/conversion.py |
| functions.dfy | Functions | pfinance/functions.py, acb.py, py-finance/functions.py |

Three groups of files hold identical code, so one model serves each group:

- `acb.py:calculate_acb` is the same code as `pfinance/functions.py:calculate_acb`. Both are modelled by `Functions.CalculateAcb`.
- `pfinance/functions.py:simple_interest` (and its copy in `py-finance/functions.py`) is the same formula as `pfinance/general.py:simple_interest`. All three are modelled by `General.SimpleInterest`.
- `py-finance/functions.py` repeats the first three formulas of `pfinance/functions.py`. Its rows below cite that file.

## Model

| member | source | states |
|---|---|---|
| Numeric.Trunc | pfinance/conversion.py:18 | `int()` truncates toward zero: for x ≥ 0 the result r satisfies r ≤ x < r+1; for x < 0 it satisfies r−1 < x ≤ r |
| Numeric.Digits | pfinance/conversion.py:17 | `len(str(n))` of a non-negative integer is at least 1 |
| Numeric.DigitsBounds | pfinance/conversion.py:17 | a number with d digits lies in [10^(d−1), 10^d) |
| General.SimpleInterest | pfinance/general.py:4-17 | the value after the periods exceeds the principal by principal·rate for every period, with no compounding; a rate of 0 or 0 periods leaves the principal; the same formula as `simple_interest` in pfinance/functions.py:1-3 and py-finance/functions.py:1-3 |
| General.SimpleInterestIsLinear | pfinance/general.py:4-17 | simple interest returns the principal after 0 periods and grows by principal·rate each period |
| General.EffectiveInterest | pfinance/general.py:36-47 | the effective rate raises ZeroDivisionError exactly when there are 0 compounding periods |
| General.EffectiveInterestFacts | pfinance/general.py:36-47 | the effective rate of a 0 nominal rate is 0; with one compounding period it equals the nominal rate |
| General.CompoundInterest | pfinance/general.py:20-33 | compound interest fails exactly when the compounding frequency is 0 |
| General.CompoundInterestIdentities | pfinance/general.py:20-33 | at rate 0, or after 0 periods, the investment is worth its principal |
| General.CompoundYearly | pfinance/general.py:20-33 | compounded once a period, the value is principal·(1+rate)^periods |
| General.LoanPayment | pfinance/general.py:50-69 | at rate 0 the payment is loan/term (failing when term is 0); otherwise it fails exactly when the frequency is 0 or (1+rate/frequency)^term = 1; a payment exists only for a positive term |
| General.BalanceClosedForm | pfinance/general.py:114-118 | after k payments the balance is loan·x^k − payment·(1+x+…+x^(k−1)), with x = 1+rate/frequency |
| General.BalanceIsAmortized | pfinance/general.py:114-118 | each period of the schedule multiplies the balance by x = 1+rate/frequency and takes off one payment |
| General.AmortizedClosedForm | pfinance/general.py:114-118 | the recurrence "multiply by x, take off the payment" reaches start·x^k − payment·(1+x+…+x^(k−1)) after k steps |
| General.PaymentClearsClosedForm | pfinance/general.py:62-69 | the computed payment makes the closed form vanish at the end of the term: loan·x^term = payment·(1+x+…+x^(term−1)) |
| General.LoanFullyRepaid | pfinance/general.py:64-69 | paying the computed payment for the whole term leaves a balance of exactly 0, with and without interest |
| General.BalanceWithoutInterest | pfinance/general.py:114-118 | at rate 0 no interest is charged and the balance after k payments is loan − k·payment |
| General.LoanPaymentSchedule | pfinance/general.py:87-124 | fails exactly when the payment fails or the frequency is 0; otherwise it returns term rows in which interest is balance·rate/frequency, interest + principal equals the payment, each remaining balance is the next row's starting balance, and the last remaining balance is 0 |
| TimeValue.FutureValueSeries | pfinance/time_value.py:4-32 | at rate 0 the value is payment·periods; it fails exactly when the rate is non-zero and the frequency is 0 |
| TimeValue.FutureValueSeriesIsAnnuity | pfinance/time_value.py:27-32 | the closed form equals the sum of the n compounded payments, payment·(1+(1+e)+…+(1+e)^(n−1)); payments at the start of the period add one more factor (1+e) |
| TimeValue.SeriesValueIsGeometric | pfinance/time_value.py:32 | the annuity formula payment·modifier·((1+e)^n−1)/e equals the geometric sum of payments times modifier |
| TimeValue.FutureValueSeriesStart | pfinance/time_value.py:29-32 | a start-of-period series is worth the end-of-period series times (1+rate/frequency), at every rate |
| TimeValue.PresentValue | pfinance/time_value.py:35-66 | at rate 0 the present value is −payment·periods − future value; otherwise it fails exactly when (1+rate)^periods = 0 |
| TimeValue.PresentValueFails | pfinance/time_value.py:63-66 | the present value fails exactly when rate = −1 and periods > 0 |
| TimeValue.PresentValueGrowsToFutureValue | pfinance/time_value.py:35-66 | the present value grown for the term equals −(future value of the payment series + future value) |
| TimeValue.DcfAtZeroRate | pfinance/time_value.py:69-83 | at discount rate 0 the discounted cash flow is the plain sum |
| TimeValue.DiscountedCashFlow | pfinance/time_value.py:69-83 | the loop fails exactly when there is a cash flow and 1+rate = 0; otherwise it returns Σ cf[i]/(1+rate)^(i+1) |
| TimeValue.PartsSplit | pfinance/time_value.py:103-112 | every cash flow splits into a non-positive and a non-negative part, at least one of them 0, summing to the flow |
| TimeValue.Negatives | pfinance/time_value.py:100-112 | the negative list has one entry per cash flow; every entry is ≤ 0, non-zero exactly where the flow is negative, and then equal to the flow |
| TimeValue.Positives | pfinance/time_value.py:100-112 | the positive list has one entry per cash flow; every entry is ≥ 0, non-zero exactly where the flow is positive, and then equal to the flow |
| TimeValue.Partition | pfinance/time_value.py:100-112 | the loop builds exactly the two lists, and they add back up to the cash flows entry by entry |
| TimeValue.SmallSetSingleValued | pfinance/time_value.py:114 | helper for `len(set(…)) <= 1`: any two members of a set with at most one element are equal |
| TimeValue.ZerosSingleValued | pfinance/time_value.py:114 | a list of zeros has at most one distinct value |
| TimeValue.DegenerateIffOneSigned | pfinance/time_value.py:114-115 | MIRR returns None exactly when no cash flow is negative or no cash flow is positive |
| TimeValue.AcceptedHasTwoFlows | pfinance/time_value.py:114-117 | when MIRR does not return None there are at least two cash flows, so n−1 > 0 |
| TimeValue.MirrRatio | pfinance/time_value.py:86-121 | None exactly in the degenerate case. Otherwise it fails exactly when 1+reinvest = 0, 1+finance = 0 or the discounted negatives are 0. A ratio it returns satisfies ratio·DCF(neg, f)·(1+f) = −DCF(pos, r)·(1+r)^n |
| TimeValue.DcfOfNonPositive | pfinance/time_value.py:69-83 | discounting non-positive flows at a rate above −1 gives a non-positive value, negative when one flow is negative |
| TimeValue.MirrRatioDefined | pfinance/time_value.py:114-121 | for accepted cash flows and a finance rate above −1 the denominator of the ratio is negative, so the ratio exists |
| TimeValue.GrowthAppend | pfinance/time_value.py:135-136 | growing through two schedules in turn multiplies their growth factors |
| TimeValue.Constant | pfinance/time_value.py:124-138 | a constant schedule has n entries, all equal to the rate |
| TimeValue.GrowthOfConstantRate | pfinance/time_value.py:124-138 | a constant schedule grows by (1+rate)^n |
| TimeValue.FutureValueSchedule | pfinance/time_value.py:124-138 | the loop returns principal times the product of (1+rate) over the schedule |
| TimeValue.ConstantScheduleIsCompoundInterest | pfinance/time_value.py:124-138 | a constant schedule gives the same value as yearly compound interest at that rate |
| Depreciation.StraightLine | pfinance/depreciation.py:4-16 | fails exactly when the useful life is 0; otherwise depreciation·life = price − salvage |
| Depreciation.UnitsOfProduction | pfinance/depreciation.py:91-109 | fails exactly when the life is 0; otherwise depreciation·life = units·(price − salvage) |
| Depreciation.UnitsOfProductionFullLife | pfinance/depreciation.py:91-109 | producing the whole life's units depreciates exactly price − salvage |
| Depreciation.StepwiseTelescopes | pfinance/depreciation.py:37-40 | when each value is the previous minus the charge, value k is the first value minus the first k charges |
| Depreciation.YearsTotalStep | pfinance/depreciation.py:33 | helper for the sum-of-years total: life·(life+1)/2 grows by n from n−1 to n |
| Depreciation.SoyStep | pfinance/depreciation.py:33-40 | the charge of year i is (price − salvage)·i/total, and it takes the value from the closed form for i to the one for i−1 |
| Depreciation.SoyEnds | pfinance/depreciation.py:33-40 | the closed-form value starts at the price and ends at the salvage value |
| Depreciation.SumOfYears | pfinance/depreciation.py:19-45 | returns life+1 values and charges starting at (price, 0), stepwise, each charge (price − salvage)·i/total for i counting down; the charges sum to price − salvage and the last value is the salvage value |
| Depreciation.DdbDepreciation | pfinance/depreciation.py:73-79 | the charge is the declining-balance amount c = value·factor/life when 0 ≤ c ≤ value − salvage, is capped at value − salvage when c exceeds it, and is 0 when c ≤ 0 or the value is at or below salvage; it is never negative and never more than the value left above salvage |
| Depreciation.DdbAboveSalvage | pfinance/depreciation.py:68-83 | when salvage ≤ price the value never falls below salvage |
| Depreciation.DdbFlatAboveCost | pfinance/depreciation.py:68-83 | when salvage ≥ price every charge is 0 and the value stays at the price |
| Depreciation.DoubleDecliningBalance | pfinance/depreciation.py:48-88 | the loop builds the schedule charge by charge; all charges are non-negative; when salvage ≤ price they sum to at most price − salvage and no value falls below salvage; when salvage ≥ price the schedule stays flat at the price |
| Depreciation.Shrink | pfinance/depreciation.py:139-140 | helper for the closed form: charging value·rate leaves value·(1 − rate) |
| Depreciation.DbClosedForm | pfinance/depreciation.py:134-142 | value k is price·(1 − rate·sub/12)·(1 − rate)^(k−1) |
| Depreciation.DbClosedFormAll | pfinance/depreciation.py:134-142 | the closed form holds for every year of the life |
| Depreciation.DecliningBalance | pfinance/depreciation.py:112-151 | fails on the two divisions of the rate formula, when the price is 0 or the life is 0; otherwise it returns the schedule with the first-year, yearly and stub charges, each value following the closed form |
| Securities.BondCouponRate | pfinance/securities.py:4-16 | fails exactly when the face value is 0; otherwise rate·face = payment·payments per period |
| Securities.NorbertsGambit | pfinance/securities.py:19-54 | fails exactly when the exchange rate is 0; otherwise the converted value is the net sale, base value·rate = converted value, base gain·rate = converted gain, and base gain = base value − net purchase |
| Securities.AdjustedCostBase.constructor | pfinance/securities.py:66-72 | a new tracker holds no shares, no book value and ACB 0 |
| Securities.AdjustedCostBase.Buy | pfinance/securities.py:74-85 | adds the shares and their cost plus commission; it fails exactly when the new share count is 0 (the fields are then updated except the ACB); otherwise acb = book value / shares |
| Securities.AdjustedCostBase.Sell | pfinance/securities.py:87-106 | returns proceeds − commission − quantity·ACB, removes the shares at the ACB, resets the position at exactly 0 shares, and keeps the invariant book value = ACB·shares |
| Securities.AdjustedCostBase.GetAcb | pfinance/securities.py:108-115 | returns the stored ACB in every state, including the one a failed buy leaves; in a consistent position that is book value / shares, or 0 when nothing is held |
| Securities.FailedBuyKeepsStaleAcb | pfinance/securities.py:74-85 | a buy that raises leaves 0 shares with book value 95 and the old ACB 10.5 after buying 10 at 10.00 (+5) then -10 at 1.00, so the invariant does not survive a failed buy |
| Securities.BuySetsAcb | pfinance/securities.py:83-85 | a buy that does not fail leaves the tracker consistent with acb = book value / shares |
| Securities.BuyNothingOnEmptyRaises | pfinance/securities.py:83-85 | buying 0 shares into an empty tracker fails and leaves the commission in the book value |
| Securities.SellKeepsConsistent | pfinance/securities.py:99-106 | a sale keeps the invariant and, when shares remain, keeps the ACB |
| Securities.SellAllResets | pfinance/securities.py:99-106 | selling the whole holding returns the tracker to its initial state, and from a consistent position the gain is the proceeds less the commission and the whole book value |
| Securities.OversellAccepted | pfinance/securities.py:99-105 | selling more than is held is accepted, leaving a negative count at the old ACB |
| Securities.ReplayKeepsConsistent | pfinance/securities.py:57-115 | any run of buys and sells that completes keeps the tracker consistent |
| Securities.TrackerWalkThrough | pfinance/securities.py:57-115 | a four-trade example: ACB 10.5, gain 17.5, ACB 15.75, loss 62.5, back to empty |
| Conversion.FractionLengthBounds | pfinance/conversion.py:17 | `len(str(fraction))` is at least 1: a positive fraction of length n lies in [10^(n−1), 10^n); 0 has length 1; a negative fraction spends one character on its sign, so its magnitude lies in [10^(n−2), 10^(n−1)) |
| Conversion.Mantissa | pfinance/conversion.py:18-19 | `x − int(x)` lies in [0, 1) for x ≥ 0 and in (−1, 0] for x < 0 |
| Conversion.DollarDecimal | pfinance/conversion.py:4-21 | fails exactly when the fraction is 0 |
| Conversion.DollarDecimalExample | pfinance/conversion.py:7 | 1.3 with fraction 4 is 1.75 |
| Conversion.FractionalKeepsWholeDollars | pfinance/conversion.py:24-40 | with a positive fraction the whole dollars are kept: the digits written after the point stand for less than one dollar, for both signs |
| Conversion.DollarFractionalExample | pfinance/conversion.py:27 | 1.125 with fraction 16 is 1.02 |
| Conversion.WholeDollars | pfinance/conversion.py:17-40 | a whole number of dollars is unchanged by both conversions |
| Conversion.TruncOdd | pfinance/conversion.py:18 | `int(−x) = −int(x)` |
| Conversion.DecimalOdd | pfinance/conversion.py:4-21 | for a non-zero fraction, converting −x from fractional to decimal notation gives the negation of converting x |
| Conversion.FractionalOdd | pfinance/conversion.py:24-40 | for a non-zero fraction, converting −x from decimal to fractional notation gives the negation of converting x |
| Conversion.ConversionsOdd | pfinance/conversion.py:17-40 | both conversions commute with negation |
| Conversion.DecimalRoundTrip | pfinance/conversion.py:17-40 | for a positive fraction, converting any decimal dollar to fractional notation and back returns it exactly |
| Conversion.FractionalRoundTrip | pfinance/conversion.py:17-40 | a non-negative fractional dollar whose digits denote less than one dollar (its decimal value stays below the next whole dollar) comes back exactly after converting to decimal and back |
| Functions.CompoundInterest | pfinance/functions.py:5-8 | fails exactly when there are 0 compoundings per period |
| Functions.CompoundInterestIdentities | pfinance/functions.py:5-8 | at rate 0, or over 0 periods, the value is the principal |
| Functions.CompoundInterestAgrees | py-finance/functions.py:5-8 | principle·(1+r/k)^(n·k) equals general.py's principle·(1+effective rate)^n |
| Functions.FutureValueSeries | pfinance/functions.py:10-16 | with no rate-0 guard, it fails exactly when the rate is 0 or the compoundings are 0 |
| Functions.FutureValueSeriesAgrees | py-finance/functions.py:10-16 | wherever it is defined, it equals time_value.py's future value series |
| Functions.FutureValueSeriesStart | pfinance/functions.py:10-16 | the start-of-period series is the end-of-period series times (1+r/k) |
| Functions.SimpleInterestExample | tests/test_functions.py:40 | simple interest on 100 at 10% over 10 periods is 200 |
| Functions.AutoLoanMonthlyPayment | pfinance/functions.py:31-37 | the unrounded payment fails exactly when (1+apr/1200)^months = 1 |
| Functions.AutoLoanIsLoanPayment | pfinance/functions.py:31-37 | for a non-zero APR the unrounded auto-loan payment is general.py's loan payment at apr/100 with 12 payments a year |
| Functions.CalculateAcb | pfinance/functions.py:18-29 | fails exactly when the net share count is 0, in particular on an empty list; otherwise returns book value / net shares |
| Functions.CalculateAcbExample | acb.py:14-15 | the example list has 50 net shares, book value 510 and ACB 10.2 |
| Functions.TotalsAppend | acb.py:4-11 | net shares and book value are additive over concatenated transaction lists |
| Functions.ReplayBuys | pfinance/functions.py:18-29 | replaying only buys in the tracker adds their shares and book value and keeps it consistent |
| Functions.BuysAgreeWithTracker | pfinance/functions.py:18-29 | for a non-empty list of buys the fold's ACB equals the tracker's ACB |
| Functions.AverageCost | pfinance/securities.py:85 | a consistent tracker holding shares has acb = book value / shares |
| Functions.SharesPositive | pfinance/functions.py:22-24 | a non-empty list of buys has a positive share count |
| Functions.SalesDisagreeWithTracker | acb.py:1-15 | with a sale, the fold (10.2) and the tracker (10.1) give different ACBs, because the fold counts sales at their price, not at the ACB |

## Left out

- Floating point: rounding, overflow, infinities and NaN. Every float is an exact real, so results that IEEE arithmetic would round are exact here.
- Counts are natural numbers:
  - compounding frequencies, periods, terms and useful lives that drive `**` or `range` are `nat`;
  - negative counts (a reciprocal power, or an empty `range`, in Python) are not modelled.
  - The share quantities of the ACB tracker and the transaction lists stay `int`.
- `equivalent_interest_rate` (pfinance/general.py:72-84) is not modelled: it is a fractional power.
- Depreciation.DecliningBalance: the rate `round(1 − (salvage/price)^(1/life), 3)` is a parameter, because it is a fractional power followed by rounding. The two division failures of that line are kept. Its third failure is not modelled: when salvage/price is negative and the life is at least 2, Python computes a complex power and `round` raises a TypeError (for example `declining_balance(1000, -100, 5)`); the model has no salvage parameter there and returns the schedule.
- TimeValue.MirrRatio: returns the ratio of the modified internal rate of return, not the final `(ratio)^(1/(n−1)) − 1`, a fractional power. Python's complex result for a negative ratio is also left out.
- Functions.AutoLoanMonthlyPayment: returns the payment before `round(…, 2)`.
- The `print` of acb.py is replaced by the lemma Functions.CalculateAcbExample.
- Default arguments are explicit parameters.
- Python's `dict` results become datatypes with named fields.
- Conversion.FractionalRoundTrip: covers non-negative inputs whose digits denote less than one dollar. Other inputs do not come back unchanged, for example 1.5 with fraction 4, which denotes 1 + 5/4.
- The repository's tooling files (`noxfile.py`, `setup.py`, `pfinance/__init__.py`) and the root `functions.py` are not part of this model.
- The tests other than the `simple_interest` assertion are not part of this model.
