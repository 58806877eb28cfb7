/**
 * Securities tracking: the adjusted-cost-base tracker, Norbert's gambit and
 * the bond coupon rate (pfinance/securities.py).
 */
module Securities {
  import opened Numeric

  /** Coupon rate of a bond: the payments of one interest period over the face value. */
  function BondCouponRate(faceValue: real, payment: real, paymentRate: int): (r: Result<real>)
    ensures r.DivisionByZero? <==> faceValue == 0.0
    ensures r.Ok? ==> r.value * faceValue == payment * paymentRate as real
  {
    if faceValue == 0.0 then DivisionByZero else Ok(payment * paymentRate as real / faceValue)
  }

  /** The four figures `norberts_gambit` reports. */
  datatype Gambit = Gambit(baseValue: real, baseGain: real, convertedValue: real, convertedGain: real)

  /**
   * Buy in one currency, journal the shares, sell in the other. `rate` converts
   * the purchase currency into the sale currency.
   */
  function NorbertsGambit(
    quantity: int, purchasePrice: real, salePrice: real, rate: real,
    purchaseCommission: real, saleCommission: real): (r: Result<Gambit>)
    ensures r.DivisionByZero? <==> rate == 0.0
    ensures r.Ok? ==> r.value.convertedValue == quantity as real * salePrice - saleCommission
    ensures r.Ok? ==> r.value.convertedValue == r.value.baseValue * rate
    ensures r.Ok? ==> r.value.convertedGain == r.value.baseGain * rate
    ensures r.Ok? ==> r.value.baseGain == r.value.baseValue - (quantity as real * purchasePrice - purchaseCommission)
  {
    if rate == 0.0 then DivisionByZero
    else
      var initialValue := quantity as real * purchasePrice - purchaseCommission;
      var finalValue := quantity as real * salePrice - saleCommission;
      Ok(Gambit(finalValue / rate, finalValue / rate - initialValue, finalValue, finalValue - initialValue * rate))
  }

  /** The tracker's three fields as a value. */
  datatype Position = Position(shares: int, bookValue: real, acb: real)

  /** A freshly constructed tracker. */
  const Empty := Position(0, 0.0, 0.0)

  /**
   * The tracker's invariant: the book value is the ACB times the shares held,
   * so that `acb == bookValue / shares` whenever shares are held, and an empty
   * position has ACB 0.
   */
  predicate Consistent(p: Position)
  {
    p.bookValue == p.acb * p.shares as real && (p.shares == 0 ==> p.acb == 0.0)
  }

  /** A `buy` that leaves zero shares divides by zero. */
  predicate BuyRaises(p: Position, quantity: int)
  {
    p.shares + quantity == 0
  }

  /**
   * Fields after `buy`. When the division raises, shares and book value have
   * already been updated and the ACB keeps its old value.
   */
  function AfterBuy(p: Position, quantity: int, unitPrice: real, commission: real): Position
  {
    var shares := p.shares + quantity;
    var bookValue := p.bookValue + quantity as real * unitPrice + commission;
    Position(shares, bookValue, if shares == 0 then p.acb else bookValue / shares as real)
  }

  /** Gain reported by `sell`: net proceeds minus the cost of the shares sold at the pre-sale ACB. */
  function CapitalGain(p: Position, quantity: int, unitPrice: real, commission: real): real
  {
    (quantity as real * unitPrice - commission) - quantity as real * p.acb
  }

  /** Fields after `sell`: no check against the holding; reaching exactly zero resets the position. */
  function AfterSell(p: Position, quantity: int): Position
  {
    var shares := p.shares - quantity;
    if shares == 0 then Empty
    else Position(shares, p.bookValue - quantity as real * p.acb, p.acb)
  }

  /** The adjusted cost base tracker; its fields are updated in place by Buy and Sell. */
  class AdjustedCostBase {
    var shares: int
    var bookValue: real
    var acb: real

    function State(): Position
      reads this
    {
      Position(shares, bookValue, acb)
    }

    constructor ()
      ensures State() == Empty && Consistent(State())
    {
      shares, bookValue, acb := 0, 0.0, 0.0;
    }

    /** Records a purchase; fails, with shares and book value already changed, when no shares remain. */
    method Buy(quantity: int, unitPrice: real, commission: real) returns (r: Result<()>)
      modifies this
      ensures State() == AfterBuy(old(State()), quantity, unitPrice, commission)
      ensures r.DivisionByZero? <==> BuyRaises(old(State()), quantity)
      ensures r.Ok? ==> Consistent(State()) && acb == bookValue / shares as real
    {
      shares := shares + quantity;
      bookValue := bookValue + quantity as real * unitPrice + commission;
      if shares == 0 {
        return DivisionByZero;
      }
      acb := bookValue / shares as real;
      r := Ok(());
    }

    /** Records a sale and returns its capital gain against the ACB before the sale. */
    method Sell(quantity: int, unitPrice: real, commission: real) returns (capitalGain: real)
      modifies this
      ensures capitalGain == CapitalGain(old(State()), quantity, unitPrice, commission)
      ensures State() == AfterSell(old(State()), quantity)
      ensures old(Consistent(State())) ==> Consistent(State())
    {
      ghost var p := State();
      shares := shares - quantity;
      capitalGain := (quantity as real * unitPrice - commission) - quantity as real * acb;
      assert capitalGain == CapitalGain(p, quantity, unitPrice, commission);
      if shares == 0 {
        bookValue := 0.0;
        acb := 0.0;
      } else {
        bookValue := bookValue - quantity as real * acb;
      }
      if old(Consistent(State())) {
        SellKeepsConsistent(old(State()), quantity);
      }
    }

    /**
     * The stored ACB, in every state. In a consistent position it is the book
     * value per share held, and 0 when nothing is held.
     */
    method GetAcb() returns (a: real)
      ensures a == acb
      ensures Consistent(State()) && shares != 0 ==> a == bookValue / shares as real
      ensures Consistent(State()) && shares == 0 ==> a == 0.0
    {
      a := acb;
    }
  }

  /** A buy that does not raise leaves `acb == bookValue / shares`, whatever the state before. */
  lemma BuySetsAcb(p: Position, quantity: int, unitPrice: real, commission: real)
    requires !BuyRaises(p, quantity)
    ensures var q := AfterBuy(p, quantity, unitPrice, commission);
      Consistent(q) && q.shares == p.shares + quantity
      && q.bookValue == p.bookValue + quantity as real * unitPrice + commission
      && q.acb == q.bookValue / q.shares as real
  {
  }

  /** Buying zero shares into an empty position is the division by zero. */
  lemma BuyNothingOnEmptyRaises(unitPrice: real, commission: real)
    ensures BuyRaises(Empty, 0)
    ensures AfterBuy(Empty, 0, unitPrice, commission) == Position(0, commission, 0.0)
  {
  }

  /** A sale preserves the invariant; a sale that leaves shares keeps the ACB. */
  lemma SellKeepsConsistent(p: Position, quantity: int)
    requires Consistent(p)
    ensures Consistent(AfterSell(p, quantity))
    ensures AfterSell(p, quantity).shares != 0 ==> AfterSell(p, quantity).acb == p.acb
  {
    var s := p.shares - quantity;
    if s != 0 {
      calc {
        p.bookValue - quantity as real * p.acb;
        p.acb * p.shares as real - quantity as real * p.acb;
        p.acb * s as real;
      }
    }
  }

  /**
   * A buy that raises can leave an inconsistent position: after buying 10 at
   * 10.00 (+5) and then -10 at 1.00, no shares are held, the book value is 95
   * and the ACB keeps 10.5.
   */
  lemma FailedBuyKeepsStaleAcb()
    ensures var p1 := AfterBuy(Empty, 10, 10.0, 5.0);
      var p2 := AfterBuy(p1, -10, 1.0, 0.0);
      !BuyRaises(Empty, 10) && BuyRaises(p1, -10)
      && p2 == Position(0, 95.0, 10.5) && !Consistent(p2)
  {
  }

  /** Selling the whole holding returns the tracker to its empty state. */
  lemma SellAllResets(p: Position, unitPrice: real, commission: real)
    ensures AfterSell(p, p.shares) == Empty
    ensures Consistent(p) ==>
              CapitalGain(p, p.shares, unitPrice, commission) == p.shares as real * unitPrice - commission - p.bookValue
  {
  }

  /** An oversell is accepted: the share count goes negative and the ACB is kept. */
  lemma OversellAccepted(p: Position, quantity: int)
    requires quantity > p.shares
    ensures AfterSell(p, quantity).shares == p.shares - quantity < 0
    ensures AfterSell(p, quantity).acb == p.acb
  {
  }

  /** One recorded transaction. */
  datatype Trade = Buy(quantity: int, unitPrice: real, commission: real)
                 | Sell(quantity: int, unitPrice: real, commission: real)

  /** Fields after recording `trades` in order; a buy that raises ends the run. */
  function Replay(p: Position, trades: seq<Trade>): Result<Position>
    decreases |trades|
  {
    if trades == [] then Ok(p)
    else match trades[0]
      case Buy(q, u, c) =>
        if BuyRaises(p, q) then DivisionByZero else Replay(AfterBuy(p, q, u, c), trades[1..])
      case Sell(q, _, _) => Replay(AfterSell(p, q), trades[1..])
  }

  /** Every run that completes from a consistent position ends in a consistent position. */
  lemma {:induction false} ReplayKeepsConsistent(p: Position, trades: seq<Trade>)
    requires Consistent(p)
    requires Replay(p, trades).Ok?
    ensures Consistent(Replay(p, trades).value)
    decreases |trades|
  {
    if trades != [] {
      match trades[0]
      case Buy(q, u, c) =>
        BuySetsAcb(p, q, u, c);
        ReplayKeepsConsistent(AfterBuy(p, q, u, c), trades[1..]);
      case Sell(q, _, _) =>
        SellKeepsConsistent(p, q);
        ReplayKeepsConsistent(AfterSell(p, q), trades[1..]);
    }
  }

  /**
   * The four-trade walk-through: buy 10 at 10.00 (+5), sell 5 at 15.00 (-5),
   * buy 5 at 20.00 (+5), sell 10 at 10.00 (-5).
   */
  lemma TrackerWalkThrough()
    ensures var p1 := AfterBuy(Empty, 10, 10.0, 5.0);
      var p2 := AfterSell(p1, 5);
      var p3 := AfterBuy(p2, 5, 20.0, 5.0);
      p1.acb == 10.5
      && CapitalGain(p1, 5, 15.0, 5.0) == 17.5 && p2.acb == 10.5
      && p3.acb == 15.75
      && CapitalGain(p3, 10, 10.0, 5.0) == -62.5 && AfterSell(p3, 10) == Empty
  {
  }
}
