/**
 * Depreciation of assets (pfinance/depreciation.py): two single-period
 * formulas and three schedule generators. A schedule is a pair of parallel
 * lists, the asset value at the start of each period and the depreciation at
 * its end; index 0 holds the purchase price and a zero depreciation.
 */
module Depreciation {
  import opened Numeric

  /** Constant periodic depreciation over the useful life. */
  function StraightLine(purchasePrice: real, salvageValue: real, usefulLife: int): (r: Result<real>)
    ensures r.DivisionByZero? <==> usefulLife == 0
    ensures r.Ok? ==> r.value * usefulLife as real == purchasePrice - salvageValue
  {
    if usefulLife == 0 then DivisionByZero
    else Ok((purchasePrice - salvageValue) / usefulLife as real)
  }

  /** Depreciation of one period in which `unitsProduced` of the `usefulLife` expected units were made. */
  function UnitsOfProduction(purchasePrice: real, salvageValue: real, usefulLife: int, unitsProduced: int): (r: Result<real>)
    ensures r.DivisionByZero? <==> usefulLife == 0
    ensures r.Ok? ==> r.value * usefulLife as real == unitsProduced as real * (purchasePrice - salvageValue)
  {
    if usefulLife == 0 then DivisionByZero
    else Ok((unitsProduced as real / usefulLife as real) * (purchasePrice - salvageValue))
  }

  /** Over the whole useful life the units-of-production charges add up to the depreciable amount. */
  lemma UnitsOfProductionFullLife(purchasePrice: real, salvageValue: real, usefulLife: int)
    requires usefulLife != 0
    ensures UnitsOfProduction(purchasePrice, salvageValue, usefulLife, usefulLife) == Ok(purchasePrice - salvageValue)
  {
    assert usefulLife as real / usefulLife as real == 1.0;
  }

  /** The parallel lists a schedule generator returns. */
  datatype Schedule = Schedule(assetValue: seq<real>, depreciation: seq<real>)

  /** Each period's asset value is the previous one less that period's depreciation. */
  predicate Stepwise(s: Schedule)
  {
    && |s.assetValue| == |s.depreciation|
    && forall k :: 1 <= k < |s.assetValue| ==> s.assetValue[k] == s.assetValue[k - 1] - s.depreciation[k]
  }

  /** In a stepwise schedule every asset value is the purchase price less the depreciation so far. */
  lemma {:induction false} StepwiseTelescopes(s: Schedule, k: nat)
    requires Stepwise(s) && k < |s.assetValue|
    ensures s.assetValue[k] == s.assetValue[0] - Sum(s.depreciation[1..k + 1])
  {
    if k > 0 {
      StepwiseTelescopes(s, k - 1);
      assert s.depreciation[1..k + 1] == s.depreciation[1..k] + [s.depreciation[k]];
      SumAppend(s.depreciation[1..k], s.depreciation[k]);
    }
  }

  /** The sum of the years 1..n, `n * (n + 1) / 2`. */
  function YearsTotal(n: nat): real
  {
    (n * (n + 1)) as real / 2.0
  }

  lemma YearsTotalStep(n: nat)
    requires n > 0
    ensures YearsTotal(n) == YearsTotal(n - 1) + n as real
  {
    assert n * (n + 1) == (n - 1) * n + 2 * n;
  }

  /** Depreciation of period k (1-based) of a sum-of-years schedule. */
  function SoyDepreciation(purchasePrice: real, salvageValue: real, usefulLife: nat, k: nat): real
    requires 1 <= k <= usefulLife
  {
    assert usefulLife * (usefulLife + 1) > 0;
    (purchasePrice - salvageValue) * (usefulLife - k + 1) as real / YearsTotal(usefulLife)
  }

  /** Asset value of a sum-of-years schedule while `i` of the years' weights are still to be charged. */
  function SoyValue(purchasePrice: real, salvageValue: real, usefulLife: nat, i: nat): real
    requires 1 <= usefulLife
  {
    assert usefulLife * (usefulLife + 1) > 0;
    purchasePrice - (purchasePrice - salvageValue) * (YearsTotal(usefulLife) - YearsTotal(i)) / YearsTotal(usefulLife)
  }

  /**
   * One step of the sum-of-years loop: with weight `i` next, the loop charges
   * period `usefulLife - i + 1`, and the value drops to that with `i - 1` to go.
   */
  lemma SoyStep(purchasePrice: real, salvageValue: real, usefulLife: nat, i: nat)
    requires 1 <= i <= usefulLife
    ensures YearsTotal(usefulLife) != 0.0
    ensures (purchasePrice - salvageValue) * i as real / YearsTotal(usefulLife)
         == SoyDepreciation(purchasePrice, salvageValue, usefulLife, usefulLife - i + 1)
    ensures SoyValue(purchasePrice, salvageValue, usefulLife, i)
            - (purchasePrice - salvageValue) * i as real / YearsTotal(usefulLife)
         == SoyValue(purchasePrice, salvageValue, usefulLife, i - 1)
  {
    assert usefulLife * (usefulLife + 1) > 0;
    assert usefulLife - (usefulLife - i + 1) + 1 == i;
    YearsTotalStep(i);
    SoyStepAlgebra(purchasePrice, purchasePrice - salvageValue, YearsTotal(usefulLife),
                   YearsTotal(i), YearsTotal(i - 1), i as real);
  }

  /** The algebra of `SoyStep`, on plain numbers: charging `i` more weights moves `y` to `y - i`. */
  lemma SoyStepAlgebra(price: real, d: real, t: real, y: real, yPrevious: real, i: real)
    requires t != 0.0 && y == yPrevious + i
    ensures price - d * (t - y) / t - d * i / t == price - d * (t - yPrevious) / t
  {
    assert d * (t - y) + d * i == d * (t - yPrevious);
  }

  /** The end points of the sum-of-years values: the purchase price, then the salvage value. */
  lemma SoyEnds(purchasePrice: real, salvageValue: real, usefulLife: nat)
    requires 1 <= usefulLife
    ensures SoyValue(purchasePrice, salvageValue, usefulLife, usefulLife) == purchasePrice
    ensures SoyValue(purchasePrice, salvageValue, usefulLife, 0) == salvageValue
  {
    assert usefulLife * (usefulLife + 1) > 0;
    assert YearsTotal(0) == 0.0;
  }

  /**
   * Sum-of-years-digits depreciation. Period k (1-based) depreciates the
   * depreciable amount times `(usefulLife - k + 1) / YearsTotal(usefulLife)`;
   * the depreciations add up to the depreciable amount, so the schedule ends at
   * the salvage value.
   */
  method SumOfYears(purchasePrice: real, salvageValue: real, usefulLife: nat) returns (s: Schedule)
    ensures |s.assetValue| == |s.depreciation| == usefulLife + 1
    ensures s.assetValue[0] == purchasePrice && s.depreciation[0] == 0.0
    ensures Stepwise(s)
    ensures forall k :: 1 <= k <= usefulLife ==>
      s.depreciation[k] == SoyDepreciation(purchasePrice, salvageValue, usefulLife, k)
    ensures usefulLife > 0 ==> Sum(s.depreciation[1..]) == purchasePrice - salvageValue
    ensures usefulLife > 0 ==> s.assetValue[usefulLife] == salvageValue
  {
    var totalYears := YearsTotal(usefulLife);
    var assetValue, depreciation := [purchasePrice], [0.0];
    if usefulLife > 0 {
      SoyEnds(purchasePrice, salvageValue, usefulLife);
    }
    var i := usefulLife;
    while i > 0
      invariant 0 <= i <= usefulLife
      invariant |assetValue| == |depreciation| == usefulLife - i + 1
      invariant assetValue[0] == purchasePrice && depreciation[0] == 0.0
      invariant Stepwise(Schedule(assetValue, depreciation))
      invariant forall k :: 1 <= k < |depreciation| ==>
        depreciation[k] == SoyDepreciation(purchasePrice, salvageValue, usefulLife, k)
      invariant usefulLife > 0 ==>
        assetValue[usefulLife - i] == SoyValue(purchasePrice, salvageValue, usefulLife, i)
    {
      SoyStep(purchasePrice, salvageValue, usefulLife, i);
      var current := (purchasePrice - salvageValue) * i as real / totalYears;
      depreciation := depreciation + [current];
      assetValue := assetValue + [assetValue[usefulLife - i] - current];
      i := i - 1;
    }
    s := Schedule(assetValue, depreciation);
    if usefulLife > 0 {
      StepwiseTelescopes(s, usefulLife);
      assert s.depreciation[1..usefulLife + 1] == s.depreciation[1..];
    }
  }

  /**
   * One period of double-declining-balance depreciation on an asset currently
   * worth `value`: the declining-balance candidate, clamped to be neither
   * negative nor more than the value left above salvage.
   */
  function DdbDepreciation(value: real, salvageValue: real, usefulLife: nat, factor: real): (d: real)
    requires usefulLife > 0
    ensures d >= 0.0
    ensures value >= salvageValue ==> d <= value - salvageValue
    ensures value <= salvageValue ==> d == 0.0
    ensures 0.0 < d < value - salvageValue ==> d == value * factor / usefulLife as real
    ensures var c := value * factor / usefulLife as real; 0.0 <= c <= value - salvageValue ==> d == c
    ensures var c := value * factor / usefulLife as real; 0.0 <= value - salvageValue <= c ==> d == value - salvageValue
    ensures value * factor / usefulLife as real <= 0.0 ==> d == 0.0
  {
    Max(0.0, Min(value * factor / usefulLife as real, value - salvageValue))
  }

  /**
   * The shape of a double-declining-balance schedule: `usefulLife` periods after
   * the purchase, each charging the clamped declining-balance amount on the
   * value it starts with.
   */
  predicate DdbShaped(s: Schedule, purchasePrice: real, salvageValue: real, usefulLife: nat, factor: real)
  {
    && |s.assetValue| == |s.depreciation| == usefulLife + 1
    && s.assetValue[0] == purchasePrice && s.depreciation[0] == 0.0
    && Stepwise(s)
    && forall k :: 1 <= k <= usefulLife ==>
         s.depreciation[k] == DdbDepreciation(s.assetValue[k - 1], salvageValue, usefulLife, factor)
  }

  /** When the purchase price is at least the salvage value, no period takes the asset below salvage. */
  lemma {:induction false} DdbAboveSalvage(s: Schedule, purchasePrice: real, salvageValue: real,
                                           usefulLife: nat, factor: real, k: nat)
    requires DdbShaped(s, purchasePrice, salvageValue, usefulLife, factor)
    requires salvageValue <= purchasePrice && k <= usefulLife
    ensures s.assetValue[k] >= salvageValue
  {
    if k > 0 {
      DdbAboveSalvage(s, purchasePrice, salvageValue, usefulLife, factor, k - 1);
    }
  }

  /** When the salvage value is at least the purchase price, nothing is ever depreciated. */
  lemma {:induction false} DdbFlatAboveCost(s: Schedule, purchasePrice: real, salvageValue: real,
                                            usefulLife: nat, factor: real, k: nat)
    requires DdbShaped(s, purchasePrice, salvageValue, usefulLife, factor)
    requires salvageValue >= purchasePrice && k <= usefulLife
    ensures s.depreciation[k] == 0.0 && s.assetValue[k] == purchasePrice
  {
    if k > 0 {
      DdbFlatAboveCost(s, purchasePrice, salvageValue, usefulLife, factor, k - 1);
    }
  }

  /**
   * Declining-balance depreciation at `factor / usefulLife` per period, clamped
   * so that a period never depreciates a negative amount nor takes the asset
   * below its salvage value.
   */
  method DoubleDecliningBalance(purchasePrice: real, salvageValue: real, usefulLife: nat, factor: real)
    returns (s: Schedule)
    ensures DdbShaped(s, purchasePrice, salvageValue, usefulLife, factor)
    ensures forall k :: 0 <= k <= usefulLife ==> s.depreciation[k] >= 0.0
    ensures salvageValue <= purchasePrice ==>
      Sum(s.depreciation[1..]) <= purchasePrice - salvageValue
      && forall k :: 0 <= k <= usefulLife ==> s.assetValue[k] >= salvageValue
    ensures salvageValue >= purchasePrice ==>
      forall k :: 0 <= k <= usefulLife ==> s.depreciation[k] == 0.0 && s.assetValue[k] == purchasePrice
  {
    var assetValue, depreciation := [purchasePrice], [0.0];
    var totalDepreciation := 0.0;
    for i := 0 to usefulLife
      invariant |assetValue| == |depreciation| == i + 1
      invariant assetValue[0] == purchasePrice && depreciation[0] == 0.0
      invariant Stepwise(Schedule(assetValue, depreciation))
      invariant assetValue[i] == purchasePrice - totalDepreciation
      invariant forall k :: 1 <= k <= i ==>
        depreciation[k] == DdbDepreciation(assetValue[k - 1], salvageValue, usefulLife, factor)
    {
      var current := Max(0.0, Min((purchasePrice - totalDepreciation) * factor / usefulLife as real,
                                  purchasePrice - salvageValue - totalDepreciation));
      assert current == DdbDepreciation(purchasePrice - totalDepreciation, salvageValue, usefulLife, factor);
      depreciation := depreciation + [current];
      totalDepreciation := totalDepreciation + current;
      assetValue := assetValue + [assetValue[i] - current];
    }
    s := Schedule(assetValue, depreciation);
    forall k | 0 <= k <= usefulLife
      ensures salvageValue <= purchasePrice ==> s.assetValue[k] >= salvageValue
      ensures salvageValue >= purchasePrice ==> s.depreciation[k] == 0.0 && s.assetValue[k] == purchasePrice
    {
      if salvageValue <= purchasePrice {
        DdbAboveSalvage(s, purchasePrice, salvageValue, usefulLife, factor, k);
      }
      if salvageValue >= purchasePrice {
        DdbFlatAboveCost(s, purchasePrice, salvageValue, usefulLife, factor, k);
      }
    }
    StepwiseTelescopes(s, usefulLife);
    assert s.depreciation[1..usefulLife + 1] == s.depreciation[1..];
  }

  function Min(a: real, b: real): real { if a <= b then a else b }
  function Max(a: real, b: real): real { if a >= b then a else b }

  /** The first-period charge of a declining-balance schedule, prorated to `subPeriods` twelfths. */
  function DbFirstCharge(purchasePrice: real, subPeriods: int, rate: real): real
  {
    purchasePrice * rate * subPeriods as real / 12.0
  }

  /** The charge of every later in-life period: `rate` times the value the period starts with. */
  function DbCharge(value: real, rate: real): real
  {
    value * rate
  }

  /** The stub charge after the useful life: the remaining `12 - subPeriods` twelfths of a period. */
  function DbStubCharge(value: real, subPeriods: int, rate: real): real
  {
    value * rate * (12 - subPeriods) as real / 12.0
  }

  /**
   * The shape of a declining-balance schedule over `usefulLife` periods: the
   * prorated first charge, then `rate` times the value each later period starts
   * with, then, when the first period was partial, a stub charge for the rest
   * of it.
   */
  predicate DbShaped(s: Schedule, purchasePrice: real, usefulLife: nat, subPeriods: int, rate: real)
  {
    && usefulLife >= 1
    && |s.assetValue| == |s.depreciation| == (if subPeriods == 12 then usefulLife + 1 else usefulLife + 2)
    && s.assetValue[0] == purchasePrice && s.depreciation[0] == 0.0
    && Stepwise(s)
    && s.depreciation[1] == DbFirstCharge(purchasePrice, subPeriods, rate)
    && (forall k :: 2 <= k <= usefulLife ==> s.depreciation[k] == DbCharge(s.assetValue[k - 1], rate))
    && (subPeriods != 12 ==>
         s.depreciation[usefulLife + 1] == DbStubCharge(s.assetValue[usefulLife], subPeriods, rate))
  }

  /**
   * Closed form of the in-life asset values: what is left after the prorated
   * first period, shrunk by `1 - rate` for every later period.
   */
  function DbValue(purchasePrice: real, subPeriods: int, rate: real, k: nat): real
    requires k >= 1
  {
    (purchasePrice - DbFirstCharge(purchasePrice, subPeriods, rate)) * Pow(1.0 - rate, k - 1)
  }

  /** Taking `rate` of a value leaves `1 - rate` of it. */
  lemma Shrink(value: real, rate: real)
    ensures value - value * rate == value * (1.0 - rate)
  {
  }

  /**
   * Within the useful life the asset value is the value after the prorated
   * first period, shrunk by `1 - rate` for every later period.
   */
  lemma {:induction false} DbClosedForm(s: Schedule, purchasePrice: real, usefulLife: nat, subPeriods: int,
                                        rate: real, k: nat)
    requires DbShaped(s, purchasePrice, usefulLife, subPeriods, rate)
    requires 1 <= k <= usefulLife
    ensures s.assetValue[k] == DbValue(purchasePrice, subPeriods, rate, k)
  {
    assert s.assetValue[1] == purchasePrice - DbFirstCharge(purchasePrice, subPeriods, rate) by {
      assert Stepwise(s);
    }
    DbDecays(s, purchasePrice, usefulLife, subPeriods, rate, k);
    DecayingValues(s.assetValue, purchasePrice, subPeriods, rate, k);
  }

  /** A list of values that starts after the first charge and then decays at `rate` follows `DbValue`. */
  lemma DecayingValues(a: seq<real>, purchasePrice: real, subPeriods: int, rate: real, k: nat)
    requires 1 <= k < |a| && a[1] == purchasePrice - DbFirstCharge(purchasePrice, subPeriods, rate)
    requires Decays(a, 1.0 - rate, k)
    ensures a[k] == DbValue(purchasePrice, subPeriods, rate, k)
  {
    GeometricDecay(a, 1.0 - rate, a[1], k);
  }

  /** `a[1..k+1]` is multiplied by `x` at every step. */
  predicate Decays(a: seq<real>, x: real, k: nat)
    requires k < |a|
  {
    k <= 1 || (a[k] == a[k - 1] * x && Decays(a, x, k - 1))
  }

  /** Within the useful life each declining-balance period keeps `1 - rate` of the value. */
  lemma {:induction false} DbDecays(s: Schedule, purchasePrice: real, usefulLife: nat, subPeriods: int,
                                    rate: real, k: nat)
    requires DbShaped(s, purchasePrice, usefulLife, subPeriods, rate)
    requires 1 <= k <= usefulLife
    ensures Decays(s.assetValue, 1.0 - rate, k)
  {
    if k > 1 {
      DbDecays(s, purchasePrice, usefulLife, subPeriods, rate, k - 1);
      var v := s.assetValue[k - 1];
      assert Stepwise(s) && s.depreciation[k] == DbCharge(v, rate);
      Shrink(v, rate);
    }
  }

  /** A list that starts at `first` in position 1 and is multiplied by `x` at every later step. */
  lemma {:induction false} GeometricDecay(a: seq<real>, x: real, first: real, k: nat)
    requires 1 <= k < |a| && a[1] == first && Decays(a, x, k)
    ensures a[k] == first * Pow(x, k - 1)
  {
    if k > 1 {
      GeometricDecay(a, x, first, k - 1);
      calc {
        a[k];
        a[k - 1] * x;
        (first * Pow(x, k - 2)) * x;
        first * (Pow(x, k - 2) * x);
      }
    }
  }

  lemma DbClosedFormAll(s: Schedule, purchasePrice: real, usefulLife: nat, subPeriods: int, rate: real)
    requires DbShaped(s, purchasePrice, usefulLife, subPeriods, rate)
    ensures forall k :: 1 <= k <= usefulLife ==>
      s.assetValue[k] == DbValue(purchasePrice, subPeriods, rate, k)
  {
    forall k | 1 <= k <= usefulLife
      ensures s.assetValue[k] == DbValue(purchasePrice, subPeriods, rate, k)
    {
      DbClosedForm(s, purchasePrice, usefulLife, subPeriods, rate, k);
    }
  }

  /**
   * Declining-balance depreciation at a fixed `rate`. The first period is
   * prorated to `subPeriods` twelfths; when it is partial, a final stub period
   * depreciates the remaining `12 - subPeriods` twelfths. The rate the source
   * derives from the salvage value is a parameter here; the divisions of that
   * derivation still fail for a zero purchase price or a zero useful life.
   */
  method DecliningBalance(purchasePrice: real, usefulLife: nat, subPeriods: int, rate: real)
    returns (r: Result<Schedule>)
    ensures r.DivisionByZero? <==> purchasePrice == 0.0 || usefulLife == 0
    ensures r.Ok? ==> DbShaped(r.value, purchasePrice, usefulLife, subPeriods, rate)
    ensures r.Ok? ==> forall k :: 1 <= k <= usefulLife ==>
      r.value.assetValue[k] == DbValue(purchasePrice, subPeriods, rate, k)
  {
    if purchasePrice == 0.0 || usefulLife == 0 {
      return DivisionByZero;
    }
    var assetValue, depreciation := [purchasePrice], [0.0];
    depreciation := depreciation + [DbFirstCharge(purchasePrice, subPeriods, rate)];
    for j := 0 to usefulLife - 1
      invariant |assetValue| == j + 1 && |depreciation| == j + 2
      invariant assetValue[0] == purchasePrice && depreciation[0] == 0.0
      invariant depreciation[1] == DbFirstCharge(purchasePrice, subPeriods, rate)
      invariant forall k :: 1 <= k < |assetValue| ==> assetValue[k] == assetValue[k - 1] - depreciation[k]
      invariant forall k :: 2 <= k < |depreciation| ==> depreciation[k] == DbCharge(assetValue[k - 1], rate)
    {
      assetValue := assetValue + [assetValue[j] - depreciation[j + 1]];
      depreciation := depreciation + [DbCharge(assetValue[j + 1], rate)];
    }
    assetValue := assetValue + [assetValue[usefulLife - 1] - depreciation[usefulLife]];
    if subPeriods != 12 {
      depreciation := depreciation + [DbStubCharge(assetValue[usefulLife], subPeriods, rate)];
      assetValue := assetValue + [assetValue[usefulLife] - depreciation[usefulLife + 1]];
    }
    r := Ok(Schedule(assetValue, depreciation));
    DbClosedFormAll(r.value, purchasePrice, usefulLife, subPeriods, rate);
  }
}
