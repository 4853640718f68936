/**
 Pricing of one cross-exchange pair (`QuoteSpreadScanner._price` in
 app/engines/_shared.py): size the trade from the depth curve, walk both books
 again at that size, and report the opportunity.
 */
module SpreadScanner {
  import opened RealMath
  import opened OrderBook
  import opened Fees
  import opened ExecutionDepth

  const CAPITAL_TEST_TIERS := [100.0, 250.0, 500.0, 1000.0, 2500.0, 5000.0, 10000.0, 25000.0]

  datatype TradeLeg = TradeLeg(exchange: string, price: real, quantity: real)

  datatype Opportunity = Opportunity(
    buy: TradeLeg, sell: TradeLeg, grossSpreadPct: real, netSpreadPct: real, breakEvenPct: real, capital: real,
    expectedProfit: real, optimalCapital: real, maxProfitableCapital: real)

  /** `v` holds the book levels already resolved for the two exchanges. */
  function Price(v: Venue, capital: real, grossSpreadPct: real, breakEvenPct: real): Option<Opportunity>
    requires v.Priceable()
  {
    if Vwap(v.asks, capital).filled <= 0.0 || Vwap(v.bids, capital).filled <= 0.0 then None
    else
      var edge := ComputeEdge(v, grossSpreadPct, capital, CAPITAL_TEST_TIERS);
      if edge.optimalCapital.None? then None
      else
        var size := edge.optimalCapital.value;
        var buy, sell := Vwap(v.asks, size), Vwap(v.bids, size);
        var filled := Min(buy.filled, sell.filled);
        var quantity := if buy.average != 0.0 then filled / buy.average else 0.0;
        Some(Opportunity(
          TradeLeg(v.buyExchange, buy.average, quantity), TradeLeg(v.sellExchange, sell.average, quantity),
          grossSpreadPct, edge.realisticPct.value, breakEvenPct, filled,
          edge.optimalNetProfit.value, size, edge.maxProfitableCapital.value))
  }

  /** Profit recomputed from nothing but the reported legs and the fee table. */
  function LegProfit(fees: FeeEngine, buy: TradeLeg, sell: TradeLeg): real
    requires buy.exchange in fees.schedules && sell.exchange in fees.schedules
  {
    sell.price * sell.quantity * (1.0 - TakerRate(fees, sell.exchange))
    - buy.price * buy.quantity * (1.0 + TakerRate(fees, buy.exchange))
  }

  /** An opportunity appears exactly when there is liquidity and some tested size pays. */
  lemma EmittedIff(v: Venue, capital: real, gross: real, breakEven: real)
    requires v.Priceable()
    ensures Price(v, capital, gross, breakEven).Some? <==>
              && 0.0 < capital && Liquid(v)
              && exists c | Tested(CAPITAL_TEST_TIERS, capital, c) :: Profitable(EvaluateTier(v, c))
  {
    hide EvaluateTier, ComputeEdge, Filled;
    FilledIsMin(v.asks, capital);
    FilledIsMin(v.bids, capital);
    EmptyDepth(v.asks);
    EmptyDepth(v.bids);
    CurveOptimum(v, gross, capital, CAPITAL_TEST_TIERS);
  }

  /** Since profitable sizes form a prefix, one size decides: the smaller of the intended one and the first tier. */
  lemma EmittedIffSmallestPays(v: Venue, capital: real, gross: real, breakEven: real)
    requires v.Regular()
    ensures Price(v, capital, gross, breakEven).Some?
            <==> 0.0 < capital && Profitable(EvaluateTier(v, Min(CAPITAL_TEST_TIERS[0], capital)))
  {
    hide EvaluateTier, Price, SortedBook, ValidBook, ValidFees;
    var least := Min(CAPITAL_TEST_TIERS[0], capital);
    EmittedIff(v, capital, gross, breakEven);
    TierIsEdge(v, least);
    if 0.0 < capital {
      assert Tested(CAPITAL_TEST_TIERS, capital, least);
      forall c | Tested(CAPITAL_TEST_TIERS, capital, c) && Profitable(EvaluateTier(v, c))
        ensures Profitable(EvaluateTier(v, least))
      {
        ProfitablePrefix(v, least, c);
      }
    }
  }

  /** What a leg moves at its own price. */
  function LegValue(leg: TradeLeg): real {
    Worth(leg.quantity, leg.price)
  }

  lemma LegsEarnTheProfit(fees: FeeEngine, buyAt: string, sellAt: string, capital: real, filled: real, full: bool,
                          b: real, s: real)
    requires buyAt in fees.schedules && sellAt in fees.schedules && 0.0 < filled && 0.0 < b
    ensures var t := PriceTier(capital, filled, full, b, s, TakerRate(fees, buyAt), TakerRate(fees, sellAt));
            var q := filled / b;
            && t.filled == filled && 0.0 < q && LegValue(TradeLeg(buyAt, b, q)) == filled
            && t.netProfit == LegProfit(fees, TradeLeg(buyAt, b, q), TradeLeg(sellAt, s, q))
            && t.netSpreadPct == t.netProfit / filled * 100.0
  {
    hide TakerRate;
    DivMul(filled, b);
    DivSign(filled, b);
    LegAlgebra(filled, b, s, filled / b, TakerRate(fees, buyAt), TakerRate(fees, sellAt));
  }

  lemma LegAlgebra(filled: real, b: real, s: real, q: real, fb: real, fs: real)
    requires b * q == filled
    ensures q * (s - b) - filled * fb - q * s * fs == s * q * (1.0 - fs) - b * q * (1.0 + fb)
  {
    assert q * (s - b) == s * q - b * q;
    assert s * q * (1.0 - fs) == s * q - q * s * fs;
    assert b * q * (1.0 + fb) == b * q + filled * fb;
  }

  lemma TierIsPriced(v: Venue, size: real)
    requires v.Priceable() && 0.0 < EvaluateTier(v, size).filled
    ensures 0.0 < Average(v.asks, size) && 0.0 < Min(Filled(v.asks, size), Filled(v.bids, size))
    ensures EvaluateTier(v, size) == PriceTier(
              size, Min(Filled(v.asks, size), Filled(v.bids, size)),
              Vwap(v.asks, size).fullyFilled && Vwap(v.bids, size).fullyFilled,
              Average(v.asks, size), Average(v.bids, size),
              TakerRate(v.fees, v.buyExchange), TakerRate(v.fees, v.sellExchange))
  {
    hide Filled, Average, Quantity, Worst, TakerRate;
    AveragePositive(v.asks, size);
  }

  /** The size an emitted opportunity was priced at. */
  lemma EmittedSize(v: Venue, capital: real, gross: real, breakEven: real) returns (size: real)
    requires v.Priceable() && Price(v, capital, gross, breakEven).Some?
    ensures Profitable(EvaluateTier(v, size)) && Tested(CAPITAL_TEST_TIERS, capital, size)
    ensures 0.0 < Average(v.asks, size)
    ensures var o := Price(v, capital, gross, breakEven).value;
            var t, q := EvaluateTier(v, size), Min(Filled(v.asks, size), Filled(v.bids, size)) / Average(v.asks, size);
            && o.optimalCapital == size && o.capital == Min(Filled(v.asks, size), Filled(v.bids, size))
            && o.expectedProfit == t.netProfit && o.netSpreadPct == t.netSpreadPct
            && o.buy == TradeLeg(v.buyExchange, Average(v.asks, size), q)
            && o.sell == TradeLeg(v.sellExchange, Average(v.bids, size), q)
  {
    hide ComputeEdge, Filled, Average, Quantity, Worst, TakerRate, EvaluateTier;
    CurveOptimum(v, gross, capital, CAPITAL_TEST_TIERS);
    size := ComputeEdge(v, gross, capital, CAPITAL_TEST_TIERS).optimalCapital.value;
    TierIsPriced(v, size);
  }

  /**
   What is emitted is true of its own numbers: strictly profitable, one quantity
   on both legs, and the profit and percentage follow from the legs, although
   the books are walked a second time.
   */
  lemma EmittedIsConsistent(v: Venue, capital: real, gross: real, breakEven: real)
    requires v.Priceable() && Price(v, capital, gross, breakEven).Some?
    ensures var o := Price(v, capital, gross, breakEven).value;
            && 0.0 < o.expectedProfit && 0.0 < o.capital
            && o.buy.quantity == o.sell.quantity && 0.0 < o.buy.quantity
            && o.buy.exchange == v.buyExchange && o.sell.exchange == v.sellExchange
            && o.capital == LegValue(o.buy)
            && o.expectedProfit == LegProfit(v.fees, o.buy, o.sell)
            && o.netSpreadPct == o.expectedProfit / o.capital * 100.0
  {
    hide Price, Filled, Average, Quantity, Worst, TakerRate, EvaluateTier, PriceTier, LegProfit, LegValue;
    var size := EmittedSize(v, capital, gross, breakEven);
    TierIsPriced(v, size);
    LegsEarnTheProfit(v.fees, v.buyExchange, v.sellExchange, size, Min(Filled(v.asks, size), Filled(v.bids, size)),
                      Vwap(v.asks, size).fullyFilled && Vwap(v.bids, size).fullyFilled,
                      Average(v.asks, size), Average(v.bids, size));
  }

  /**
   What is emitted is the best of the tested sizes: the smallest that nets the
   most, with that profit and percentage and the ceiling that belongs to it, and
   the spread and break-even floor it was priced with.
   */
  lemma EmittedIsTheOptimum(v: Venue, capital: real, gross: real, breakEven: real)
    requires v.Priceable() && Price(v, capital, gross, breakEven).Some?
    ensures var o := Price(v, capital, gross, breakEven).value;
            && IsOptimum(v, capital, CAPITAL_TEST_TIERS, o.optimalCapital)
            && IsCeiling(v, capital, CAPITAL_TEST_TIERS, o.optimalCapital, o.maxProfitableCapital)
            && o.expectedProfit == EvaluateTier(v, o.optimalCapital).netProfit
            && o.netSpreadPct == EvaluateTier(v, o.optimalCapital).netSpreadPct
            && o.grossSpreadPct == gross && o.breakEvenPct == breakEven
  {
    hide ComputeEdge, EvaluateTier, IsOptimum, IsCeiling;
    CurveOptimum(v, gross, capital, CAPITAL_TEST_TIERS);
    CurveReports(v, gross, capital, CAPITAL_TEST_TIERS);
  }

  /** On sorted books, profit runs out among the tested sizes where the emitted ceiling says it does. */
  lemma EmittedCeiling(v: Venue, capital: real, gross: real, breakEven: real)
    requires v.Regular() && Price(v, capital, gross, breakEven).Some?
    ensures var o := Price(v, capital, gross, breakEven).value;
            var best, ceiling := o.optimalCapital, o.maxProfitableCapital;
            if forall c | Tested(CAPITAL_TEST_TIERS, capital, c) && best < c :: Profitable(EvaluateTier(v, c)) then
              && Tested(CAPITAL_TEST_TIERS, capital, ceiling)
              && forall c | Tested(CAPITAL_TEST_TIERS, capital, c) :: c <= ceiling
            else
              exists u | Tested(CAPITAL_TEST_TIERS, capital, u) ::
                ProfitStopsAt(v, capital, CAPITAL_TEST_TIERS, best, u, ceiling)
  {
    hide ComputeEdge, EvaluateTier, ProfitStopsAt, Tested, ValidBook, SortedBook, ValidFees;
    ProfitCeiling(v, gross, capital, CAPITAL_TEST_TIERS);
  }

  // ----- How far the reported profit can be trusted.

  /** Units the bid walk gave up for the price it reports. */
  function WalkedUnits(v: Venue, size: real): real
    requires v.Priceable()
  {
    Quantity(v.bids, size)
  }

  /**
   The sold quantity is not the quantity the sell price was averaged over. It is
   larger exactly when the bids fill no more USD than the asks, or give up fewer units.
   */
  lemma SellOverreaches(v: Venue, capital: real, gross: real, breakEven: real)
    requires v.Priceable() && ValidFees(v.fees) && Price(v, capital, gross, breakEven).Some?
    ensures var o := Price(v, capital, gross, breakEven).value;
            var size := o.optimalCapital;
            WalkedUnits(v, size) < o.sell.quantity
            <==> Filled(v.bids, size) <= Filled(v.asks, size) || Quantity(v.bids, size) < Quantity(v.asks, size)
  {
    hide Price, Filled, Average, Quantity, Worst, EvaluateTier, PriceTier, EarnsEdge, EffectiveRate, ValidFees;
    var size := EmittedSize(v, capital, gross, breakEven);
    TierIsPriced(v, size);
    TierIsEdge(v, size);
    AveragePositive(v.asks, size);
    AveragePositive(v.bids, size);
    AverageIsQuotient(v.asks, size);
    AverageIsQuotient(v.bids, size);
    ProfitNeedsASpread(EvaluateTier(v, size), Average(v.asks, size), Average(v.bids, size),
                       TakerRate(v.fees, v.buyExchange), TakerRate(v.fees, v.sellExchange));
    OverreachAlgebra(Filled(v.asks, size), Quantity(v.asks, size), Filled(v.bids, size), Quantity(v.bids, size));
  }

  lemma AverageIsQuotient(levels: seq<Level>, t: real)
    requires ValidBook(levels) && 0.0 < Quantity(levels, t)
    ensures Average(levels, t) == Filled(levels, t) / Quantity(levels, t)
  {
  }

  lemma ProfitNeedsASpread(t: Tier, b: real, s: real, fb: real, fs: real)
    requires Profitable(t) && 0.0 < b && 0.0 < s && 0.0 <= fb && 0.0 <= fs <= 1.0
    requires EarnsEdge(t, b, s, fb, fs)
    ensures b < s
  {
    var r := s / b;
    if r <= 1.0 {
      DivSign(s, b);
      MulMono(r, 1.0, 1.0 - fs);
      assert Edge(b, s, fb, fs) <= 0.0;
      MulMono(Edge(b, s, fb, fs), 0.0, t.filled);
    }
    QuotientBound(s, b, 1.0);
  }

  lemma OverreachAlgebra(fa: real, qa: real, fb: real, qb: real)
    requires 0.0 < fa && 0.0 < qa && 0.0 < fb && 0.0 < qb && 0.0 < fa / qa < fb / qb
    ensures qb < Min(fa, fb) / (fa / qa) <==> fb <= fa || qb < qa
  {
    var a := fa / qa;
    DivMul(fa, qa);
    DivMul(fb, qb);
    QuotientBound(fa, a, qa);
    QuotientBound(fb, a, qb);
    assert fa / a == qa by { DivMul(fa, a); }
    MulStrict(a, fb / qb, qb);
    DivLeq(fb, qb, fa, qa);
    if fa == fb && qa <= qb { MulMono(qa, qb, fa); }
  }

  /** Proceeds after the sell fee, less cost and buy fee. */
  function NetOf(v: Venue, proceeds: real, cost: real): real
    requires v.Priceable()
  {
    Times(proceeds, 1.0 - TakerRate(v.fees, v.sellExchange)) - Times(cost, 1.0 + TakerRate(v.fees, v.buyExchange))
  }

  /** Net result of an opportunity when its own quantity goes into the bids, best price first. */
  function Realised(v: Venue, o: Opportunity): real
    requires v.Priceable()
  {
    NetOf(v, UnitCost(v.bids, o.sell.quantity), LegValue(o.buy))
  }

  /** Proceeds at which a trade of this cost nets nothing. */
  function BreakEvenProceeds(v: Venue, cost: real): real
    requires v.Priceable() && TakerRate(v.fees, v.sellExchange) < 1.0
  {
    cost * (1.0 + TakerRate(v.fees, v.buyExchange)) / (1.0 - TakerRate(v.fees, v.sellExchange))
  }

  /**
   An emitted trade nets a profit when actually sold exactly when walking the
   bids to its break-even proceeds stays within their depth and takes fewer units
   than it bought.
   */
  lemma RealisedPositiveIff(v: Venue, capital: real, gross: real, breakEven: real)
    requires v.Priceable() && ValidFees(v.fees) && Price(v, capital, gross, breakEven).Some?
    ensures var o := Price(v, capital, gross, breakEven).value;
            && TakerRate(v.fees, v.sellExchange) < 1.0
            && var needed := BreakEvenProceeds(v, LegValue(o.buy));
            0.0 < Realised(v, o) <==> needed < Depth(v.bids) && Quantity(v.bids, needed) < o.sell.quantity
  {
    hide Price, Depth, Quantity, UnitCost, LegValue, LegProfit, NetOf, BreakEvenProceeds, ValidFees;
    var o := Price(v, capital, gross, breakEven).value;
    EmittedIsConsistent(v, capital, gross, breakEven);
    ProfitIsNet(v, o);
    NetSign(v, LegValue(o.sell), LegValue(o.buy));
    NetSign(v, UnitCost(v.bids, o.sell.quantity), LegValue(o.buy));
    WalksAgree(v.bids, BreakEvenProceeds(v, LegValue(o.buy)), o.sell.quantity);
  }

  lemma ProfitIsNet(v: Venue, o: Opportunity)
    requires v.Priceable() && o.buy.exchange == v.buyExchange && o.sell.exchange == v.sellExchange
    ensures LegProfit(v.fees, o.buy, o.sell) == NetOf(v, LegValue(o.sell), LegValue(o.buy))
  {
  }

  /** Proceeds net a profit exactly above the break-even proceeds; a sell fee of the whole leaves none. */
  lemma NetSign(v: Venue, proceeds: real, cost: real)
    requires v.Priceable() && ValidFees(v.fees) && 0.0 < cost
    ensures 0.0 < NetOf(v, proceeds, cost) ==> TakerRate(v.fees, v.sellExchange) < 1.0
    ensures TakerRate(v.fees, v.sellExchange) < 1.0 ==>
              && 0.0 <= BreakEvenProceeds(v, cost)
              && (0.0 < NetOf(v, proceeds, cost) <==> BreakEvenProceeds(v, cost) < proceeds)
  {
    var fb, fs := TakerRate(v.fees, v.buyExchange), TakerRate(v.fees, v.sellExchange);
    assert 0.0 <= fb <= 1.0 && 0.0 <= fs <= 1.0;
    hide TakerRate, ValidFees;
    MulStrict(0.0, cost, 1.0 + fb);
    if fs < 1.0 { SignAlgebra(proceeds, cost * (1.0 + fb), 1.0 - fs); }
  }

  lemma SignAlgebra(proceeds: real, spent: real, kept: real)
    requires 0.0 < kept && 0.0 <= spent
    ensures 0.0 <= spent / kept && (0.0 < proceeds * kept - spent <==> spent / kept < proceeds)
  {
    QuotientBound(spent, kept, proceeds);
    QuotientBound(spent, kept, 0.0);
  }

  /** More proceeds net more. */
  lemma NetOfMono(v: Venue, x: real, y: real, cost: real)
    requires v.Priceable() && ValidFees(v.fees) && x <= y
    ensures NetOf(v, x, cost) <= NetOf(v, y, cost)
  {
    assert TakerRate(v.fees, v.sellExchange) <= 1.0;
    hide TakerRate, Times;
    TimesMono(x, y, 1.0 - TakerRate(v.fees, v.sellExchange));
  }

  /**
   What the trade realises against what it reports: no more when the sold
   quantity overreaches the walk, no less when it stays within it.
   */
  lemma RealisedAgainstReported(v: Venue, capital: real, gross: real, breakEven: real)
    requires v.Regular() && Price(v, capital, gross, breakEven).Some?
    ensures var o := Price(v, capital, gross, breakEven).value;
            && (WalkedUnits(v, o.optimalCapital) <= o.sell.quantity ==> Realised(v, o) <= o.expectedProfit)
            && (o.sell.quantity <= WalkedUnits(v, o.optimalCapital) ==> o.expectedProfit <= Realised(v, o))
  {
    hide Price, Filled, Average, Quantity, Worst, EvaluateTier, PriceTier, TakerRate, LegValue, LegProfit, Depth;
    hide UnitCost, NetOf, Worth, ValidFees;
    var o := Price(v, capital, gross, breakEven).value;
    var size := EmittedSize(v, capital, gross, breakEven);
    TierIsEdge(v, size);
    EmittedIsConsistent(v, capital, gross, breakEven);
    ProfitIsNet(v, o);
    var q := o.sell.quantity;
    SoldAgainstWalk(v.bids, size, q);
    assert LegValue(o.sell) == Worth(q, Average(v.bids, size)) by { SellLegValue(o.sell); }
    if WalkedUnits(v, size) <= q { NetOfMono(v, UnitCost(v.bids, q), LegValue(o.sell), LegValue(o.buy)); }
    if q <= WalkedUnits(v, size) { NetOfMono(v, LegValue(o.sell), UnitCost(v.bids, q), LegValue(o.buy)); }
  }

  lemma SellLegValue(leg: TradeLeg)
    ensures LegValue(leg) == Worth(leg.quantity, leg.price)
  {
  }

  /** No way of selling up to the sold quantity into the bids, level by level, nets more than is realised. */
  lemma RealisedIsTheBest(v: Venue, o: Opportunity, proceeds: seq<real>)
    requires v.Regular() && Allocation(v.bids, proceeds)
    requires 0.0 <= o.sell.quantity && Units(v.bids, proceeds) <= o.sell.quantity
    ensures NetOf(v, Sum(proceeds), LegValue(o.buy)) <= Realised(v, o)
  {
    hide NetOf, UnitCost;
    UnitWalkIsBest(v.bids, false, o.sell.quantity, proceeds);
    NetOfMono(v, Sum(proceeds), UnitCost(v.bids, o.sell.quantity), LegValue(o.buy));
  }

  /** So when the quantity overreaches, the reported profit is a ceiling on every way of selling it. */
  lemma ReportedProfitIsACeiling(v: Venue, capital: real, gross: real, breakEven: real, proceeds: seq<real>)
    requires v.Regular() && Price(v, capital, gross, breakEven).Some?
    requires Allocation(v.bids, proceeds)
    requires var o := Price(v, capital, gross, breakEven).value;
             Units(v.bids, proceeds) <= o.sell.quantity && WalkedUnits(v, o.optimalCapital) <= o.sell.quantity
    ensures var o := Price(v, capital, gross, breakEven).value;
            NetOf(v, Sum(proceeds), LegValue(o.buy)) <= o.expectedProfit
  {
    hide Price, NetOf, Realised, EvaluateTier;
    var o := Price(v, capital, gross, breakEven).value;
    EmittedIsConsistent(v, capital, gross, breakEven);
    RealisedIsTheBest(v, o, proceeds);
    RealisedAgainstReported(v, capital, gross, breakEven);
  }

  lemma {:induction false} QuantityWithinTotal(levels: seq<Level>, t: real)
    requires ValidBook(levels) && 0.0 <= t
    ensures Quantity(levels, t) <= TotalUnits(levels)
  {
    if levels != [] {
      Unfold(levels, t);
      var take := Min(t, LevelUsd(levels[0]));
      QuantityWithinTotal(levels[1..], t - take);
      QuotientBound(take, levels[0].price, levels[0].quantity);
    }
  }

  /** Selling more units than the walk gave up averages no better than it, selling fewer no worse. */
  lemma SoldAgainstWalk(bids: seq<Level>, size: real, q: real)
    requires ValidBook(bids) && SortedBook(bids, false) && 0.0 < size && 0.0 < Depth(bids) && 0.0 < q
    ensures Quantity(bids, size) <= q ==> UnitCost(bids, q) <= Worth(q, Average(bids, size))
    ensures q <= Quantity(bids, size) ==> Worth(q, Average(bids, size)) <= UnitCost(bids, q)
  {
    if Quantity(bids, size) <= q { SoldBeyondWalk(bids, size, q); }
    if q <= Quantity(bids, size) { SoldWithinWalk(bids, size, q); }
  }

  lemma SoldBeyondWalk(bids: seq<Level>, size: real, q: real)
    requires ValidBook(bids) && SortedBook(bids, false) && 0.0 < size && 0.0 < Depth(bids) && 0.0 < q
    requires Quantity(bids, size) <= q
    ensures UnitCost(bids, q) <= Worth(q, Average(bids, size))
  {
    hide Filled, Average, Quantity, Depth, UnitCost, UnitsFilled, TotalUnits, Sum, Units, Worth;
    FilledIsMin(bids, size);
    AveragePositive(bids, size);
    var proceeds := UnitWalkIsAnAllocation(bids, q);
    assert |proceeds| == |bids|;
    hide Allocation;
    UnitsFilledIsMin(bids, q);
    QuantityWithinTotal(bids, size);
    ProceedsBound(bids, size, proceeds);
    WorthUnits(Units(bids, proceeds), q, Average(bids, size));
  }

  lemma SoldWithinWalk(bids: seq<Level>, size: real, q: real)
    requires ValidBook(bids) && SortedBook(bids, false) && 0.0 < size && 0.0 < Depth(bids) && 0.0 < q
    requires q <= Quantity(bids, size)
    ensures Worth(q, Average(bids, size)) <= UnitCost(bids, q)
  {
    hide Filled, Average, Quantity, Depth, UnitCost, Worth;
    var average, cost := Average(bids, size), UnitCost(bids, q);
    FilledIsMin(bids, size);
    AveragePositive(bids, size);
    WalkedValue(bids, size);
    WorthUnits(q, Quantity(bids, size), average);
    UnitCostNonNegative(bids, q);
    if cost < Worth(q, average) {
      WalksAgree(bids, cost, q);
      FilledIsMin(bids, cost);
      QuantitySign(bids, cost);
      AverageMonotone(bids, false, cost, size);
      WalkedValue(bids, cost);
      WorthUnits(q, Quantity(bids, cost), average);
      WorthPrices(Quantity(bids, cost), average, Average(bids, cost));
    }
  }

  lemma WalkedValue(bids: seq<Level>, t: real)
    requires ValidBook(bids) && 0.0 < Quantity(bids, t)
    ensures Worth(Quantity(bids, t), Average(bids, t)) == Filled(bids, t)
  {
    hide Filled, Quantity;
    DivMul(Filled(bids, t), Quantity(bids, t));
  }

  lemma WorthUnits(x: real, y: real, price: real)
    requires x <= y && 0.0 <= price
    ensures Worth(x, price) <= Worth(y, price)
  {
    MulMono(x, y, price);
  }

  lemma WorthPrices(units: real, p: real, q: real)
    requires p <= q && 0.0 <= units
    ensures Worth(units, p) <= Worth(units, q)
  {
    MulMono(p, q, units);
  }

  /** Selling at least the walked units never averages better than the walk did. */
  lemma ProceedsBound(bids: seq<Level>, size: real, proceeds: seq<real>)
    requires ValidBook(bids) && SortedBook(bids, false) && Allocation(bids, proceeds)
    requires 0.0 < size && 0.0 < Depth(bids) && Quantity(bids, size) <= Units(bids, proceeds)
    ensures Sum(proceeds) <= Worth(Units(bids, proceeds), Average(bids, size))
  {
    assert |proceeds| == |bids|;
    hide Filled, Average, Quantity, Depth, Sum, Units, Allocation, Worth;
    var total := Sum(proceeds);
    WalkIsBest(bids, false, proceeds);
    FilledIsMin(bids, size);
    FilledIsMin(bids, total);
    AveragePositive(bids, size);
    if total <= Filled(bids, size) {
      WalkedValue(bids, size);
      WorthUnits(Quantity(bids, size), Units(bids, proceeds), Average(bids, size));
    } else {
      AverageMonotone(bids, false, size, total);
      AveragePositive(bids, total);
      WalkedValue(bids, total);
      WorthPrices(Quantity(bids, total), Average(bids, total), Average(bids, size));
      WorthUnits(Quantity(bids, total), Units(bids, proceeds), Average(bids, size));
    }
  }

  /** The displayed top-of-book spread, less fees, bounds every size of the curve. */
  lemma TopOfBookBoundsEveryTier(v: Venue, c: real)
    requires v.Regular() && Liquid(v) && 0.0 < c
    ensures v.asks != [] && v.bids != [] && 0.0 < v.asks[0].price
    ensures EvaluateTier(v, c).netSpreadPct
         <= 100.0 * Edge(v.asks[0].price, v.bids[0].price,
                         TakerRate(v.fees, v.buyExchange), TakerRate(v.fees, v.sellExchange))
  {
    assert v.asks != [] && v.bids != [];
    assert TakerRate(v.fees, v.sellExchange) <= 1.0;
    hide EvaluateTier, Edge, TakerRate, Average, Depth;
    TierIsEdge(v, c);
    AverageBetween(v.asks, true, c);
    AverageBetween(v.bids, false, c);
    EdgeMonotone(v.asks[0].price, v.bids[0].price, Average(v.asks, c), Average(v.bids, c),
                 TakerRate(v.fees, v.buyExchange), TakerRate(v.fees, v.sellExchange));
  }

  // ----- A trade that is emitted with a profit and loses money.

  /** Deep asks; bids whose second level is all but worthless. */
  function HollowVenue(): Venue {
    var fees := Schedule(0.001, 0.001, 0.001, 0.001);
    Venue([Level(1.0, 100000.0)], [Level(2.0, 50.0), Level(0.0001, 10000.0)],
          FeeEngine(map["binance" := fees, "bybit" := fees], map[]), "binance", "bybit")
  }

  lemma HollowWalks(v: Venue)
    requires v == HollowVenue()
    ensures v.Regular()
    ensures Filled(v.asks, 100.0) == Quantity(v.asks, 100.0) == 100.0
    ensures Filled(v.bids, 100.0) == 100.0 && Quantity(v.bids, 100.0) == 50.0
    ensures Filled(v.asks, 250.0) == Quantity(v.asks, 250.0) == 250.0
    ensures Filled(v.bids, 250.0) == 101.0 && Quantity(v.bids, 250.0) == 10050.0
    ensures UnitCost(v.bids, 100.0) == 100.005
  {
    assert v.bids[1..] == [Level(0.0001, 10000.0)] && v.bids[1..][1..] == [] && v.asks[1..] == [];
    assert UnitsFor(1.0, 0.0001) == 10000.0;
    assert UnitCost(v.bids[1..], 50.0) == Worth(50.0, 0.0001);
  }

  /** The sign of a tier, and its profit, from its two averages. */
  lemma TierAt(v: Venue, c: real, a: real, b: real, f: real)
    requires v.Priceable() && 0.0 < c && Liquid(v) && a != 0.0
    requires TakerRate(v.fees, v.buyExchange) == TakerRate(v.fees, v.sellExchange) == f
    requires Average(v.asks, c) == a && Average(v.bids, c) == b
    ensures var t := EvaluateTier(v, c);
            && t.filled == Min(c, Min(Depth(v.asks), Depth(v.bids)))
            && t.netProfit == TierProfit(t.filled, a, b, f)
            && (Profitable(t) <==> 0.0 < Edge(a, b, f, f))
  {
    hide EvaluateTier, Average, Depth, TakerRate, Edge, TierProfit, EarnsEdge;
    TierIsEdge(v, c);
    ProfitableIsPositiveSpread(v, c);
    EarnsTells(EvaluateTier(v, c), a, b, f);
  }

  lemma EarnsTells(t: Tier, a: real, b: real, f: real)
    requires a != 0.0 && EarnsEdge(t, a, b, f, f)
    ensures t.netProfit == TierProfit(t.filled, a, b, f) && (0.0 < t.netSpreadPct <==> 0.0 < Edge(a, b, f, f))
  {
    hide Edge;
  }

  function TierProfit(filled: real, a: real, b: real, f: real): real
    requires a != 0.0
  {
    filled * Edge(a, b, f, f)
  }

  lemma HollowAverages(v: Venue)
    requires v == HollowVenue()
    ensures v.Regular() && Depth(v.asks) == 100000.0 && Depth(v.bids) == 101.0
    ensures TakerRate(v.fees, v.buyExchange) == TakerRate(v.fees, v.sellExchange) == 0.001
    ensures Average(v.asks, 100.0) == 1.0 && Average(v.bids, 100.0) == 2.0
    ensures Average(v.asks, 250.0) == 1.0 && Average(v.bids, 250.0) == 101.0 / 10050.0
  {
    HollowWalks(v);
    assert v.bids[1..] == [Level(0.0001, 10000.0)] && v.bids[1..][1..] == [] && v.asks[1..] == [];
    hide Filled, Quantity;
  }

  /** At 100 USD the curve reports more than 99 USD; at 250 it already loses. */
  lemma HollowTiers(v: Venue)
    requires v == HollowVenue()
    ensures v.Priceable() && Profitable(EvaluateTier(v, 100.0)) && EvaluateTier(v, 100.0).netProfit == 99.7
    ensures !Profitable(EvaluateTier(v, 250.0))
  {
    HollowAverages(v);
    hide HollowVenue, Depth, Average, EvaluateTier, TakerRate, Edge, TierProfit, ValidBook, SortedBook, ValidFees;
    hide Profitable;
    TierAt(v, 100.0, 1.0, 2.0, 0.001);
    TierAt(v, 250.0, 1.0, 101.0 / 10050.0, 0.001);
    HollowEdges();
  }

  lemma HollowEdges()
    ensures TierProfit(100.0, 1.0, 2.0, 0.001) == 99.7 && 0.0 < Edge(1.0, 2.0, 0.001, 0.001)
    ensures Edge(1.0, 101.0 / 10050.0, 0.001, 0.001) < 0.0
  {
  }

  /** The opportunity is emitted at 100 USD with a profit above 99, and loses money at the bids it is sold into. */
  lemma EmittedTradeLoses(v: Venue, gross: real, breakEven: real)
    requires v == HollowVenue()
    ensures v.Regular() && Price(v, 100.0, gross, breakEven).Some?
    ensures var o := Price(v, 100.0, gross, breakEven).value;
            && o.optimalCapital == 100.0 && o.sell.quantity == 100.0 && WalkedUnits(v, 100.0) == 50.0
            && 99.0 < o.expectedProfit && Realised(v, o) < 0.0
  {
    HollowWalks(v);
    HollowAverages(v);
    HollowTiers(v);
    hide Profitable;
    hide HollowVenue, Filled, Quantity, UnitCost, EvaluateTier, Price, SortedBook, ValidBook, ValidFees, TakerRate;
    hide Average, Realised, Depth;
    EmittedIffSmallestPays(v, 100.0, gross, breakEven);
    var size := EmittedSize(v, 100.0, gross, breakEven);
    SizeIsHundred(v, size);
    HundredUnits();
    RealisedLoss(v, Price(v, 100.0, gross, breakEven).value);
  }

  lemma SizeIsHundred(v: Venue, size: real)
    requires v.Regular() && Tested(CAPITAL_TEST_TIERS, 100.0, size)
    requires Profitable(EvaluateTier(v, size)) && !Profitable(EvaluateTier(v, 250.0))
    ensures size == 100.0
  {
    hide EvaluateTier, SortedBook, ValidBook, ValidFees;
    if 250.0 <= size { ProfitablePrefix(v, 250.0, size); }
  }

  lemma HundredUnits()
    ensures 100.0 / 1.0 == 100.0
  {
  }

  lemma RealisedLoss(v: Venue, o: Opportunity)
    requires v.Priceable() && TakerRate(v.fees, v.buyExchange) == TakerRate(v.fees, v.sellExchange) == 0.001
    requires o.buy.price == 1.0 && o.buy.quantity == o.sell.quantity == 100.0 && UnitCost(v.bids, 100.0) == 100.005
    ensures Realised(v, o) < 0.0
  {
    hide TakerRate, UnitCost;
  }
}
