/**
 The full dual-leg quote (`compute_dual_leg_quote` in
 app/execution/dual_leg_quote.py): sizing, visible depth, fees and profit, and
 what the inventory purchase that follows it can cover.
 */
module DualLegQuote {
  import opened Fees
  import opened OrderBook
  import opened RealMath
  import opened Sizing

  /** `depth` is the side of the book the leg trades against. */
  datatype LegSnapshot = LegSnapshot(rules: LegRules, depth: seq<Level>, feeRate: real)
  {
    /** The depth is a sorted book that starts at the quoted price, and the fee is a fraction. */
    ghost predicate Regular(buying: bool) {
      && ValidBook(depth) && SortedBook(depth, buying)
      && depth != [] && depth[0].price == rules.price && 0.0 <= feeRate <= 1.0
    }
  }

  function Abs(x: real): real {
    if x < 0.0 then -x else x
  }

  /** Percentage by which the walk to `q` units misses the quoted price; a short book counts as 100. */
  function SlippagePct(price: real, depth: seq<Level>, q: real): real {
    var filled := UnitsFilled(depth, q);
    if filled <= 0.0 || price <= 0.0 then 0.0
    else
      var pct := Abs(UnitCost(depth, q) / filled - price) / price * 100.0;
      if filled < q then Max(pct, 100.0) else pct
  }

  function SlippageOf(leg: LegSnapshot, q: real): real {
    SlippagePct(leg.rules.price, leg.depth, q)
  }

  /** USD of `notional` that `rate` takes. */
  function Share(notional: real, rate: real): real {
    notional * rate
  }

  function NetProfit(buy: LegSnapshot, sell: LegSnapshot, q: real): real {
    var bought, sold := Worth(q, buy.rules.price), Worth(q, sell.rules.price);
    (sold - Share(sold, sell.feeRate) - Share(sold, SlippageOf(sell, q) / 100.0))
    - (bought + Share(bought, buy.feeRate) + Share(bought, SlippageOf(buy, q) / 100.0))
  }

  function QuantityOf(buy: LegSnapshot, sell: LegSnapshot, requested: real, cap: real): real {
    ExecutableQuantity(buy.rules, sell.rules, requested, cap)
  }

  function Executable(buy: LegSnapshot, sell: LegSnapshot, requested: real, cap: real): bool {
    QuoteExecutable(buy.rules, sell.rules, requested, cap, NetProfit(buy, sell, QuantityOf(buy, sell, requested, cap)))
  }

  /** An executable quote passes both exchanges' rules and nets a profit at the quantity both rules give. */
  lemma ExecutableIff(buy: LegSnapshot, sell: LegSnapshot, requested: real, cap: real)
    ensures var q := ExecutableQuantity(buy.rules, sell.rules, requested, cap);
            && QuantityOf(buy, sell, requested, cap) == q
            && (Executable(buy, sell, requested, cap)
                <==> && buy.rules.tradable && sell.rules.tradable
                     && 0.0 < q && buy.rules.minQuantity <= q && sell.rules.minQuantity <= q
                     && (buy.rules.minNotional.None? || buy.rules.minNotional.value <= q * buy.rules.price)
                     && (sell.rules.minNotional.None? || sell.rules.minNotional.value <= q * sell.rules.price)
                     && 0.0 < NetProfit(buy, sell, q))
  {
    hide ExecutableQuantity, NetProfit;
  }

  // ----- What the net profit means.

  lemma {:induction false} UnitCostBound(levels: seq<Level>, buying: bool, p: real, units: real)
    requires ValidBook(levels) && 0.0 <= units
    requires forall i :: 0 <= i < |levels| ==> AtLeastAsGood(buying, p, levels[i].price)
    ensures AtLeastAsGood(buying, Worth(UnitsFilled(levels, units), p), UnitCost(levels, units))
  {
    if levels != [] && 0.0 < units {
      var take := Min(units, levels[0].quantity);
      UnitCostBound(levels[1..], buying, p, units - take);
      WorthMono(p, levels[0].price, take);
      WorthMono(levels[0].price, p, take);
      WorthAdds(take, UnitsFilled(levels[1..], units - take), p);
      hide Worth;
    }
  }

  lemma WorthMono(p: real, q: real, units: real)
    requires 0.0 <= units
    ensures p <= q ==> Worth(units, p) <= Worth(units, q)
  {
    if p <= q { MulMono(p, q, units); }
  }

  lemma WorthAdds(x: real, y: real, p: real)
    ensures Worth(x + y, p) == Worth(x, p) + Worth(y, p) && Worth(0.0, p) == 0.0
  {
  }

  /** The distance between quoted and walked price, charged on the notional, is the walk's own cost of depth. */
  lemma SlippageIsTheWalk(leg: LegSnapshot, buying: bool, q: real)
    requires leg.Regular(buying) && 0.0 < q <= TotalUnits(leg.depth)
    ensures var depth := Share(Worth(q, leg.rules.price), SlippageOf(leg, q) / 100.0);
            UnitCost(leg.depth, q) == Worth(q, leg.rules.price) + if buying then depth else -depth
  {
    var price, cost := leg.rules.price, UnitCost(leg.depth, q);
    UnitsFilledIsMin(leg.depth, q);
    UnitCostBound(leg.depth, buying, price, q);
    hide UnitCost, UnitsFilled, TotalUnits;
    SlippageAlgebra(price, cost, q, buying);
  }

  lemma SlippageAlgebra(price: real, cost: real, q: real, buying: bool)
    requires 0.0 < price && 0.0 < q && AtLeastAsGood(buying, Worth(q, price), cost)
    ensures var gap := Share(Worth(q, price), Abs(cost / q - price) / price * 100.0 / 100.0);
            cost == Worth(q, price) + if buying then gap else -gap
  {
    QuotientBound(cost, q, price);
    DivMul(cost, q);
    var distance := Abs(cost / q - price);
    DivMul(distance, price);
    assert Worth(q, price) * (distance / price) == q * (distance / price * price) == q * distance;
    Distribute(q, cost / q, price);
    assert distance / price * 100.0 / 100.0 == distance / price;
  }

  /** With enough depth the quoted profit is that of walking both books, with fees charged at the quoted prices. */
  lemma NetProfitIsTheWalk(buy: LegSnapshot, sell: LegSnapshot, q: real)
    requires buy.Regular(true) && sell.Regular(false)
    requires 0.0 < q <= TotalUnits(buy.depth) && q <= TotalUnits(sell.depth)
    ensures NetProfit(buy, sell, q)
         == UnitCost(sell.depth, q) - Share(Worth(q, sell.rules.price), sell.feeRate)
            - UnitCost(buy.depth, q) - Share(Worth(q, buy.rules.price), buy.feeRate)
  {
    hide Share, Worth, SlippageOf;
    SlippageIsTheWalk(buy, true, q);
    SlippageIsTheWalk(sell, false, q);
  }

  lemma SlippageNonNegative(leg: LegSnapshot, q: real)
    ensures 0.0 <= SlippageOf(leg, q)
  {
    var price, filled := leg.rules.price, UnitsFilled(leg.depth, q);
    if 0.0 < filled && 0.0 < price {
      QuotientBound(Abs(UnitCost(leg.depth, q) / filled - price), price, 0.0);
    }
  }

  /** Depth that falls short counts as full slippage exactly when some of it is visible. */
  lemma ShortDepthCountsIff(leg: LegSnapshot, q: real)
    requires 0.0 < leg.rules.price && ValidBook(leg.depth) && 0.0 <= q && UnitsFilled(leg.depth, q) < q
    ensures 100.0 <= SlippageOf(leg, q) <==> 0.0 < TotalUnits(leg.depth)
  {
    UnitsFilledIsMin(leg.depth, q);
  }

  /** Short depth that is visible counts as full slippage, or as the walk's own when that is more. */
  lemma ShortSlippageIs(leg: LegSnapshot, q: real)
    requires 0.0 < leg.rules.price && ValidBook(leg.depth) && 0.0 <= q && 0.0 < TotalUnits(leg.depth) < q
    ensures var average := UnitCost(leg.depth, q) / TotalUnits(leg.depth);
            var distance := if average < leg.rules.price then leg.rules.price - average else average - leg.rules.price;
            SlippageOf(leg, q) == Max(100.0, distance / leg.rules.price * 100.0)
  {
    UnitsFilledIsMin(leg.depth, q);
    hide UnitCost, UnitsFilled, TotalUnits;
  }

  lemma ShareBounds(notional: real, fee: real, slippage: real)
    requires 0.0 <= notional && 0.0 <= fee && 0.0 <= slippage
    ensures 0.0 <= Share(notional, fee) && 0.0 <= Share(notional, slippage / 100.0)
    ensures 100.0 <= slippage ==> notional <= Share(notional, slippage / 100.0)
  {
    MulMono(0.0, fee, notional);
    MulMono(0.0, slippage / 100.0, notional);
    if 100.0 <= slippage { MulMono(1.0, slippage / 100.0, notional); }
  }

  /** Each part of the net profit has the sign it should. */
  lemma LegTerms(leg: LegSnapshot, q: real)
    requires 0.0 < leg.rules.price && 0.0 < q && 0.0 <= leg.feeRate && ValidBook(leg.depth)
    ensures var notional := Worth(q, leg.rules.price);
            var slippage := Share(notional, SlippageOf(leg, q) / 100.0);
            && 0.0 < notional && 0.0 <= Share(notional, leg.feeRate) && 0.0 <= slippage
            && (0.0 < TotalUnits(leg.depth) < q ==> notional <= slippage)
  {
    var notional := Worth(q, leg.rules.price);
    MulStrict(0.0, q, leg.rules.price);
    SlippageNonNegative(leg, q);
    UnitsFilledIsMin(leg.depth, q);
    if 0.0 < TotalUnits(leg.depth) < q { ShortDepthCountsIff(leg, q); }
    hide SlippageOf, UnitsFilled, TotalUnits;
    ShareBounds(notional, leg.feeRate, SlippageOf(leg, q));
  }

  /**
   An executable quote sells above its buy price; visible sell depth holds the
   whole quantity, and visible buy depth does unless the sell price is more than
   twice the buy price.
   */
  lemma ExecutableNeedsDepth(buy: LegSnapshot, sell: LegSnapshot, requested: real, cap: real)
    requires Executable(buy, sell, requested, cap) && 0.0 <= buy.feeRate && 0.0 <= sell.feeRate
    requires ValidBook(buy.depth) && ValidBook(sell.depth)
    ensures var q := QuantityOf(buy, sell, requested, cap);
            && 0.0 < buy.rules.price < sell.rules.price
            && !(0.0 < TotalUnits(sell.depth) < q)
            && (0.0 < TotalUnits(buy.depth) < q ==> 2.0 * buy.rules.price < sell.rules.price)
  {
    var q := QuantityOf(buy, sell, requested, cap);
    ExecutableQuoteIsSound(buy.rules, sell.rules, requested, cap, NetProfit(buy, sell, q));
    LegTerms(buy, q);
    LegTerms(sell, q);
    WorthOrder(q, buy.rules.price, sell.rules.price);
    hide Share, Worth, SlippageOf, TotalUnits, ExecutableQuantity, LotAndNotionalPass;
  }

  lemma WorthOrder(q: real, low: real, high: real)
    requires 0.0 < q
    ensures Worth(q, low) < Worth(q, high) ==> low < high
    ensures Worth(q, low) + Worth(q, low) < Worth(q, high) ==> 2.0 * low < high
  {
    CompareScaled(high, low, q);
    CompareScaled(high, 2.0 * low, q);
  }

  /** A quote whose sell leg shows no depth at all is executable. */
  lemma EmptyDepthExample(buy: LegSnapshot, sell: LegSnapshot)
    requires buy == LegSnapshot(LegRules(1.0, 1.0, 1.0, Some(5.0), true), [], 0.001)
    requires sell == LegSnapshot(LegRules(2.0, 1.0, 1.0, Some(5.0), true), [], 0.001)
    ensures Executable(buy, sell, 10.0, 10.0) && QuantityOf(buy, sell, 10.0, 10.0) == 5.0
  {
    assert Steps(5.0, 1.0) == 5;
    assert QuantityOf(buy, sell, 10.0, 10.0) == 5.0;
    assert SlippageOf(buy, 5.0) == SlippageOf(sell, 5.0) == 0.0;
    assert Share(5.0, 0.001) == 0.005 && Share(10.0, 0.001) == 0.01 && Share(5.0, 0.0) == Share(10.0, 0.0) == 0.0;
  }

  // ----- The purchase that follows the quote.

  /** Base units held after an order for `notional` fills at `price` and pays its fee in the base asset. */
  function OrderNet(notional: real, price: real, feeRate: real): real
    requires price != 0.0
  {
    NetBaseQuantityAfterFee(notional / price, Some("BASE"), Share(notional / price, feeRate), "BASE")
  }

  /** The order placed for the requested notional leaves at least the quoted quantity. */
  predicate Covers(buy: LegRules, sell: LegRules, notional: real, price: real, feeRate: real)
    requires price != 0.0
  {
    ExecutableQuantity(buy, sell, notional, notional) <= OrderNet(notional, price, feeRate)
  }

  /** The next lot above `held` is out of the tolerated reach of the request `x`. */
  predicate NextLotOutOfReach(x: real, held: real, step: real) {
    if step <= 0.0 then x <= held
    else Tolerated(x, step) < Multiple((held / step).Floor + 1, step)
  }

  lemma RoundAtMostIff(x: real, held: real, step: real)
    ensures RoundDownToStep(x, step) <= held <==> NextLotOutOfReach(x, held, step)
  {
    if 0.0 < step {
      var n := (held / step).Floor;
      StepsCount(x, step, n + 1);
      AtMostFloor(Steps(x, step), held / step);
      QuotientBound(held, step, Steps(x, step) as real);
    }
  }

  /** Both legs' requests, before rounding. */
  function SharedRequest(buy: LegRules, sell: LegRules, notional: real): real {
    Min(RequestedAt(notional, buy.price), RequestedAt(notional, sell.price))
  }

  /**
   The order covers the quote exactly when, on one of the legs, the next lot
   above what it leaves is out of reach of what the notional requests there.
   */
  lemma OrderCoversQuoteIff(buy: LegRules, sell: LegRules, notional: real, price: real, feeRate: real)
    requires 0.0 < price && 0.0 <= notional
    ensures var x, held := SharedRequest(buy, sell, notional), OrderNet(notional, price, feeRate);
            Covers(buy, sell, notional, price, feeRate)
            <==> NextLotOutOfReach(x, held, buy.step) || NextLotOutOfReach(x, held, sell.step)
  {
    var x, held := SharedRequest(buy, sell, notional), OrderNet(notional, price, feeRate);
    RoundAtMostIff(x, held, buy.step);
    RoundAtMostIff(x, held, sell.step);
    hide RoundDownToStep, NextLotOutOfReach, OrderNet;
    assert DesiredUsd(notional, notional) == notional;
  }

  /** At these prices the order covers every quote, whatever the notional and the lots. */
  ghost predicate AlwaysCovers(ask: real, bid: real, price: real, feeRate: real)
    requires price != 0.0
  {
    forall buy: LegRules, sell: LegRules, notional: real ::
      buy.price == ask && sell.price == bid && 0.0 < notional ==> Covers(buy, sell, notional, price, feeRate)
  }

  /** Share of the better quoted price that survives the fee and the rounding tolerance. */
  function CoveringPrice(ask: real, bid: real, feeRate: real): real {
    (1.0 - STEP_EPSILON) * (1.0 - feeRate) * Max(ask, bid)
  }

  /** For all notionals and lots, the order covers the quote exactly up to that fill price. */
  lemma OrderAlwaysCoversIff(ask: real, bid: real, price: real, feeRate: real)
    requires 0.0 < ask && 0.0 < bid && 0.0 < price && 0.0 <= feeRate <= 1.0
    ensures AlwaysCovers(ask, bid, price, feeRate) <==> price <= CoveringPrice(ask, bid, feeRate)
  {
    if price <= CoveringPrice(ask, bid, feeRate) {
      forall buy: LegRules, sell: LegRules, notional: real
        | buy.price == ask && sell.price == bid && 0.0 < notional
        ensures Covers(buy, sell, notional, price, feeRate)
      {
        CheapFillCovers(buy, sell, notional, price, feeRate);
      }
    } else {
      var leg := LegRules(ask, 0.0, 1.0, None, true);
      var other := leg.(price := bid);
      var notional := (1.0 - STEP_EPSILON) * Max(ask, bid);
      OneLotIsMissed(leg, other, notional, price, feeRate);
      assert !Covers(leg, other, notional, price, feeRate);
    }
  }

  /** The request at the better price is the smaller one. */
  lemma SharedRequestIs(buy: LegRules, sell: LegRules, notional: real)
    requires 0.0 < buy.price && 0.0 < sell.price && 0.0 < notional
    ensures var x := SharedRequest(buy, sell, notional);
            x == notional / Max(buy.price, sell.price) && x * Max(buy.price, sell.price) == notional && 0.0 < x
  {
    var a, b := buy.price, sell.price;
    DivMul(notional, a);
    DivMul(notional, b);
    DivSign(notional, a);
    DivSign(notional, b);
    CompareScaled(a, b, notional);
    CompareScaled(b, a, notional);
    DivLeq(notional, a, notional, b);
    DivLeq(notional, b, notional, a);
  }

  lemma OrderNetIs(notional: real, price: real, feeRate: real)
    requires 0.0 < price && 0.0 < notional && 0.0 <= feeRate <= 1.0
    ensures OrderNet(notional, price, feeRate) * price == notional * (1.0 - feeRate)
    ensures 0.0 <= OrderNet(notional, price, feeRate)
  {
    var gross := notional / price;
    DivMul(notional, price);
    DivSign(notional, price);
    MulMono(feeRate, 1.0, gross);
    assert (gross - gross * feeRate) * price == gross * price * (1.0 - feeRate);
  }

  lemma CheapFillCovers(buy: LegRules, sell: LegRules, notional: real, price: real, feeRate: real)
    requires 0.0 < buy.price && 0.0 < sell.price && 0.0 < price && 0.0 < notional && 0.0 <= feeRate <= 1.0
    requires price <= CoveringPrice(buy.price, sell.price, feeRate)
    ensures Covers(buy, sell, notional, price, feeRate)
  {
    var x, top := SharedRequest(buy, sell, notional), Max(buy.price, sell.price);
    SharedRequestIs(buy, sell, notional);
    OrderNetIs(notional, price, feeRate);
    LotAboveRequest(x, buy.step);
    assert DesiredUsd(notional, notional) == notional;
    var r := RoundDownToStep(x, buy.step);
    hide RoundDownToStep, OrderNet, SharedRequest;
    if 0.0 < r {
      CoverAlgebra(r, x, top, notional, price, feeRate, OrderNet(notional, price, feeRate));
    }
  }

  /** Rounding a positive request lifts it by no more than the tolerance of one lot. */
  lemma LotAboveRequest(x: real, step: real)
    requires 0.0 < x
    ensures 0.0 < RoundDownToStep(x, step) ==> (1.0 - STEP_EPSILON) * RoundDownToStep(x, step) <= x
  {
    RoundDownIsGreatest(x, step);
    if 0.0 < step && 0.0 < RoundDownToStep(x, step) {
      MultipleMono(Steps(x, step), 0, step);
      MultipleMono(1, Steps(x, step), step);
      assert Multiple(0, step) == 0.0 && Multiple(1, step) == step;
    }
  }

  lemma CoverAlgebra(r: real, x: real, top: real, notional: real, price: real, feeRate: real, held: real)
    requires 0.0 < r && (1.0 - STEP_EPSILON) * r <= x && 0.0 < top && x * top == notional
    requires price <= (1.0 - STEP_EPSILON) * (1.0 - feeRate) * top && 0.0 < price && 0.0 <= feeRate <= 1.0
    requires held * price == notional * (1.0 - feeRate)
    ensures r <= held
  {
    var kept := (1.0 - feeRate) * top;
    MulMono(0.0, top, 1.0 - feeRate);
    MulMono(price, (1.0 - STEP_EPSILON) * kept, r);
    MulMono((1.0 - STEP_EPSILON) * r, x, kept);
    assert r * price <= x * kept == held * price;
    CompareScaled(r, held, price);
  }

  lemma OneLotIsMissed(buy: LegRules, sell: LegRules, notional: real, price: real, feeRate: real)
    requires 0.0 < buy.price && 0.0 < sell.price && 0.0 < price && 0.0 <= feeRate <= 1.0
    requires buy.step == sell.step == 1.0 && notional == (1.0 - STEP_EPSILON) * Max(buy.price, sell.price)
    requires CoveringPrice(buy.price, sell.price, feeRate) < price
    ensures 0.0 < notional && !Covers(buy, sell, notional, price, feeRate)
  {
    var x, top := SharedRequest(buy, sell, notional), Max(buy.price, sell.price);
    SharedRequestIs(buy, sell, notional);
    DivMul(notional, top);
    CompareScaled(x, 1.0 - STEP_EPSILON, top);
    CompareScaled(1.0 - STEP_EPSILON, x, top);
    OneStep(x, 1.0);
    OrderNetIs(notional, price, feeRate);
    assert DesiredUsd(notional, notional) == notional;
    var held := OrderNet(notional, price, feeRate);
    hide OrderNet, RoundDownToStep;
    CompareScaled(1.0, held, price);
  }

  /** An executable quote whose order fills at the sell bid or above is not covered for every size. */
  lemma ExecutableQuoteOutgrowsItsOrder(buy: LegSnapshot, sell: LegSnapshot, requested: real, cap: real, price: real)
    requires Executable(buy, sell, requested, cap) && ValidBook(buy.depth) && ValidBook(sell.depth)
    requires 0.0 <= buy.feeRate && 0.0 <= sell.feeRate <= 1.0 && sell.rules.price <= price
    ensures 0.0 < price && !AlwaysCovers(buy.rules.price, sell.rules.price, price, sell.feeRate)
  {
    ExecutableNeedsDepth(buy, sell, requested, cap);
    hide Executable, AlwaysCovers, TotalUnits;
    var bid, kept := sell.rules.price, (1.0 - STEP_EPSILON) * (1.0 - sell.feeRate);
    OrderAlwaysCoversIff(buy.rules.price, bid, price, sell.feeRate);
    MulStrict(kept, 1.0, bid);
  }

  /** An executable, profitable quote of five units whose order leaves less than four. */
  lemma OrderFallsShort(buy: LegSnapshot, sell: LegSnapshot)
    requires buy == LegSnapshot(LegRules(1.0, 1.0, 1.0, Some(5.0), true), [Level(1.0, 100.0)], 0.001)
    requires sell == LegSnapshot(LegRules(2.0, 1.0, 1.0, Some(5.0), true), [Level(2.0, 100.0)], 0.001)
    ensures buy.Regular(true) && sell.Regular(false)
    ensures Executable(buy, sell, 10.0, 10.0) && QuantityOf(buy, sell, 10.0, 10.0) == 5.0
    ensures OrderNet(10.0, 2.5, 0.001) == 3.996 && !Covers(buy.rules, sell.rules, 10.0, 2.5, 0.001)
  {
    assert Steps(5.0, 1.0) == 5;
    assert QuantityOf(buy, sell, 10.0, 10.0) == 5.0;
    assert TotalUnits(buy.depth[1..]) == TotalUnits(sell.depth[1..]) == 0.0;
    assert UnitCost(buy.depth, 5.0) == 5.0 && UnitCost(sell.depth, 5.0) == 10.0;
    NetProfitIsTheWalk(buy, sell, 5.0);
    assert Share(4.0, 0.001) == 0.004;
  }
}
