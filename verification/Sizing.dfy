/**
 Quantities that both exchanges accept: rounding to a lot step
 (app/execution/binance_filters.py), the sizing part of the dual-leg quote
 (app/execution/dual_leg_quote.py), and the quantities an inventory purchase
 works with (app/execution/inventory_constitution_executor.py).
 */
module Sizing {
  import opened RealMath
  import opened Fees

  const STEP_EPSILON := 0.000000001

  /** Whole steps in `value`, forgiving a shortfall of a billionth of a step. */
  function Steps(value: real, step: real): int
    requires 0.0 < step
  {
    (value / step + STEP_EPSILON).Floor
  }

  function Multiple(k: int, step: real): real {
    k as real * step
  }

  function RoundDownToStep(value: real, step: real): real {
    if step <= 0.0 then value else Multiple(Steps(value, step), step)
  }

  /** How far above the value the rounding may land. */
  function Tolerance(step: real): real {
    if step <= 0.0 then 0.0 else STEP_EPSILON * step
  }

  function Tolerated(value: real, step: real): real {
    value + Tolerance(step)
  }

  ghost predicate IsMultiple(x: real, step: real) {
    exists k: int :: x == Multiple(k, step)
  }

  /** A quantity the lot rule allows; a step of zero or less allows every quantity. */
  ghost predicate OnLot(x: real, step: real) {
    step <= 0.0 || IsMultiple(x, step)
  }

  lemma AtMostFloor(m: int, y: real)
    ensures m as real <= y <==> m <= y.Floor
  {
  }

  /** The multiples of `step` at or below the tolerated value are exactly the first `Steps`. */
  lemma StepsCount(value: real, step: real, m: int)
    requires 0.0 < step
    ensures Multiple(m, step) <= Tolerated(value, step) <==> m <= Steps(value, step)
  {
    var y := value / step + STEP_EPSILON;
    AtMostFloor(m, y);
    DivMul(value, step);
    Distribute(step, value / step, STEP_EPSILON);
    CompareScaled(m as real, y, step);
  }

  lemma CompareScaled(x: real, y: real, k: real)
    requires 0.0 < k
    ensures x * k <= y * k <==> x <= y
  {
    if x <= y { MulMono(x, y, k); } else { MulStrict(y, x, k); }
  }

  lemma MultipleMono(j: int, k: int, step: real)
    requires 0.0 < step
    ensures Multiple(j, step) <= Multiple(k, step) <==> j <= k
  {
    CompareScaled(j as real, k as real, step);
  }

  lemma NextMultiple(k: int, step: real)
    ensures Multiple(k + 1, step) == Multiple(k, step) + step
  {
    Distribute(step, k as real, 1.0);
    assert (k + 1) as real == k as real + 1.0;
  }

  /** Rounding yields the greatest lot within tolerance, so less than a step is given up. */
  lemma RoundDownIsGreatest(value: real, step: real)
    ensures var r := RoundDownToStep(value, step);
            && OnLot(r, step) && r <= Tolerated(value, step)
            && (0.0 < step ==> Tolerated(value, step) < r + step)
            && forall m :: OnLot(m, step) && m <= Tolerated(value, step) ==> m <= r
  {
    if 0.0 < step {
      var k := Steps(value, step);
      StepsCount(value, step, k);
      StepsCount(value, step, k + 1);
      NextMultiple(k, step);
      forall m | OnLot(m, step) && m <= Tolerated(value, step) ensures m <= Multiple(k, step) {
        var j: int :| m == Multiple(j, step);
        StepsCount(value, step, j);
        MultipleMono(j, k, step);
      }
    }
  }

  lemma RoundDownMonotone(x: real, y: real, step: real)
    requires x <= y
    ensures RoundDownToStep(x, step) <= RoundDownToStep(y, step)
  {
    if 0.0 < step {
      StepsCount(x, step, Steps(x, step));
      StepsCount(y, step, Steps(x, step));
      MultipleMono(Steps(x, step), Steps(y, step), step);
    }
  }

  lemma MultipleSteps(k: int, step: real)
    requires 0.0 < step
    ensures Steps(Multiple(k, step), step) == k
  {
    DivMul(k as real, step);
    assert Multiple(k, step) / step == k as real;
  }

  lemma RoundDownIdempotent(value: real, step: real)
    ensures RoundDownToStep(RoundDownToStep(value, step), step) == RoundDownToStep(value, step)
  {
    if 0.0 < step {
      MultipleSteps(Steps(value, step), step);
    }
  }

  /** "Never up" fails exactly when the value is within a billionth of a step below a multiple. */
  lemma RoundsUpIff(value: real, step: real)
    requires 0.0 < step
    ensures value < RoundDownToStep(value, step) <==>
              1.0 - STEP_EPSILON <= value / step - (value / step).Floor as real
  {
    FloorGap(value / step, STEP_EPSILON);
    QuotientBound(value, step, Steps(value, step) as real);
  }

  lemma FloorIs(x: real, k: int)
    requires k as real <= x < k as real + 1.0
    ensures x.Floor == k
  {
  }

  lemma FloorGap(x: real, eps: real)
    requires 0.0 < eps < 1.0
    ensures x < (x + eps).Floor as real <==> 1.0 - eps <= x - x.Floor as real
  {
    var n := x.Floor;
    FloorIs(x + eps, if 1.0 - eps <= x - n as real then n + 1 else n);
  }

  /** For instance, a ten-billionth short of ten steps rounds up to ten. */
  lemma RoundsUpExample()
    ensures RoundDownToStep(9.9999999999, 1.0) == 10.0
  {
    assert 9.9999999999 / 1.0 == 9.9999999999;
    assert (9.9999999999 + STEP_EPSILON).Floor == 10;
  }

  // ----- Dual-leg sizing.

  datatype LegRules = LegRules(price: real, minQuantity: real, step: real, minNotional: Option<real>, tradable: bool)

  function RequestedAt(sizeUsd: real, price: real): real {
    if 0.0 < price then sizeUsd / price else 0.0
  }

  function DesiredUsd(requested: real, cap: real): real {
    Max(0.0, Min(requested, cap))
  }

  function ExecutableQuantity(buy: LegRules, sell: LegRules, requested: real, cap: real): real {
    var usd := DesiredUsd(requested, cap);
    var quantity := Min(RequestedAt(usd, buy.price), RequestedAt(usd, sell.price));
    SharedLot(quantity, buy.step, sell.step)
  }

  /** The smaller of the two roundings. */
  function SharedLot(quantity: real, buyStep: real, sellStep: real): real {
    Min(RoundDownToStep(quantity, buyStep), RoundDownToStep(quantity, sellStep))
  }

  predicate LotAndNotionalPass(leg: LegRules, quantity: real) {
    && 0.0 < quantity && leg.minQuantity <= quantity
    && (leg.minNotional.Some? ==> leg.minNotional.value <= quantity * leg.price)
  }

  /** The executable flag; the net profit after depth is an input. */
  function QuoteExecutable(buy: LegRules, sell: LegRules, requested: real, cap: real, netProfit: real): bool {
    var quantity := ExecutableQuantity(buy, sell, requested, cap);
    && buy.tradable && sell.tradable
    && LotAndNotionalPass(buy, quantity) && LotAndNotionalPass(sell, quantity)
    && 0.0 < netProfit
  }

  lemma RoundDownZero(step: real)
    ensures RoundDownToStep(0.0, step) == 0.0
  {
    if 0.0 < step {
      assert 0.0 / step == 0.0;
    }
  }

  lemma RoundDownNonNegative(x: real, step: real)
    requires 0.0 <= x
    ensures 0.0 <= RoundDownToStep(x, step)
  {
    RoundDownZero(step);
    RoundDownMonotone(0.0, x, step);
  }

  // ----- One quantity for both legs.

  /** The shared ceiling of both legs, rounded to the coarser step. */
  function CommonQuantity(quoteQuantity: real, available: real, buyStep: real, sellStep: real): real {
    var raw, step := Min(quoteQuantity, available), Max(buyStep, sellStep);
    if raw <= 0.0 then 0.0 else if 0.0 < step then RoundDownToStep(raw, step) else raw
  }

  /** The greatest lot of the coarser step that both the quote and the holding cover, within tolerance. */
  lemma CommonQuantityIsGreatest(quoteQuantity: real, available: real, buyStep: real, sellStep: real)
    requires 0.0 < Min(quoteQuantity, available)
    ensures var q, step := CommonQuantity(quoteQuantity, available, buyStep, sellStep), Max(buyStep, sellStep);
            && OnLot(q, step) && 0.0 <= q
            && q <= Tolerated(quoteQuantity, step) && q <= Tolerated(available, step)
            && forall m :: OnLot(m, step) && m <= Tolerated(quoteQuantity, step) && m <= Tolerated(available, step)
                           ==> m <= q
  {
    RoundDownIsGreatest(Min(quoteQuantity, available), Max(buyStep, sellStep));
    RoundDownNonNegative(Min(quoteQuantity, available), Max(buyStep, sellStep));
  }

  lemma MultipleOfMultiple(j: int, k: int, step: real)
    ensures Multiple(j, Multiple(k, step)) == Multiple(j * k, step)
  {
    assert (j * k) as real == j as real * k as real;
  }

  /**
   The coarser step is documented as valid on both exchanges. For all inputs it
   is exactly when the coarser step is a whole number of finer steps, or the
   finer leg has no step at all.
   */
  lemma CommonQuantityFitsBothIff(buyStep: real, sellStep: real)
    ensures (forall q, a :: FitsBoth(CommonQuantity(q, a, buyStep, sellStep), buyStep, sellStep))
            <==> OnLot(Max(buyStep, sellStep), Min(buyStep, sellStep))
  {
    var coarse, fine := Max(buyStep, sellStep), Min(buyStep, sellStep);
    if OnLot(coarse, fine) {
      forall q, a ensures FitsBoth(CommonQuantity(q, a, buyStep, sellStep), buyStep, sellStep) {
        CommonFits(q, a, buyStep, sellStep);
      }
    } else {
      assert Multiple(1, coarse) == coarse;
      MultipleSteps(1, coarse);
      assert CommonQuantity(coarse, coarse, buyStep, sellStep) == coarse;
    }
  }

  lemma CommonFits(q: real, a: real, buyStep: real, sellStep: real)
    requires OnLot(Max(buyStep, sellStep), Min(buyStep, sellStep))
    ensures FitsBoth(CommonQuantity(q, a, buyStep, sellStep), buyStep, sellStep)
  {
    var coarse, fine, c := Max(buyStep, sellStep), Min(buyStep, sellStep), CommonQuantity(q, a, buyStep, sellStep);
    if 0.0 < coarse {
      var j := if Min(q, a) <= 0.0 then 0 else Steps(Min(q, a), coarse);
      assert Multiple(0, coarse) == 0.0;
      assert c == Multiple(j, coarse);
      assert IsMultiple(c, coarse);
      if 0.0 < fine {
        var k: int :| coarse == Multiple(k, fine);
        MultipleOfMultiple(j, k, fine);
        assert IsMultiple(c, fine);
      }
    }
  }

  /** Steps 3 and 2: the common quantity 3 is no multiple of 2. */
  lemma CommonQuantityMissesFinerStep()
    ensures CommonQuantity(4.0, 4.0, 3.0, 2.0) == 3.0 && !IsMultiple(3.0, 2.0)
  {
    assert (4.0 / 3.0 + STEP_EPSILON).Floor == 1;
    forall k: int ensures 3.0 != Multiple(k, 2.0) {
      assert Multiple(k, 2.0) == (2 * k) as real;
    }
  }

  /** Every check that makes a quote executable. */
  lemma QuoteExecutableIff(buy: LegRules, sell: LegRules, requested: real, cap: real, netProfit: real)
    ensures var q := ExecutableQuantity(buy, sell, requested, cap);
            QuoteExecutable(buy, sell, requested, cap, netProfit)
            <==> && buy.tradable && sell.tradable
                 && 0.0 < q && buy.minQuantity <= q && sell.minQuantity <= q
                 && (buy.minNotional.None? || buy.minNotional.value <= q * buy.price)
                 && (sell.minNotional.None? || sell.minNotional.value <= q * sell.price)
                 && 0.0 < netProfit
  {
    hide ExecutableQuantity;
  }

  /**
   What is rounded: the request within the cap and never negative, at the higher
   of the two prices; without a price nothing is executable.
   */
  lemma ExecutableQuantityIs(buy: LegRules, sell: LegRules, requested: real, cap: real)
    ensures var usd := if requested < 0.0 || cap < 0.0 then 0.0 else if requested <= cap then requested else cap;
            ExecutableQuantity(buy, sell, requested, cap)
            == if buy.price <= 0.0 || sell.price <= 0.0 then 0.0
               else SharedLot(usd / (if buy.price <= sell.price then sell.price else buy.price), buy.step, sell.step)
  {
    var usd := DesiredUsd(requested, cap);
    RoundDownZero(buy.step);
    RoundDownZero(sell.step);
    hide RoundDownToStep;
    if 0.0 < buy.price { QuotientBound(usd, buy.price, 0.0); }
    if 0.0 < sell.price { QuotientBound(usd, sell.price, 0.0); }
    if 0.0 < buy.price && 0.0 < sell.price {
      HigherPriceBuysLess(usd, buy.price, sell.price);
      HigherPriceBuysLess(usd, sell.price, buy.price);
    }
  }

  lemma HigherPriceBuysLess(usd: real, low: real, high: real)
    requires 0.0 <= usd && 0.0 < low && 0.0 < high
    ensures low <= high ==> usd / high <= usd / low
  {
    if low <= high {
      MulMono(low, high, usd);
      DivLeq(usd, high, usd, low);
    }
  }

  // ----- What an executable quote guarantees.

  /** Both steps divide `m`, and one leg's request pays for it. */
  ghost predicate CommonLot(m: real, buy: LegRules, sell: LegRules, usd: real) {
    && OnLot(m, buy.step) && OnLot(m, sell.step)
    && m <= RequestedAt(usd, buy.price) && m <= RequestedAt(usd, sell.price)
  }

  /** `q` units at `price` cost at most `usd`, give or take a billionth of a step. */
  predicate CostsWithin(q: real, price: real, usd: real, step: real) {
    q * price <= usd + Tolerance(step) * price
  }

  /**
   An executable quote costs no more than the desired size on either leg, up to
   the rounding tolerance, and no lot that fits both steps and the desired size
   is larger.
   */
  lemma ExecutableQuoteIsSound(buy: LegRules, sell: LegRules, requested: real, cap: real, netProfit: real)
    requires QuoteExecutable(buy, sell, requested, cap, netProfit)
    ensures var q, usd := ExecutableQuantity(buy, sell, requested, cap), DesiredUsd(requested, cap);
            && 0.0 < q && 0.0 < usd <= requested && usd <= cap && 0.0 < buy.price && 0.0 < sell.price
            && CostsWithin(q, buy.price, usd, buy.step) && CostsWithin(q, sell.price, usd, sell.step)
            && (OnLot(q, buy.step) || OnLot(q, sell.step))
            && forall m :: CommonLot(m, buy, sell, usd) ==> m <= q
  {
    var q, usd := ExecutableQuantity(buy, sell, requested, cap), DesiredUsd(requested, cap);
    var x := Min(RequestedAt(usd, buy.price), RequestedAt(usd, sell.price));
    assert 0.0 < q;
    SharedLotIsGreatest(x, buy.step, sell.step);
    hide SharedLot, RequestedAt, OnLot, Tolerated, CostsWithin, LotAndNotionalPass, QuoteExecutable;
    ToleratedMono(x, RequestedAt(usd, buy.price), buy.step);
    ToleratedMono(x, RequestedAt(usd, sell.price), sell.step);
    WithinBudget(q, usd, buy.price, buy.step);
    WithinBudget(q, usd, sell.price, sell.step);
  }

  lemma ToleratedMono(x: real, y: real, step: real)
    requires x <= y
    ensures Tolerated(x, step) <= Tolerated(y, step)
  {
  }

  /** No lot of both steps within the request exceeds the shared lot. */
  lemma SharedLotIsGreatest(x: real, buyStep: real, sellStep: real)
    ensures var q := SharedLot(x, buyStep, sellStep);
            && q <= Tolerated(x, buyStep) && q <= Tolerated(x, sellStep)
            && (0.0 < q ==> 0.0 < x)
            && (OnLot(q, buyStep) || OnLot(q, sellStep))
            && forall m :: OnLot(m, buyStep) && OnLot(m, sellStep) && m <= x ==> m <= q
  {
    RoundDownIsGreatest(x, buyStep);
    RoundDownIsGreatest(x, sellStep);
    if 0.0 < SharedLot(x, buyStep, sellStep) { PositiveLotNeedsARequest(x, buyStep, sellStep); }
  }

  lemma PositiveLotNeedsARequest(x: real, buyStep: real, sellStep: real)
    requires 0.0 < SharedLot(x, buyStep, sellStep)
    ensures 0.0 < x
  {
    if x <= 0.0 {
      RoundDownMonotone(x, 0.0, buyStep);
      RoundDownZero(buyStep);
    }
  }

  lemma WithinBudget(q: real, usd: real, price: real, step: real)
    requires 0.0 < RequestedAt(usd, price) && 0.0 <= usd && q <= Tolerated(RequestedAt(usd, price), step)
    ensures 0.0 < usd && 0.0 < price && CostsWithin(q, price, usd, step)
  {
    DivMul(usd, price);
    DivSign(usd, price);
    MulMono(q, Tolerated(usd / price, step), price);
    Distribute(price, usd / price, Tolerance(step));
  }

  /** A lot on each leg. */
  ghost predicate FitsBoth(q: real, buyStep: real, sellStep: real) {
    OnLot(q, buyStep) && OnLot(q, sellStep)
  }

  /**
   When the coarser step is a whole number of finer steps, the quoted quantity
   fits both legs exactly unless the coarser rounding forgave a shortfall that
   the finer rounding did not.
   */
  lemma NestedStepsFitIff(x: real, fine: real, k: int)
    requires 0.0 < fine && 2 <= k
    ensures FitsBoth(SharedLot(x, Multiple(k, fine), fine), Multiple(k, fine), fine)
            <==> RoundDownToStep(x, Multiple(k, fine)) <= RoundDownToStep(x, fine)
  {
    var coarse := Multiple(k, fine);
    var c, f := RoundDownToStep(x, coarse), RoundDownToStep(x, fine);
    MultipleMono(1, k, fine);
    MultipleMono(k, 1, fine);
    assert Multiple(1, fine) == fine;
    RoundDownIsGreatest(x, coarse);
    RoundDownIsGreatest(x, fine);
    if c <= f {
      MultipleOfMultiple(Steps(x, coarse), k, fine);
      assert IsMultiple(c, fine) && IsMultiple(c, coarse);
    } else if IsMultiple(f, coarse) {
      BetweenLots(c, f, x, coarse, fine);
      NoLotBetween(f, c, coarse);
      assert false;
    }
  }

  lemma BetweenLots(c: real, f: real, x: real, coarse: real, fine: real)
    requires 0.0 < fine < coarse && c <= Tolerated(x, coarse) && Tolerated(x, fine) < f + fine
    ensures c - coarse < f
  {
  }

  /** Two different multiples are at least a step apart. */
  lemma NoLotBetween(low: real, high: real, step: real)
    requires 0.0 < step && IsMultiple(low, step) && IsMultiple(high, step) && low < high
    ensures low <= high - step
  {
    var j: int :| low == Multiple(j, step);
    var k: int :| high == Multiple(k, step);
    MultipleMono(k, j, step);
    MultipleMono(j, k - 1, step);
    NextMultiple(k - 1, step);
  }

  /**
   The quoted quantity is described as rounded on both legs. Over all requests
   it is a lot on both exactly when the steps are equal or neither leg has one.
   */
  lemma QuoteFitsBothIff(buyStep: real, sellStep: real)
    ensures (forall x :: FitsBoth(SharedLot(x, buyStep, sellStep), buyStep, sellStep))
            <==> buyStep == sellStep || (buyStep <= 0.0 && sellStep <= 0.0)
  {
    if buyStep == sellStep {
      forall x ensures FitsBoth(SharedLot(x, buyStep, sellStep), buyStep, sellStep) {
        RoundDownIsGreatest(x, buyStep);
      }
    } else if 0.0 < buyStep || 0.0 < sellStep {
      var coarse, fine := Max(buyStep, sellStep), Min(buyStep, sellStep);
      UnequalStepsMiss(coarse, fine);
      var x :| !FitsBoth(SharedLot(x, coarse, fine), coarse, fine);
      assert !FitsBoth(SharedLot(x, buyStep, sellStep), buyStep, sellStep);
    }
  }

  /** A request a hair short of one coarse step: that leg rounds up to it, the finer one does not reach it. */
  lemma UnequalStepsMiss(coarse: real, fine: real)
    requires 0.0 < coarse && fine < coarse
    ensures exists x :: !FitsBoth(SharedLot(x, coarse, fine), coarse, fine)
  {
    var x := coarse - Tolerance(coarse);
    var f := RoundDownToStep(x, fine);
    OneStep(x, coarse);
    RoundDownIsGreatest(x, fine);
    if 0.0 < fine {
      StepsCount(x, fine, 1);
      MultipleMono(1, Steps(x, fine), fine);
      assert Multiple(1, fine) == fine;
    }
    assert 0.0 < f < coarse;
    if IsMultiple(f, coarse) {
      assert 0.0 == Multiple(0, coarse);
      NoLotBetween(0.0, f, coarse);
      assert false;
    }
    assert !FitsBoth(SharedLot(x, coarse, fine), coarse, fine);
  }

  /** The least quantity that the tolerance lifts to one whole step. */
  lemma OneStep(x: real, step: real)
    requires 0.0 < step && x == step - Tolerance(step)
    ensures RoundDownToStep(x, step) == step
  {
    StepsCount(x, step, 1);
    StepsCount(x, step, 2);
    NextMultiple(1, step);
    assert Multiple(1, step) == step;
  }

  // ----- Inventory quantities.

  /**
   Largest notional the held quantity supports: capped, and zero when below the
   exchange minimum. None where comparing with an unpublished minimum raises.
   */
  function ComputeMaxSafeNotional(available: real, sellPrice: real, cap: real, minNotional: Option<real>, step: real)
    : Option<real>
  {
    if available <= 0.0 || sellPrice <= 0.0 then Some(0.0)
    else if minNotional.None? then None
    else
      var tradable := if 0.0 < step then RoundDownToStep(available, step) else available;
      var safe := Min(Times(tradable, sellPrice), cap);
      Some(if safe < minNotional.value then 0.0 else safe)
  }

  /**
   When it raises, what a positive answer guarantees, and, under a real exchange
   minimum, when the answer is positive and that no larger notional would do.
   */
  lemma SafeNotionalIsSafe(available: real, sellPrice: real, cap: real, minNotional: Option<real>, step: real)
    ensures var r := ComputeMaxSafeNotional(available, sellPrice, cap, minNotional, step);
            var safe := r.GetOr(0.0);
            && (r.None? <==> minNotional.None? && 0.0 < available && 0.0 < sellPrice)
            && (0.0 < safe ==>
                  && minNotional.Some? && minNotional.value <= safe <= cap
                  && RequestedAt(safe, sellPrice) <= RoundDownToStep(available, step))
            && (minNotional.Some? && 0.0 < minNotional.value ==>
                  && 0.0 <= safe
                  && (0.0 < safe <==>
                        && 0.0 < available && 0.0 < sellPrice && minNotional.value <= cap
                        && RequestedAt(minNotional.value, sellPrice) <= RoundDownToStep(available, step))
                  && (0.0 < safe ==>
                        forall n :: n <= cap && RequestedAt(n, sellPrice) <= RoundDownToStep(available, step) ==>
                                      n <= safe))
  {
    hide RoundDownToStep, Times;
    if 0.0 < available && 0.0 < sellPrice && minNotional.Some? {
      NoStepNoRounding(available, step);
      var tradable := RoundDownToStep(available, step);
      var safe := Min(Times(tradable, sellPrice), cap);
      forall n ensures RequestedAt(n, sellPrice) <= tradable <==> n <= Times(tradable, sellPrice) {
        QuotientTimes(n, sellPrice, tradable);
      }
    }
  }

  /** Some positive notional is within the cap, meets the minimum and is covered by the rounded holding. */
  ghost predicate SomeNotionalFits(available: real, sellPrice: real, cap: real, minNotional: real, step: real) {
    exists n :: 0.0 < n && minNotional <= n <= cap && RequestedAt(n, sellPrice) <= RoundDownToStep(available, step)
  }

  lemma SafeNotionalPositiveIff(available: real, sellPrice: real, cap: real, minNotional: real, step: real)
    requires 0.0 < available && 0.0 < sellPrice
    ensures var r := ComputeMaxSafeNotional(available, sellPrice, cap, Some(minNotional), step);
            r.Some? && (0.0 < r.value <==> SomeNotionalFits(available, sellPrice, cap, minNotional, step))
  {
    hide RoundDownToStep, Times;
    NoStepNoRounding(available, step);
    var tradable := RoundDownToStep(available, step);
    var safe := Min(Times(tradable, sellPrice), cap);
    QuotientTimes(safe, sellPrice, tradable);
    forall n ensures RequestedAt(n, sellPrice) <= tradable <==> n <= Times(tradable, sellPrice) {
      QuotientTimes(n, sellPrice, tradable);
    }
    if 0.0 < safe && minNotional <= safe {
      assert RequestedAt(safe, sellPrice) <= tradable;
    }
  }

  lemma NoStepNoRounding(value: real, step: real)
    ensures step <= 0.0 ==> RoundDownToStep(value, step) == value
  {
  }

  /**
   Sizing round trip: a quote requested at the safe notional, at the same sell
   price and step, never sells more than the step-rounded quantity held.
   */
  lemma SafeNotionalRoundTrip(available: real, cap: real, buy: LegRules, sell: LegRules, quoteCap: real)
    ensures var r := ComputeMaxSafeNotional(available, sell.price, cap, sell.minNotional, sell.step);
            r.Some? ==>
              ExecutableQuantity(buy, sell, r.value, quoteCap) <= Max(0.0, RoundDownToStep(available, sell.step))
  {
    var r := ComputeMaxSafeNotional(available, sell.price, cap, sell.minNotional, sell.step);
    if r.Some? {
      var desired := DesiredUsd(r.value, quoteCap);
      var held := Max(0.0, RoundDownToStep(available, sell.step));
      var quantity := Min(RequestedAt(desired, buy.price), RequestedAt(desired, sell.price));
      assert RequestedAt(desired, sell.price) <= held by {
        DesiredFitsHolding(available, cap, sell, desired, held);
      }
      RoundDownMonotone(quantity, held, sell.step);
      RoundDownIdempotent(available, sell.step);
      RoundDownZero(sell.step);
    }
  }

  lemma DesiredFitsHolding(available: real, cap: real, sell: LegRules, desired: real, held: real)
    requires held == Max(0.0, RoundDownToStep(available, sell.step))
    requires ComputeMaxSafeNotional(available, sell.price, cap, sell.minNotional, sell.step).Some?
    requires desired
          <= Max(0.0, ComputeMaxSafeNotional(available, sell.price, cap, sell.minNotional, sell.step).value)
    ensures RequestedAt(desired, sell.price) <= held
  {
    hide RoundDownToStep, Times;
    if 0.0 < sell.price {
      NoStepNoRounding(available, sell.step);
      var tradable := RoundDownToStep(available, sell.step);
      QuotientTimes(desired, sell.price, held);
      TimesMono(tradable, held, sell.price);
      TimesMono(0.0, held, sell.price);
      TimesZero(sell.price);
    }
  }

  function Ceil(x: real): int {
    -((-x).Floor)
  }

  const MIN_KEPT_SHARE := 0.000000001

  function UnroundedRequirement(bare: real, feeRate: real, margin: real): real {
    bare / Max(MIN_KEPT_SHARE, 1.0 - feeRate) * (1.0 + margin)
  }

  /** Quantity to buy so that `bare` is covered after the fee and a margin. */
  function ComputeRequiredQuantity(bare: real, feeRate: real, step: real, margin: real): real {
    if bare <= 0.0 then 0.0
    else
      var required := UnroundedRequirement(bare, feeRate, margin);
      if step <= 0.0 then required else Multiple(Ceil(required / step), step)
  }

  function NetBaseQuantityAfterFee(gross: real, feeAsset: Option<string>, feeAmount: real, baseAsset: string): real {
    if feeAsset == Some(baseAsset) then Max(0.0, gross - feeAmount) else gross
  }

  /** Only a fee in the base asset itself reduces what is held, and never below nothing. */
  lemma NetIsGrossLessBaseFee(gross: real, feeAsset: Option<string>, feeAmount: real, baseAsset: string)
    ensures var net := NetBaseQuantityAfterFee(gross, feeAsset, feeAmount, baseAsset);
            && (feeAsset != Some(baseAsset) ==> net == gross)
            && (feeAsset == Some(baseAsset) && feeAmount <= gross ==> net + feeAmount == gross)
            && (feeAsset == Some(baseAsset) && gross < feeAmount ==> net == 0.0)
  {
  }

  lemma CeilBounds(required: real, step: real)
    requires 0.0 < step
    ensures required <= Multiple(Ceil(required / step), step) < required + step
  {
    var c := Ceil(required / step) as real;
    QuotientBound(required, step, c);
    QuotientBound(required, step, c - 1.0);
    assert (c - 1.0) * step == c * step - step;
  }

  lemma CeilOfWhole(k: int)
    ensures Ceil(k as real) == k
  {
    assert -(k as real) == (-k) as real;
  }

  lemma RequirementKeeps(bare: real, feeRate: real, margin: real)
    requires 0.0 < bare && 0.0 <= margin
    ensures 0.0 < UnroundedRequirement(bare, feeRate, margin)
    ensures bare * (1.0 + margin) <= UnroundedRequirement(bare, feeRate, margin) * (1.0 - feeRate) <==>
              MIN_KEPT_SHARE <= 1.0 - feeRate
  {
    var kept, goal := Max(MIN_KEPT_SHARE, 1.0 - feeRate), bare * (1.0 + margin);
    MulStrict(0.0, bare, 1.0 + margin);
    DivMul(bare, kept);
    DivSign(bare, kept);
    var r := UnroundedRequirement(bare, feeRate, margin);
    MulStrict(0.0, bare / kept, 1.0 + margin);
    assert r * kept == goal by { assert r * kept == (bare / kept * kept) * (1.0 + margin); }
    if 1.0 - feeRate < MIN_KEPT_SHARE { MulStrict(1.0 - feeRate, kept, r); }
  }

  /**
   Buying the required quantity and paying the fee in the base asset leaves at
   least the bare quantity plus its margin, for less than one step extra.
   */
  lemma RequiredQuantityCovers(bare: real, feeRate: real, step: real, margin: real, baseAsset: string)
    requires 0.0 < bare && 0.0 <= margin && 0.0 <= feeRate <= 1.0 - MIN_KEPT_SHARE
    ensures var bought := ComputeRequiredQuantity(bare, feeRate, step, margin);
            && bare * (1.0 + margin) <= NetBaseQuantityAfterFee(bought, Some(baseAsset), bought * feeRate, baseAsset)
            && UnroundedRequirement(bare, feeRate, margin) <= bought
            && (0.0 < step ==> bought < UnroundedRequirement(bare, feeRate, margin) + step)
            && (0.0 < step ==> bought == Multiple(Ceil(bought / step), step))
  {
    var required := UnroundedRequirement(bare, feeRate, margin);
    var bought := ComputeRequiredQuantity(bare, feeRate, step, margin);
    RequirementKeeps(bare, feeRate, margin);
    if 0.0 < step {
      CeilBounds(required, step);
      var k := Ceil(required / step);
      assert bought / step == k as real by { DivMul(k as real, step); }
      CeilOfWhole(k);
    }
    hide UnroundedRequirement, ComputeRequiredQuantity;
    MulMono(required, bought, 1.0 - feeRate);
    assert bought * (1.0 - feeRate) == bought - bought * feeRate;
  }

  /** Nothing is required for nothing, and something for something. */
  lemma RequiredIsPositiveIff(bare: real, feeRate: real, step: real, margin: real)
    requires 0.0 <= margin
    ensures 0.0 <= ComputeRequiredQuantity(bare, feeRate, step, margin)
    ensures 0.0 < ComputeRequiredQuantity(bare, feeRate, step, margin) <==> 0.0 < bare
  {
    if 0.0 < bare {
      RequirementKeeps(bare, feeRate, margin);
      if 0.0 < step { CeilBounds(UnroundedRequirement(bare, feeRate, margin), step); }
    }
  }

  /** Without a step to round to, the fee is covered exactly up to that fee rate. */
  lemma UnroundedCoversIff(bare: real, feeRate: real, margin: real, baseAsset: string)
    requires 0.0 < bare && 0.0 <= margin
    ensures var bought := ComputeRequiredQuantity(bare, feeRate, 0.0, margin);
            bare * (1.0 + margin) <= NetBaseQuantityAfterFee(bought, Some(baseAsset), bought * feeRate, baseAsset)
            <==> feeRate <= 1.0 - MIN_KEPT_SHARE
  {
    RequirementKeeps(bare, feeRate, margin);
    MulStrict(0.0, bare, 1.0 + margin);
    var bought := ComputeRequiredQuantity(bare, feeRate, 0.0, margin);
    assert bought * (1.0 - feeRate) == bought - bought * feeRate;
  }
}
