/**
 Fee rates (app/analytics/fees.py) and the break-even floor built on them
 (app/analytics/break_even.py).
 */
module Fees {
  import opened RealMath

  datatype Option<+T> = None | Some(value: T)
  {
    function GetOr(default: T): T {
      if Some? then value else default
    }
  }

  datatype Market = Spot | Perpetual

  datatype Schedule = Schedule(makerSpot: real, takerSpot: real, makerFutures: real, takerFutures: real)

  datatype PairOverride = PairOverride(makerSpot: Option<real>, takerSpot: Option<real>)

  datatype FeeEngine = FeeEngine(
    schedules: map<string, Schedule>, overrides: map<(string, string), PairOverride>)

  /** Every published rate is a fraction of the notional. */
  ghost predicate ValidFees(fees: FeeEngine) {
    && (forall e <- fees.schedules ::
          var s := fees.schedules[e];
          && 0.0 <= s.makerSpot <= 1.0 && 0.0 <= s.takerSpot <= 1.0
          && 0.0 <= s.makerFutures <= 1.0 && 0.0 <= s.takerFutures <= 1.0)
    && (forall p <- fees.overrides ::
          var o := fees.overrides[p];
          && (o.makerSpot.Some? ==> 0.0 <= o.makerSpot.value <= 1.0)
          && (o.takerSpot.Some? ==> 0.0 <= o.takerSpot.value <= 1.0))
  }

  function StandardRate(s: Schedule, market: Market, maker: bool): real {
    if market == Spot then (if maker then s.makerSpot else s.takerSpot)
    else (if maker then s.makerFutures else s.takerFutures)
  }

  function EffectiveRate(fees: FeeEngine, exchange: string, market: Market, maker: bool, symbol: Option<string>)
    : (r: real)
    requires exchange in fees.schedules
    ensures ValidFees(fees) ==> 0.0 <= r <= 1.0
  {
    var standard := StandardRate(fees.schedules[exchange], market, maker);
    if market == Spot && symbol.Some? && (exchange, symbol.value) in fees.overrides then
      var o := fees.overrides[(exchange, symbol.value)];
      var rate := if maker then o.makerSpot else o.takerSpot;
      if rate.Some? then rate.value else standard
    else standard
  }

  /** Some override of this exchange and symbol names a rate for this side of a spot trade. */
  ghost predicate Overridden(fees: FeeEngine, exchange: string, market: Market, maker: bool, symbol: Option<string>,
                             rate: real)
  {
    && market == Spot && symbol.Some?
    && exists o :: (exchange, symbol.value) in fees.overrides && fees.overrides[(exchange, symbol.value)] == o
                   && Some(rate) == if maker then o.makerSpot else o.takerSpot
  }

  /** An override that covers the side decides, whatever the schedules say; without one the standard rate applies. */
  lemma OverrideTakesPrecedence(fees: FeeEngine, exchange: string, market: Market, maker: bool, symbol: Option<string>)
    requires exchange in fees.schedules
    ensures forall rate, schedules ::
              Overridden(fees, exchange, market, maker, symbol, rate) && exchange in schedules ==>
                EffectiveRate(fees.(schedules := schedules), exchange, market, maker, symbol) == rate
    ensures (forall rate :: !Overridden(fees, exchange, market, maker, symbol, rate)) ==>
              EffectiveRate(fees, exchange, market, maker, symbol)
              == StandardRate(fees.schedules[exchange], market, maker)
  {
    if market == Spot && symbol.Some? && (exchange, symbol.value) in fees.overrides {
      var o := fees.overrides[(exchange, symbol.value)];
      var rate := if maker then o.makerSpot else o.takerSpot;
      if rate.Some? { assert Overridden(fees, exchange, market, maker, symbol, rate.value); }
    }
  }

  function TradingFee(fees: FeeEngine, exchange: string, market: Market, notional: real, maker: bool): real
    requires exchange in fees.schedules
  {
    notional * EffectiveRate(fees, exchange, market, maker, None)
  }

  /** The taker rate of a spot leg, as the engines charge it. */
  function TakerRate(fees: FeeEngine, exchange: string): real
    requires exchange in fees.schedules
  {
    EffectiveRate(fees, exchange, Spot, false, None)
  }

  /** Which of an exchange's four published rates applies when no override does. */
  lemma RatesAre(fees: FeeEngine, exchange: string, symbol: Option<string>)
    requires exchange in fees.schedules
    ensures var s := fees.schedules[exchange];
            && TakerRate(fees, exchange) == EffectiveRate(fees, exchange, Spot, false, None) == s.takerSpot
            && EffectiveRate(fees, exchange, Spot, true, None) == s.makerSpot
            && EffectiveRate(fees, exchange, Perpetual, false, symbol) == s.takerFutures
            && EffectiveRate(fees, exchange, Perpetual, true, symbol) == s.makerFutures
  {
  }

  datatype Leg = Leg(exchange: string, market: Market, maker: bool)

  datatype Buffers = Buffers(slippagePct: real, rebalancingPct: real, safetyPct: real)

  const DEFAULT_BUFFERS := Buffers(0.02, 0.01, 0.03)

  predicate KnownLegs(fees: FeeEngine, legs: seq<Leg>) {
    forall l <- legs :: l.exchange in fees.schedules
  }

  /** Fees of all legs as a percentage: the fee of each on a notional of 100. */
  function TradingFeesPct(fees: FeeEngine, legs: seq<Leg>): real
    requires KnownLegs(fees, legs)
  {
    if legs == [] then 0.0
    else TradingFee(fees, legs[0].exchange, legs[0].market, 100.0, legs[0].maker) + TradingFeesPct(fees, legs[1..])
  }

  function BufferPct(b: Buffers): real {
    b.slippagePct + b.rebalancingPct + b.safetyPct
  }

  function BreakEvenPct(fees: FeeEngine, legs: seq<Leg>, buffers: Buffers): real
    requires KnownLegs(fees, legs)
  {
    TradingFeesPct(fees, legs) + buffers.slippagePct + buffers.rebalancingPct + buffers.safetyPct
  }
}
