/**
 Triangular arbitrage on one exchange (app/engines/triangular.py): walk a loop
 of conversions, capping each hop by top-of-book depth, and emit the loop when
 it clears the break-even floor.

 The walk is specified for any number of hops; the engine uses three.
 */
module Triangular {
  import opened RealMath
  import opened Fees

  /** `isFresh` is the verdict of the quote-freshness filter. */
  datatype Quote = Quote(ask: real, askQuantity: real, bid: real, bidQuantity: real, isFresh: bool)

  /** Spot listings of the exchange, keyed by (base asset, quote asset). */
  type Listings = map<(string, string), Quote>

  datatype Hop = Hop(symbol: (string, string), buy: bool, quote: Quote)
  {
    predicate Tradable() {
      if buy then 0.0 < quote.ask else 0.0 < quote.bid
    }

    function Price(): real {
      if buy then quote.ask else quote.bid
    }

    /** Most that the top of book takes, in units of the asset held. */
    function Cap(): real {
      if buy then quote.ask * quote.askQuantity else quote.bidQuantity
    }

    /** Units received for one unit given. */
    function Rate(): real
      requires Tradable()
    {
      if buy then 1.0 / quote.ask else quote.bid
    }

    function Received(spend: real): real
      requires Tradable()
    {
      if buy then spend / quote.ask else spend * quote.bid
    }

    /** USD price of the asset received, given that of the asset spent. */
    function NewPrice(usdPrice: real): real
      requires Tradable()
    {
      if buy then usdPrice * quote.ask else usdPrice / quote.bid
    }
  }

  datatype LegFill = LegFill(symbol: (string, string), buy: bool, price: real, quantity: real)

  function FillOf(h: Hop, spend: real): LegFill
    requires h.Tradable()
  {
    LegFill(h.symbol, h.buy, h.Price(), if h.buy then h.Received(spend) else spend)
  }

  predicate Buyable(m: Listings, from: string, to: string) {
    (to, from) in m && 0.0 < m[(to, from)].ask
  }

  predicate Sellable(m: Listings, from: string, to: string) {
    (from, to) in m && 0.0 < m[(from, to)].bid
  }

  /** Buy `to` when to/from is listed with an ask, else sell `from` when from/to has a bid. */
  function FindHop(m: Listings, from: string, to: string): (h: Option<Hop>)
    ensures h.None? <==> !Buyable(m, from, to) && !Sellable(m, from, to)
    ensures h.Some? ==>
              && h.value.Tradable() && h.value.symbol in m && h.value.quote == m[h.value.symbol]
              && h.value.symbol == (if h.value.buy then (to, from) else (from, to))
              && (h.value.buy <==> Buyable(m, from, to))
  {
    if Buyable(m, from, to) then Some(Hop((to, from), true, m[(to, from)]))
    else if Sellable(m, from, to) then Some(Hop((from, to), false, m[(from, to)]))
    else None
  }

  predicate AllTradable(hops: seq<Hop>) {
    forall h <- hops :: h.Tradable()
  }

  // ----- The walk.

  /** USD value of `quantity` units at `usdPrice`: what a hop's fee is charged on. */
  function UsdValue(quantity: real, usdPrice: real): real {
    quantity * usdPrice
  }

  datatype Loop = Loop(end: real, notionals: seq<real>, fills: seq<LegFill>)

  function Walk(hops: seq<Hop>, quantity: real, usdPrice: real): Option<Loop>
    requires AllTradable(hops)
  {
    if hops == [] then Some(Loop(quantity, [], []))
    else
      var h := hops[0];
      var spend := Min(quantity, h.Cap());
      if spend <= 0.0 then None
      else
        match Walk(hops[1..], h.Received(spend), h.NewPrice(usdPrice))
        case None => None
        case Some(l) => Some(Loop(l.end, [UsdValue(spend, usdPrice)] + l.notionals, [FillOf(h, spend)] + l.fills))
  }

  datatype Opportunity = Opportunity(
    fills: seq<LegFill>, grossSpreadPct: real, netSpreadPct: real, breakEvenPct: real, capital: real,
    expectedProfit: real)

  datatype Engine = Engine(exchange: string, fees: FeeEngine, capital: real, buffers: Buffers)
  {
    predicate Known() {
      exchange in fees.schedules
    }

    /** `n` taker spot legs on this exchange. */
    function Legs(n: nat): (legs: seq<Leg>)
      ensures |legs| == n && forall l <- legs :: l == Leg(exchange, Spot, false)
    {
      if n == 0 then [] else [Leg(exchange, Spot, false)] + Legs(n - 1)
    }

    function BreakEven(): real
      requires Known()
    {
      BreakEvenPct(fees, Legs(3), buffers)
    }
  }

  function GrossPct(l: Loop): real
    requires l.notionals != [] && l.notionals[0] != 0.0
  {
    (l.end - l.notionals[0]) / l.notionals[0] * 100.0
  }

  function FeesUsd(e: Engine, notionals: seq<real>): real
    requires e.Known()
  {
    if notionals == [] then 0.0
    else TradingFee(e.fees, e.exchange, Spot, notionals[0], false) + FeesUsd(e, notionals[1..])
  }

  /** The gates after the walk, and the opportunity that passes them. */
  function Gate(e: Engine, l: Loop): Option<Opportunity>
    requires e.Known() && l.notionals != [] && l.notionals[0] != 0.0
  {
    var gross := GrossPct(l);
    if gross <= 0.0 || gross < e.BreakEven() then None
    else
      var net := l.end - l.notionals[0] - FeesUsd(e, l.notionals);
      Some(Opportunity(l.fills, gross, net / l.notionals[0] * 100.0, e.BreakEven(), l.notionals[0], net))
  }

  function PathHops(m: Listings, base: string, a: string, b: string): Option<seq<Hop>> {
    var h0, h1, h2 := FindHop(m, base, a), FindHop(m, a, b), FindHop(m, b, base);
    if h0.Some? && h1.Some? && h2.Some? then Some([h0.value, h1.value, h2.value]) else None
  }

  function Evaluate(e: Engine, m: Listings, base: string, a: string, b: string): Option<Opportunity>
    requires e.Known()
  {
    match PathHops(m, base, a, b)
    case None => None
    case Some(hops) =>
      if exists h <- hops :: !h.quote.isFresh then None
      else
        match Walk(hops, e.capital, 1.0)
        case None => None
        case Some(l) =>
          WalkShape(hops, e.capital, 1.0);
          Gate(e, l)
  }

  /** The loop of the engine computes the specified walk and gates. */
  method EvaluatePath(e: Engine, m: Listings, base: string, a: string, b: string) returns (r: Option<Opportunity>)
    requires e.Known()
    ensures r == Evaluate(e, m, base, a, b)
  {
    var path := PathHops(m, base, a, b);
    if path.None? { return None; }
    var hops := path.value;
    if exists h <- hops :: !h.quote.isFresh { return None; }

    var quantity := e.capital;
    var usdPrice := 1.0;
    var fills := [];
    var notionals := [];
    WalkShape(hops, e.capital, 1.0);
    assert hops[0..] == hops;
    PrependNothing(Walk(hops, quantity, usdPrice));
    for i := 0 to |hops|
      invariant |notionals| == i
      invariant Walk(hops, e.capital, 1.0) == Prepend(notionals, fills, Walk(hops[i..], quantity, usdPrice))
    {
      hide Walk, UsdValue, FillOf, Prepend;
      var h := hops[i];
      assert hops[i..][0] == h && hops[i..][1..] == hops[i + 1..];
      var spend := Min(quantity, h.Cap());
      UnfoldWalk(hops[i..], quantity, usdPrice);
      PrependOne(notionals, fills, UsdValue(spend, usdPrice), FillOf(h, spend),
                 Walk(hops[i + 1..], h.Received(spend), h.NewPrice(usdPrice)));
      if spend <= 0.0 {
        PrependNone(notionals, fills);
        return None;
      }
      fills := fills + [FillOf(h, spend)];
      notionals := notionals + [UsdValue(spend, usdPrice)];
      usdPrice := h.NewPrice(usdPrice);
      quantity := h.Received(spend);
    }
    assert hops[|hops|..] == [];
    assert notionals + [] == notionals && fills + [] == fills;
    assert Walk(hops, e.capital, 1.0) == Some(Loop(quantity, notionals, fills));
    r := Gate(e, Loop(quantity, notionals, fills));
  }

  lemma UnfoldWalk(hops: seq<Hop>, quantity: real, usdPrice: real)
    requires AllTradable(hops) && hops != []
    ensures var h := hops[0];
            var spend := Min(quantity, h.Cap());
            Walk(hops, quantity, usdPrice)
            == if spend <= 0.0 then None
               else Prepend([UsdValue(spend, usdPrice)], [FillOf(h, spend)],
                            Walk(hops[1..], h.Received(spend), h.NewPrice(usdPrice)))
  {
  }

  lemma PrependNothing(l: Option<Loop>)
    ensures Prepend([], [], l) == l
  {
    if l.Some? {
      assert [] + l.value.notionals == l.value.notionals && [] + l.value.fills == l.value.fills;
    }
  }

  lemma PrependNone(notionals: seq<real>, fills: seq<LegFill>)
    ensures Prepend(notionals, fills, None) == None
  {
  }

  lemma PrependOne(notionals: seq<real>, fills: seq<LegFill>, n: real, f: LegFill, l: Option<Loop>)
    ensures Prepend(notionals, fills, Prepend([n], [f], l)) == Prepend(notionals + [n], fills + [f], l)
  {
    if l.Some? {
      assert notionals + ([n] + l.value.notionals) == (notionals + [n]) + l.value.notionals;
      assert fills + ([f] + l.value.fills) == (fills + [f]) + l.value.fills;
    }
  }

  ghost function Prepend(notionals: seq<real>, fills: seq<LegFill>, l: Option<Loop>): Option<Loop> {
    match l
    case None => None
    case Some(l) => Some(Loop(l.end, notionals + l.notionals, fills + l.fills))
  }

  // ----- What one hop and the whole walk keep.

  /** The received quantity, at its own USD price, is worth the hop's fee notional. */
  lemma HopKeepsValue(h: Hop, spend: real, usdPrice: real)
    requires h.Tradable()
    ensures UsdValue(h.Received(spend), h.NewPrice(usdPrice)) == UsdValue(spend, usdPrice)
    ensures 0.0 < usdPrice ==> 0.0 < h.NewPrice(usdPrice)
    ensures 0.0 < spend ==> 0.0 < h.Received(spend)
  {
    var p := h.Price();
    DivMul(spend, p);
    DivMul(usdPrice, p);
    DivSign(usdPrice, p);
    DivSign(spend, p);
    if h.buy {
      assert spend / p * (usdPrice * p) == (spend / p * p) * usdPrice;
      if 0.0 < usdPrice { MulStrict(0.0, usdPrice, p); }
    } else {
      assert spend * p * (usdPrice / p) == spend * (usdPrice / p * p);
      if 0.0 < spend { MulStrict(0.0, spend, p); }
    }
  }

  lemma UsdValueMono(x: real, y: real, usdPrice: real)
    requires x <= y && 0.0 < usdPrice
    ensures UsdValue(x, usdPrice) <= UsdValue(y, usdPrice)
    ensures 0.0 < x ==> 0.0 < UsdValue(x, usdPrice)
  {
    MulMono(x, y, usdPrice);
    if 0.0 < x { MulStrict(0.0, x, usdPrice); }
  }

  lemma {:induction false} WalkShape(hops: seq<Hop>, quantity: real, usdPrice: real)
    requires AllTradable(hops) && 0.0 < usdPrice
    ensures Walk(hops, quantity, usdPrice).Some? ==>
              var l := Walk(hops, quantity, usdPrice).value;
              && |l.notionals| == |l.fills| == |hops|
              && forall n <- l.notionals :: 0.0 < n
  {
    if hops != [] {
      hide Walk, UsdValue;
      UnfoldWalk(hops, quantity, usdPrice);
      var h, spend := hops[0], Min(quantity, hops[0].Cap());
      if spend > 0.0 {
        HopKeepsValue(h, spend, usdPrice);
        UsdValueMono(spend, spend, usdPrice);
        WalkShape(hops[1..], h.Received(spend), h.NewPrice(usdPrice));
      }
    }
  }

  ghost predicate NonIncreasing(xs: seq<real>) {
    forall i, j :: 0 <= i <= j < |xs| ==> xs[j] <= xs[i]
  }

  /** Fee notionals never rise along the loop, whatever the depth caps. */
  lemma {:induction false} NotionalsNeverRise(hops: seq<Hop>, quantity: real, usdPrice: real)
    requires AllTradable(hops) && 0.0 < usdPrice && Walk(hops, quantity, usdPrice).Some?
    ensures var l := Walk(hops, quantity, usdPrice).value;
            NonIncreasing(l.notionals) && forall n <- l.notionals :: n <= UsdValue(quantity, usdPrice)
  {
    if hops != [] {
      hide Walk, UsdValue;
      UnfoldWalk(hops, quantity, usdPrice);
      var h, spend := hops[0], Min(quantity, hops[0].Cap());
      HopKeepsValue(h, spend, usdPrice);
      UsdValueMono(spend, quantity, usdPrice);
      NotionalsNeverRise(hops[1..], h.Received(spend), h.NewPrice(usdPrice));
      var rest := Walk(hops[1..], h.Received(spend), h.NewPrice(usdPrice)).value.notionals;
      assert Walk(hops, quantity, usdPrice).value.notionals == [UsdValue(spend, usdPrice)] + rest;
      assert forall i :: 0 <= i < |rest| ==> rest[i] in rest;
    }
  }

  /** `quantity` units converted at `rate`. */
  function Converted(quantity: real, rate: real): real {
    quantity * rate
  }

  function RateProduct(hops: seq<Hop>): real
    requires AllTradable(hops)
  {
    if hops == [] then 1.0 else Converted(hops[0].Rate(), RateProduct(hops[1..]))
  }

  lemma RatePositive(h: Hop)
    requires h.Tradable()
    ensures 0.0 < h.Rate()
  {
    DivSign(1.0, h.Price());
  }

  lemma {:induction false} RateProductPositive(hops: seq<Hop>)
    requires AllTradable(hops)
    ensures 0.0 < RateProduct(hops)
  {
    if hops != [] {
      RatePositive(hops[0]);
      RateProductPositive(hops[1..]);
      MulStrict(0.0, hops[0].Rate(), RateProduct(hops[1..]));
    }
  }

  lemma ReceiveConverts(h: Hop, spend: real, quantity: real, rest: real)
    requires h.Tradable() && spend <= quantity && 0.0 < rest
    ensures Converted(h.Received(spend), rest) == Converted(spend, Converted(h.Rate(), rest))
    ensures Converted(spend, Converted(h.Rate(), rest)) <= Converted(quantity, Converted(h.Rate(), rest))
  {
    RatePositive(h);
    assert h.Received(spend) == spend * h.Rate() by { DivMul(spend, h.Price()); DivMul(1.0, h.Price()); }
    assert (spend * h.Rate()) * rest == spend * (h.Rate() * rest);
    MulStrict(0.0, h.Rate(), rest);
    ConvertedMono(spend, quantity, Converted(h.Rate(), rest));
  }

  lemma ConvertedMono(x: real, y: real, rate: real)
    requires x <= y && 0.0 <= rate
    ensures Converted(x, rate) <= Converted(y, rate)
  {
    MulMono(x, y, rate);
  }

  /** The loop returns at most what the quoted rates promise on the quantity put in. */
  lemma {:induction false} ReturnBound(hops: seq<Hop>, quantity: real, usdPrice: real)
    requires AllTradable(hops) && Walk(hops, quantity, usdPrice).Some?
    ensures Walk(hops, quantity, usdPrice).value.end <= Converted(quantity, RateProduct(hops))
    ensures hops != [] ==>
              Walk(hops, quantity, usdPrice).value.end <= Converted(Min(quantity, hops[0].Cap()), RateProduct(hops))
  {
    if hops == [] {
      assert quantity * 1.0 == quantity;
    } else {
      UnfoldWalk(hops, quantity, usdPrice);
      RateProductPositive(hops[1..]);
      hide Walk, UsdValue, Converted;
      var h, spend := hops[0], Min(quantity, hops[0].Cap());
      ReturnBound(hops[1..], h.Received(spend), h.NewPrice(usdPrice));
      ReceiveConverts(h, spend, quantity, RateProduct(hops[1..]));
    }
  }

  /** What a leg gives up and what it brings in, read off the leg alone. */
  function Paid(f: LegFill): real {
    if f.buy then f.price * f.quantity else f.quantity
  }

  function Got(f: LegFill): real {
    if f.buy then f.quantity else f.price * f.quantity
  }

  /** Each leg pays something, no more than the leg before it got, and the last one's yield is the end capital. */
  ghost predicate Chained(fills: seq<LegFill>, start: real, end: real) {
    if fills == [] then end == start
    else 0.0 < Paid(fills[0]) <= start && Chained(fills[1..], Got(fills[0]), end)
  }

  lemma FillPaysAndGets(h: Hop, spend: real)
    requires h.Tradable()
    ensures Paid(FillOf(h, spend)) == spend && Got(FillOf(h, spend)) == h.Received(spend)
    ensures FillOf(h, spend).symbol == h.symbol && FillOf(h, spend).price == h.Price()
  {
    DivMul(spend, h.Price());
  }

  /** The reported legs form the loop: nothing is sold that an earlier leg did not bring in. */
  lemma {:induction false} LegsAreChained(hops: seq<Hop>, quantity: real, usdPrice: real)
    requires AllTradable(hops) && Walk(hops, quantity, usdPrice).Some?
    ensures var l := Walk(hops, quantity, usdPrice).value;
            && Chained(l.fills, quantity, l.end)
            && |l.fills| == |hops|
            && forall i :: 0 <= i < |hops| ==>
                 && l.fills[i].symbol == hops[i].symbol && l.fills[i].buy == hops[i].buy
                 && l.fills[i].price == hops[i].Price()
  {
    if hops != [] {
      UnfoldWalk(hops, quantity, usdPrice);
      hide Walk, UsdValue, FillOf, Paid, Got;
      var h, spend := hops[0], Min(quantity, hops[0].Cap());
      FillPaysAndGets(h, spend);
      FillSide(h, spend);
      LegsAreChained(hops[1..], h.Received(spend), h.NewPrice(usdPrice));
      var fills := Walk(hops, quantity, usdPrice).value.fills;
      assert fills[1..] == Walk(hops[1..], h.Received(spend), h.NewPrice(usdPrice)).value.fills;
      assert forall i :: 0 < i < |hops| ==> hops[i] == hops[1..][i - 1] && fills[i] == fills[1..][i - 1];
    }
  }

  lemma FillSide(h: Hop, spend: real)
    requires h.Tradable()
    ensures FillOf(h, spend).buy == h.buy
  {
  }

  // ----- The break-even gate is sound.

  /** `pct` percent of `usd`. */
  function Percent(usd: real, pct: real): real {
    usd * pct / 100.0
  }

  lemma PercentStep(n: real, top: real, rate: real, pct: real, more: real)
    requires n <= top && 0.0 <= rate && more <= Percent(top, pct)
    ensures n * rate + more <= Percent(top, 100.0 * rate + pct)
  {
    MulMono(n, top, rate);
    Distribute(top, 100.0 * rate, pct);
  }

  /** Fees on notionals that stay below `top` cost at most the break-even fee percentage of `top`. */
  lemma {:induction false} FeesWithinFloor(e: Engine, notionals: seq<real>, top: real)
    requires e.Known() && ValidFees(e.fees) && forall n <- notionals :: n <= top
    ensures FeesUsd(e, notionals) <= Percent(top, TradingFeesPct(e.fees, e.Legs(|notionals|)))
  {
    if notionals != [] {
      var legs := e.Legs(|notionals|);
      assert legs[0] == Leg(e.exchange, Spot, false) && legs[1..] == e.Legs(|notionals[1..]|);
      assert notionals[0] in notionals && forall n <- notionals[1..] :: n in notionals;
      assert 0.0 <= TakerRate(e.fees, e.exchange);
      FeesWithinFloor(e, notionals[1..], top);
      hide Percent, EffectiveRate, ValidFees;
      PercentStep(notionals[0], top, TakerRate(e.fees, e.exchange), TradingFeesPct(e.fees, legs[1..]),
                  FeesUsd(e, notionals[1..]));
    }
  }

  lemma GateAlgebra(end: real, n0: real, fees: real, pct: real)
    requires 0.0 < n0 && fees <= Percent(n0, pct)
    ensures (end - n0 - fees) / n0 * 100.0 >= (end - n0) / n0 * 100.0 - pct
    ensures 0.0 < (end - n0 - fees) / n0 * 100.0 ==> 0.0 < end - n0 - fees
  {
    assert (end - n0 - fees) / n0 == (end - n0) / n0 - fees / n0;
    QuotientBound(fees, n0, pct / 100.0);
    assert pct / 100.0 * n0 == Percent(n0, pct);
    DivSign(end - n0 - fees, n0);
  }

  /** A loop of any length that clears its own break-even floor nets at least the buffers. */
  lemma ClearedLoopNetsTheBuffers(e: Engine, hops: seq<Hop>, quantity: real)
    requires e.Known() && ValidFees(e.fees) && AllTradable(hops) && hops != []
    requires Walk(hops, quantity, 1.0).Some?
    requires var l := Walk(hops, quantity, 1.0).value;
             && l.notionals != [] && 0.0 < l.notionals[0]
             && BreakEvenPct(e.fees, e.Legs(|hops|), e.buffers) <= GrossPct(l)
    ensures var l := Walk(hops, quantity, 1.0).value;
            var net := l.end - l.notionals[0] - FeesUsd(e, l.notionals);
            && BufferPct(e.buffers) <= net / l.notionals[0] * 100.0
            && (0.0 < BufferPct(e.buffers) ==> 0.0 < net)
  {
    hide Walk, Percent, FeesUsd, TradingFeesPct;
    var l := Walk(hops, quantity, 1.0).value;
    NotionalsNeverRise(hops, quantity, 1.0);
    WalkShape(hops, quantity, 1.0);
    var n0 := l.notionals[0];
    assert forall n <- l.notionals :: n <= n0;
    FeesWithinFloor(e, l.notionals, n0);
    GateAlgebra(l.end, n0, FeesUsd(e, l.notionals), TradingFeesPct(e.fees, e.Legs(|hops|)));
  }

  /** Every emitted triangle nets at least slippage, rebalancing and safety buffers. */
  lemma EmittedClearsBuffers(e: Engine, m: Listings, base: string, a: string, b: string)
    requires e.Known() && ValidFees(e.fees) && Evaluate(e, m, base, a, b).Some?
    ensures var o := Evaluate(e, m, base, a, b).value;
            && 0.0 < o.capital && |o.fills| == 3
            && BufferPct(e.buffers) <= o.netSpreadPct
            && (0.0 < BufferPct(e.buffers) ==> 0.0 < o.expectedProfit)
  {
    hide Walk, FeesUsd, TradingFeesPct, GrossPct, FindHop, ValidFees;
    var hops := PathHops(m, base, a, b).value;
    WalkShape(hops, e.capital, 1.0);
    var l := Walk(hops, e.capital, 1.0).value;
    assert l.notionals[0] in l.notionals;
    ClearedLoopNetsTheBuffers(e, hops, e.capital);
  }

  // ----- What is emitted, read off the legs and the quotes.

  /** The leg takes hop `h` as far as the `held` units and the top-of-book quantity go. */
  predicate TakesHop(f: LegFill, h: Hop, held: real)
    requires h.Tradable()
  {
    && f.symbol == h.symbol && f.buy == h.buy && 0.0 < f.quantity
    && f.price == (if h.buy then h.quote.ask else h.quote.bid)
    && f.quantity == if h.buy then Min(held / h.quote.ask, h.quote.askQuantity) else Min(held, h.quote.bidQuantity)
  }

  /** One leg for each hop, each selling what the leg before it got. */
  ghost predicate FollowsHops(fills: seq<LegFill>, hops: seq<Hop>, held: real)
    requires AllTradable(hops)
    decreases |hops|
  {
    && |fills| == |hops|
    && (hops != [] ==> TakesHop(fills[0], hops[0], held) && FollowsHops(fills[1..], hops[1..], Got(fills[0])))
  }

  lemma HopIsTaken(h: Hop, held: real, f: LegFill)
    requires h.Tradable()
    ensures var spend := Min(held, h.Cap());
            TakesHop(f, h, held) <==> 0.0 < spend && f == FillOf(h, spend)
  {
    if h.buy {
      var ask := h.quote.ask;
      DivMul(ask * h.quote.askQuantity, ask);
      DivMul(held, ask);
      DivSign(Min(held, h.Cap()), ask);
      QuotientBound(held, ask, h.quote.askQuantity);
    }
  }

  /** The walk succeeds exactly when legs follow the hops, and those are the legs it reports. */
  lemma {:induction false} WalkIff(hops: seq<Hop>, held: real, usdPrice: real, fills: seq<LegFill>)
    requires AllTradable(hops)
    ensures FollowsHops(fills, hops, held)
            <==> Walk(hops, held, usdPrice).Some? && Walk(hops, held, usdPrice).value.fills == fills
    decreases |hops|
  {
    if hops != [] {
      var h, spend := hops[0], Min(held, hops[0].Cap());
      UnfoldWalk(hops, held, usdPrice);
      FillPaysAndGets(h, spend);
      if |fills| == |hops| {
        HopIsTaken(h, held, fills[0]);
        WalkIff(hops[1..], h.Received(spend), h.NewPrice(usdPrice), fills[1..]);
        assert fills == [fills[0]] + fills[1..];
      } else if 0.0 < spend {
        FillsShape(hops[1..], h.Received(spend), h.NewPrice(usdPrice));
      }
      hide Walk, UsdValue, FillOf, Got, Paid, TakesHop, Hop.Cap, Hop.Received, Hop.NewPrice;
    }
  }

  lemma {:induction false} FillsShape(hops: seq<Hop>, held: real, usdPrice: real)
    requires AllTradable(hops)
    ensures Walk(hops, held, usdPrice).Some? ==> |Walk(hops, held, usdPrice).value.fills| == |hops|
    decreases |hops|
  {
    if hops != [] {
      UnfoldWalk(hops, held, usdPrice);
      FillsShape(hops[1..], hops[0].Received(Min(held, hops[0].Cap())), hops[0].NewPrice(usdPrice));
      hide Walk, UsdValue, FillOf;
    }
  }

  /** USD price of the asset a leg brings in, from that of the asset it gives up. */
  function Mark(f: LegFill, usdPrice: real): real
    requires f.price != 0.0
  {
    if f.buy then usdPrice * f.price else usdPrice / f.price
  }

  predicate Priced(fills: seq<LegFill>) {
    forall f <- fills :: f.price != 0.0
  }

  /** Fee of each leg on the USD value of what it gives up, marked along the legs. */
  function LegFees(rate: real, fills: seq<LegFill>, usdPrice: real): real
    requires Priced(fills)
  {
    if fills == [] then 0.0
    else UsdValue(Paid(fills[0]), usdPrice) * rate + LegFees(rate, fills[1..], Mark(fills[0], usdPrice))
  }

  lemma {:induction false} FeesFromLegs(e: Engine, hops: seq<Hop>, held: real, usdPrice: real)
    requires e.Known() && AllTradable(hops) && Walk(hops, held, usdPrice).Some?
    ensures var l := Walk(hops, held, usdPrice).value;
            && Priced(l.fills)
            && FeesUsd(e, l.notionals) == LegFees(e.fees.schedules[e.exchange].takerSpot, l.fills, usdPrice)
    decreases |hops|
  {
    hide Walk, UsdValue, FillOf, Paid, Mark, FeesUsd, LegFees, Times, Hop.Cap, Hop.Received, Hop.NewPrice;
    hide TakerRate;
    NoFees(e, usdPrice);
    if hops == [] {
      EmptyWalk(held, usdPrice);
    } else {
      var h, spend := hops[0], Min(held, hops[0].Cap());
      UnfoldWalk(hops, held, usdPrice);
      FeesFromLegs(e, hops[1..], h.Received(spend), h.NewPrice(usdPrice));
      FillIs(h, spend, usdPrice);
      RatesAre(e.fees, e.exchange, None);
      var rest := Walk(hops[1..], h.Received(spend), h.NewPrice(usdPrice)).value;
      FeesUnfold(e, UsdValue(spend, usdPrice), rest.notionals);
      FeesOfLegs(e.fees.schedules[e.exchange].takerSpot, FillOf(h, spend), rest.fills, usdPrice);
    }
  }

  lemma NoFees(e: Engine, usdPrice: real)
    requires e.Known()
    ensures FeesUsd(e, []) == 0.0 && LegFees(e.fees.schedules[e.exchange].takerSpot, [], usdPrice) == 0.0
  {
  }

  lemma FillIs(h: Hop, spend: real, usdPrice: real)
    requires h.Tradable()
    ensures FillOf(h, spend).price != 0.0 && Paid(FillOf(h, spend)) == spend
    ensures Mark(FillOf(h, spend), usdPrice) == h.NewPrice(usdPrice)
  {
    FillPaysAndGets(h, spend);
  }

  lemma FeesUnfold(e: Engine, n: real, rest: seq<real>)
    requires e.Known()
    ensures FeesUsd(e, [n] + rest) == Times(n, TakerRate(e.fees, e.exchange)) + FeesUsd(e, rest)
  {
    assert ([n] + rest)[1..] == rest;
  }

  lemma FeesOfLegs(rate: real, f: LegFill, rest: seq<LegFill>, usdPrice: real)
    requires f.price != 0.0 && Priced(rest)
    ensures Priced([f] + rest)
    ensures LegFees(rate, [f] + rest, usdPrice)
         == Times(UsdValue(Paid(f), usdPrice), rate) + LegFees(rate, rest, Mark(f, usdPrice))
  {
    assert ([f] + rest)[1..] == rest;
  }

  /** Three fresh, listed conversions from `base` through `a` and `b` back, each taken as far as possible. */
  ghost predicate IsTriangle(e: Engine, m: Listings, base: string, a: string, b: string, fills: seq<LegFill>) {
    && |fills| == 3
    && TakesListing(fills[0], m, base, a, e.capital)
    && TakesListing(fills[1], m, a, b, Got(fills[0]))
    && TakesListing(fills[2], m, b, base, Got(fills[1]))
  }

  /** A buy of to/from when that has an ask, else a sale of from/to, at a fresh quote, within `held` and its depth. */
  predicate TakesListing(f: LegFill, m: Listings, from: string, to: string, held: real) {
    && f.buy == Buyable(m, from, to) && (f.buy || Sellable(m, from, to))
    && f.symbol == (if f.buy then (to, from) else (from, to))
    && var q := m[f.symbol];
    && q.isFresh && 0.0 < f.quantity
    && f.price == (if f.buy then q.ask else q.bid)
    && f.quantity == if f.buy then Min(held / q.ask, q.askQuantity) else Min(held, q.bidQuantity)
  }

  /** What the last of three legs got beyond what the first paid. */
  function GainOf(fills: seq<LegFill>): real
    requires |fills| == 3
  {
    Got(fills[2]) - Paid(fills[0])
  }

  lemma {:induction false} ListingIsHop(m: Listings, from: string, to: string, held: real, f: LegFill)
    ensures TakesListing(f, m, from, to, held)
            <==> FindHop(m, from, to).Some? && FindHop(m, from, to).value.quote.isFresh
                 && TakesHop(f, FindHop(m, from, to).value, held)
  {
  }

  lemma ThreeFollow(fills: seq<LegFill>, hops: seq<Hop>, held: real)
    requires AllTradable(hops) && |hops| == 3 && |fills| == 3
    ensures FollowsHops(fills, hops, held)
            <==> TakesHop(fills[0], hops[0], held) && TakesHop(fills[1], hops[1], Got(fills[0]))
                 && TakesHop(fills[2], hops[2], Got(fills[1]))
  {
    hide TakesHop, Got;
    var f1, h1 := fills[1..], hops[1..];
    var f2, h2 := f1[1..], h1[1..];
    assert f1[0] == fills[1] && f2[0] == fills[2] && h1[0] == hops[1] && h2[0] == hops[2];
    assert f2[1..] == [] && h2[1..] == [];
    assert FollowsHops(f2[1..], h2[1..], Got(fills[2]));
    assert FollowsHops(f2, h2, Got(fills[1])) <==> TakesHop(fills[2], hops[2], Got(fills[1]));
    assert FollowsHops(f1, h1, Got(fills[0])) <==>
        TakesHop(fills[1], hops[1], Got(fills[0])) && FollowsHops(f2, h2, Got(fills[1]));
  }

  /** A triangle is what the walk of its three hops reports, provided they are there and fresh. */
  lemma TriangleIsWalk(e: Engine, m: Listings, base: string, a: string, b: string, fills: seq<LegFill>)
    ensures IsTriangle(e, m, base, a, b, fills)
            <==> && PathHops(m, base, a, b).Some?
                 && var hops := PathHops(m, base, a, b).value;
                 && (forall h <- hops :: h.quote.isFresh)
                 && Walk(hops, e.capital, 1.0).Some? && Walk(hops, e.capital, 1.0).value.fills == fills
  {
    hide FindHop, TakesHop, TakesListing, Walk, Got;
    if |fills| == 3 {
      ListingIsHop(m, base, a, e.capital, fills[0]);
      ListingIsHop(m, a, b, Got(fills[0]), fills[1]);
      ListingIsHop(m, b, base, Got(fills[1]), fills[2]);
    }
    if PathHops(m, base, a, b).Some? {
      var hops := PathHops(m, base, a, b).value;
      WalkIff(hops, e.capital, 1.0, fills);
      FillsShape(hops, e.capital, 1.0);
      if |fills| == 3 { ThreeFollow(fills, hops, e.capital); }
      assert (forall h <- hops :: h.quote.isFresh)
        <==> hops[0].quote.isFresh && hops[1].quote.isFresh && hops[2].quote.isFresh;
    }
  }

  /** End capital and first notional of a walked triangle, from its legs. */
  lemma WalkFromLegs(hops: seq<Hop>, held: real)
    requires AllTradable(hops) && |hops| == 3 && Walk(hops, held, 1.0).Some?
    ensures var l := Walk(hops, held, 1.0).value;
            && |l.fills| == 3 && l.notionals != []
            && l.notionals[0] == Paid(l.fills[0]) && l.end == Got(l.fills[2]) && 0.0 < Paid(l.fills[0])
  {
    var l := Walk(hops, held, 1.0).value;
    UnfoldWalk(hops, held, 1.0);
    FillPaysAndGets(hops[0], Min(held, hops[0].Cap()));
    assert UsdValue(Min(held, hops[0].Cap()), 1.0) == Min(held, hops[0].Cap());
    LegsAreChained(hops, held, 1.0);
    hide Walk, UsdValue, FillOf, Paid, Got;
    var f1 := l.fills[1..];
    var f2 := f1[1..];
    assert f1[0] == l.fills[1] && f2[0] == l.fills[2] && f2[1..] == [];
    assert Chained(f1, Got(l.fills[0]), l.end);
    assert Chained(f2, Got(l.fills[1]), l.end);
    assert Chained(f2[1..], Got(l.fills[2]), l.end);
  }

  /**
   When a triangle is emitted: three fresh, listed conversions, each possible,
   gain something and at least three taker fees and the buffers.
   */
  lemma TriangleEmittedIff(e: Engine, m: Listings, base: string, a: string, b: string)
    requires e.Known()
    ensures Evaluate(e, m, base, a, b).Some?
            <==> exists fills :: IsTriangle(e, m, base, a, b, fills) && 0.0 < Paid(fills[0])
                                 && 0.0 < GainOf(fills) && LoopFloor(e) <= GainOf(fills) / Paid(fills[0]) * 100.0
  {
    FloorIs(e);
    hide Walk, FindHop, IsTriangle, Engine.BreakEven, Paid, Got, FeesUsd, LoopFloor;
    if PathHops(m, base, a, b).Some? {
      var hops := PathHops(m, base, a, b).value;
      if Walk(hops, e.capital, 1.0).Some? {
        var l := Walk(hops, e.capital, 1.0).value;
        WalkFromLegs(hops, e.capital);
        WalkShape(hops, e.capital, 1.0);
        TriangleIsWalk(e, m, base, a, b, l.fills);
        GainSign(GainOf(l.fills), Paid(l.fills[0]));
      }
    }
    forall fills | IsTriangle(e, m, base, a, b, fills)
      ensures PathHops(m, base, a, b).Some? && Walk(PathHops(m, base, a, b).value, e.capital, 1.0).Some?
              && Walk(PathHops(m, base, a, b).value, e.capital, 1.0).value.fills == fills
              && forall h <- PathHops(m, base, a, b).value :: h.quote.isFresh
    {
      TriangleIsWalk(e, m, base, a, b, fills);
    }
  }

  lemma GainSign(gain: real, paid: real)
    requires 0.0 < paid
    ensures 0.0 < gain <==> 0.0 < gain / paid * 100.0
  {
    DivSign(gain, paid);
  }

  /** Three taker fees and the three buffers, in percent. */
  function LoopFloor(e: Engine): real
    requires e.Known()
  {
    300.0 * e.fees.schedules[e.exchange].takerSpot
    + e.buffers.slippagePct + e.buffers.rebalancingPct + e.buffers.safetyPct
  }

  lemma FloorIs(e: Engine)
    requires e.Known()
    ensures e.BreakEven() == LoopFloor(e)
  {
    RatesAre(e.fees, e.exchange, None);
    hide TakerRate, EffectiveRate;
    var rate := 100.0 * e.fees.schedules[e.exchange].takerSpot;
    assert e.Legs(3)[1..] == e.Legs(2) && e.Legs(2)[1..] == e.Legs(1) && e.Legs(1)[1..] == [];
    assert TradingFeesPct(e.fees, e.Legs(1)) == rate;
    assert TradingFeesPct(e.fees, e.Legs(2)) == rate + rate;
    assert TradingFeesPct(e.fees, e.Legs(3)) == rate + rate + rate;
  }

  /**
   What an emitted triangle reports follows from its own legs: the capital put
   in, the gross and net percentages, and the profit after each leg's fee.
   */
  lemma EmittedReports(e: Engine, m: Listings, base: string, a: string, b: string)
    requires e.Known() && Evaluate(e, m, base, a, b).Some?
    ensures var o := Evaluate(e, m, base, a, b).value;
            && IsTriangle(e, m, base, a, b, o.fills) && Priced(o.fills)
            && 0.0 < o.capital == Paid(o.fills[0])
            && o.grossSpreadPct == GainOf(o.fills) / o.capital * 100.0
            && o.expectedProfit
               == GainOf(o.fills) - LegFees(e.fees.schedules[e.exchange].takerSpot, o.fills, 1.0)
            && o.netSpreadPct == o.expectedProfit / o.capital * 100.0
            && o.breakEvenPct == LoopFloor(e)
  {
    FloorIs(e);
    hide Walk, FindHop, IsTriangle, Engine.BreakEven, Paid, Got, FeesUsd, LegFees, LoopFloor;
    var hops := PathHops(m, base, a, b).value;
    var l := Walk(hops, e.capital, 1.0).value;
    WalkFromLegs(hops, e.capital);
    WalkShape(hops, e.capital, 1.0);
    TriangleIsWalk(e, m, base, a, b, l.fills);
    FeesFromLegs(e, hops, e.capital, 1.0);
  }

  // ----- Forward and backward are never both emitted.

  /** Going from x to y and back at the quoted rates gains nothing. */
  predicate NoRoundTripGain(m: Listings, x: string, y: string) {
    FindHop(m, x, y).Some? && FindHop(m, y, x).Some? ==>
      Converted(FindHop(m, x, y).value.Rate(), FindHop(m, y, x).value.Rate()) <= 1.0
  }

  /** One listing for the pair, with a bid no higher than the ask when an ask is shown. */
  predicate SingleUncrossedListing(m: Listings, x: string, y: string) {
    && !((x, y) in m && (y, x) in m)
    && ((x, y) in m && 0.0 < m[(x, y)].ask ==> m[(x, y)].bid <= m[(x, y)].ask)
    && ((y, x) in m && 0.0 < m[(y, x)].ask ==> m[(y, x)].bid <= m[(y, x)].ask)
  }

  lemma SingleListingHasNoGain(m: Listings, x: string, y: string)
    requires SingleUncrossedListing(m, x, y)
    ensures NoRoundTripGain(m, x, y)
  {
    if FindHop(m, x, y).Some? && FindHop(m, y, x).Some? {
      var q := if (x, y) in m then m[(x, y)] else m[(y, x)];
      QuotientBound(1.0, q.ask, 1.0 / q.ask);
      DivMul(1.0, q.ask);
      MulMono(q.bid, q.ask, 1.0 / q.ask);
    }
  }

  lemma {:induction false} EmittedNeedsRates(e: Engine, m: Listings, base: string, a: string, b: string)
    requires e.Known() && Evaluate(e, m, base, a, b).Some?
    ensures PathHops(m, base, a, b).Some? && 1.0 < RateProduct(PathHops(m, base, a, b).value)
  {
    hide Walk, FindHop, FeesUsd, Converted;
    var hops := PathHops(m, base, a, b).value;
    WalkShape(hops, e.capital, 1.0);
    ReturnBound(hops, e.capital, 1.0);
    var l := Walk(hops, e.capital, 1.0).value;
    FirstNotional(hops, e.capital);
    assert l.notionals[0] in l.notionals;
    GainNeedsRate(l.end, l.notionals[0], RateProduct(hops));
  }

  lemma FirstNotional(hops: seq<Hop>, quantity: real)
    requires AllTradable(hops) && hops != [] && Walk(hops, quantity, 1.0).Some?
    ensures Walk(hops, quantity, 1.0).value.notionals != []
    ensures Walk(hops, quantity, 1.0).value.notionals[0] == Min(quantity, hops[0].Cap())
  {
    assert UsdValue(Min(quantity, hops[0].Cap()), 1.0) == Min(quantity, hops[0].Cap());
  }

  lemma GainNeedsRate(end: real, n0: real, rate: real)
    requires 0.0 < n0 && end <= Converted(n0, rate) && 0.0 < (end - n0) / n0 * 100.0
    ensures 1.0 < rate
  {
    DivSign(end - n0, n0);
    if rate <= 1.0 { MulMono(rate, 1.0, n0); }
  }

  lemma RoundTrips(r0: real, r1: real, r2: real, s0: real, s1: real, s2: real)
    requires 0.0 < r0 && 0.0 < r1 && 0.0 < r2 && 0.0 < s0 && 0.0 < s1 && 0.0 < s2
    requires Converted(r0, s0) <= 1.0 && Converted(r1, s1) <= 1.0 && Converted(r2, s2) <= 1.0
    ensures Converted(r0, Converted(r1, r2)) <= 1.0 || Converted(s2, Converted(s1, s0)) <= 1.0
  {
    hide Converted;
    var x, y := Converted(r0, Converted(r1, r2)), Converted(s2, Converted(s1, s0));
    if 1.0 < x && 1.0 < y {
      ConvertedPositive(r0, s0);
      ConvertedPositive(r1, s1);
      AtMostOne(Converted(r1, s1), Converted(r2, s2));
      AtMostOne(Converted(r0, s0), Converted(Converted(r1, s1), Converted(r2, s2)));
      Reorder(r0, r1, r2, s0, s1, s2);
      MoreThanOne(x, y);
    }
  }

  lemma ConvertedPositive(x: real, y: real)
    requires 0.0 < x && 0.0 < y
    ensures 0.0 < Converted(x, y)
  {
    MulStrict(0.0, x, y);
  }

  lemma AtMostOne(x: real, y: real)
    requires 0.0 < x <= 1.0 && y <= 1.0
    ensures Converted(x, y) <= 1.0
  {
    MulMono(y, 1.0, x);
  }

  lemma MoreThanOne(x: real, y: real)
    requires 1.0 < x && 1.0 < y
    ensures 1.0 < Converted(x, y)
  {
    MulStrict(1.0, x, y);
  }

  lemma Reorder(r0: real, r1: real, r2: real, s0: real, s1: real, s2: real)
    ensures Converted(Converted(r0, Converted(r1, r2)), Converted(s2, Converted(s1, s0)))
         == Converted(Converted(r0, s0), Converted(Converted(r1, s1), Converted(r2, s2)))
  {
    assert (r1 * r2) * (s2 * s1) == (r1 * s1) * (r2 * s2);
    assert (r0 * (r1 * r2)) * (s2 * (s1 * s0)) == (r0 * s0) * ((r1 * r2) * (s2 * s1));
  }

  /** From one snapshot a triple is emitted in at most one direction. */
  lemma OneDirectionOnly(e: Engine, m: Listings, base: string, a: string, b: string)
    requires e.Known()
    requires NoRoundTripGain(m, base, a) && NoRoundTripGain(m, a, b) && NoRoundTripGain(m, b, base)
    ensures Evaluate(e, m, base, a, b).None? || Evaluate(e, m, base, b, a).None?
  {
    if Evaluate(e, m, base, a, b).Some? && Evaluate(e, m, base, b, a).Some? {
      EmittedNeedsRates(e, m, base, a, b);
      EmittedNeedsRates(e, m, base, b, a);
      TwoProducts(m, base, a, b);
      assert false;
    }
  }

  lemma TwoProducts(m: Listings, base: string, a: string, b: string)
    requires NoRoundTripGain(m, base, a) && NoRoundTripGain(m, a, b) && NoRoundTripGain(m, b, base)
    requires PathHops(m, base, a, b).Some? && PathHops(m, base, b, a).Some?
    ensures RateProduct(PathHops(m, base, a, b).value) <= 1.0 || RateProduct(PathHops(m, base, b, a).value) <= 1.0
  {
    hide FindHop, Hop.Rate, Converted, RateProduct;
    var f, r := PathHops(m, base, a, b).value, PathHops(m, base, b, a).value;
    ThreeRates(f);
    ThreeRates(r);
    RoundTrips(f[0].Rate(), f[1].Rate(), f[2].Rate(), r[2].Rate(), r[1].Rate(), r[0].Rate());
  }

  lemma ThreeRates(hops: seq<Hop>)
    requires AllTradable(hops) && |hops| == 3
    ensures 0.0 < hops[0].Rate() && 0.0 < hops[1].Rate() && 0.0 < hops[2].Rate()
    ensures RateProduct(hops) == Converted(hops[0].Rate(), Converted(hops[1].Rate(), hops[2].Rate()))
  {
    RatePositive(hops[0]);
    RatePositive(hops[1]);
    RatePositive(hops[2]);
    hide Hop.Rate, Converted;
    assert Converted(hops[2].Rate(), 1.0) == hops[2].Rate() by { TimesOne(hops[2].Rate()); }
    assert hops[1..][1..] == hops[2..] && hops[2..][1..] == [];
    assert RateProduct(hops[2..]) == Converted(hops[2].Rate(), 1.0);
  }

  lemma TimesOne(x: real)
    ensures Converted(x, 1.0) == x
  {
  }

  // ----- A whole scan.

  /** Forward and backward candidates of one configured triple, in scan order. */
  function EvaluateTriple(e: Engine, m: Listings, t: (string, string, string)): seq<Opportunity>
    requires e.Known()
  {
    AsSeq(Evaluate(e, m, t.0, t.1, t.2)) + AsSeq(Evaluate(e, m, t.0, t.2, t.1))
  }

  function AsSeq(o: Option<Opportunity>): seq<Opportunity> {
    if o.Some? then [o.value] else []
  }

  function ScanAll(e: Engine, m: Listings, paths: seq<(string, string, string)>): seq<Opportunity>
    requires e.Known()
  {
    if paths == [] then []
    else ScanAll(e, m, paths[..|paths| - 1]) + EvaluateTriple(e, m, paths[|paths| - 1])
  }

  method Detect(e: Engine, m: Listings, paths: seq<(string, string, string)>) returns (opportunities: seq<Opportunity>)
    requires e.Known()
    ensures opportunities == ScanAll(e, m, paths)
  {
    opportunities := [];
    for i := 0 to |paths|
      invariant opportunities == ScanAll(e, m, paths[..i])
    {
      hide Evaluate, ScanAll, EvaluateTriple;
      ScanOneMore(e, m, paths, i, opportunities);
      var t := paths[i];
      var forward := EvaluatePath(e, m, t.0, t.1, t.2);
      if forward.Some? { opportunities := opportunities + [forward.value]; }
      var backward := EvaluatePath(e, m, t.0, t.2, t.1);
      if backward.Some? { opportunities := opportunities + [backward.value]; }
    }
    assert paths[..|paths|] == paths;
  }

  /** One iteration of the scan: the forward candidate, then the backward one. */
  lemma ScanOneMore(e: Engine, m: Listings, paths: seq<(string, string, string)>, i: nat, done: seq<Opportunity>)
    requires e.Known() && i < |paths| && done == ScanAll(e, m, paths[..i])
    ensures ScanAll(e, m, paths[..i + 1])
         == (done + AsSeq(Evaluate(e, m, paths[i].0, paths[i].1, paths[i].2)))
            + AsSeq(Evaluate(e, m, paths[i].0, paths[i].2, paths[i].1))
  {
    hide Evaluate;
    assert paths[..i + 1][..i] == paths[..i];
  }

  /** With single, uncrossed listings a scan emits at most one opportunity per triple, all above the buffers. */
  lemma {:induction false} ScanEmitsAtMostOnePerTriple(e: Engine, m: Listings, paths: seq<(string, string, string)>)
    requires e.Known() && ValidFees(e.fees) && forall x, y :: SingleUncrossedListing(m, x, y)
    ensures |ScanAll(e, m, paths)| <= |paths|
    ensures forall o <- ScanAll(e, m, paths) :: BufferPct(e.buffers) <= o.netSpreadPct
  {
    if paths != [] {
      hide Evaluate, SingleUncrossedListing, ValidFees, NoRoundTripGain;
      var t := paths[|paths| - 1];
      ScanEmitsAtMostOnePerTriple(e, m, paths[..|paths| - 1]);
      SingleListingHasNoGain(m, t.0, t.1);
      SingleListingHasNoGain(m, t.1, t.2);
      SingleListingHasNoGain(m, t.2, t.0);
      OneDirectionOnly(e, m, t.0, t.1, t.2);
      if Evaluate(e, m, t.0, t.1, t.2).Some? { EmittedClearsBuffers(e, m, t.0, t.1, t.2); }
      if Evaluate(e, m, t.0, t.2, t.1).Some? { EmittedClearsBuffers(e, m, t.0, t.2, t.1); }
    }
  }

  /** A scan reports exactly the triangles emitted for a configured triple, in one direction or the other. */
  lemma {:induction false} ScanFinds(e: Engine, m: Listings, paths: seq<(string, string, string)>, o: Opportunity)
    requires e.Known()
    ensures o in ScanAll(e, m, paths)
            <==> exists t <- paths :: Found(e, m, t, o)
  {
    hide ScanAll, Found, EvaluateTriple;
    NothingScanned(e, m);
    if paths != [] {
      var n := |paths| - 1;
      ScanFinds(e, m, paths[..n], o);
      ScanLast(e, m, paths[..n], paths[n]);
      FoundInTriple(e, m, paths[n], o);
      assert paths == paths[..n] + [paths[n]];
      assert forall t :: t in paths <==> t in paths[..n] || t == paths[n];
    }
  }

  /** The triangle is emitted for this triple, in one direction or the other. */
  predicate Found(e: Engine, m: Listings, t: (string, string, string), o: Opportunity)
    requires e.Known()
  {
    Evaluate(e, m, t.0, t.1, t.2) == Some(o) || Evaluate(e, m, t.0, t.2, t.1) == Some(o)
  }

  lemma FoundInTriple(e: Engine, m: Listings, t: (string, string, string), o: Opportunity)
    requires e.Known()
    ensures o in EvaluateTriple(e, m, t) <==> Found(e, m, t, o)
  {
    hide Evaluate;
  }

  /** Of one triple, forward comes before backward. */
  lemma ScanOfOne(e: Engine, m: Listings, t: (string, string, string))
    requires e.Known()
    ensures var forward, backward := Evaluate(e, m, t.0, t.1, t.2), Evaluate(e, m, t.0, t.2, t.1);
            ScanAll(e, m, [t]) == (if forward.Some? then [forward.value] else [])
                                  + (if backward.Some? then [backward.value] else [])
  {
    hide Evaluate;
    assert [t][..0] == [];
    assert ScanAll(e, m, [t]) == [] + EvaluateTriple(e, m, t);
  }

  /** Scanning more triples appends what they yield. */
  lemma {:induction false} ScanAppends(e: Engine, m: Listings, xs: seq<(string, string, string)>,
                                       ys: seq<(string, string, string)>)
    requires e.Known()
    ensures ScanAll(e, m, xs + ys) == ScanAll(e, m, xs) + ScanAll(e, m, ys)
    decreases |ys|
  {
    hide Evaluate, EvaluateTriple, ScanAll;
    NothingScanned(e, m);
    if ys == [] {
      assert xs + ys == xs;
    } else {
      var n := |ys| - 1;
      ScanAppends(e, m, xs, ys[..n]);
      ScanLast(e, m, ys[..n], ys[n]);
      ScanLast(e, m, xs + ys[..n], ys[n]);
      assert ys == ys[..n] + [ys[n]] && xs + ys == (xs + ys[..n]) + [ys[n]];
    }
  }

  lemma NothingScanned(e: Engine, m: Listings)
    requires e.Known()
    ensures ScanAll(e, m, []) == []
  {
  }

  lemma ScanLast(e: Engine, m: Listings, xs: seq<(string, string, string)>, t: (string, string, string))
    requires e.Known()
    ensures ScanAll(e, m, xs + [t]) == ScanAll(e, m, xs) + EvaluateTriple(e, m, t)
  {
    hide EvaluateTriple;
    assert (xs + [t])[..|xs|] == xs;
  }

  // ----- Exactly which listings keep both directions apart.

  /** The pair is listed in at least one of its two orders. */
  predicate Covers(symbols: set<(string, string)>, x: string, y: string) {
    (x, y) in symbols || (y, x) in symbols
  }

  predicate BothWays(symbols: set<(string, string)>, x: string, y: string) {
    (x, y) in symbols && (y, x) in symbols
  }

  /** Every quote with an ask has a bid no higher than it. */
  predicate Uncrossed(m: Listings) {
    forall s <- m :: 0.0 < m[s].ask ==> m[s].bid <= m[s].ask
  }

  /** Some uncrossed quotes for these symbols make some engine emit the triple in both directions. */
  ghost predicate CanEmitBoth(symbols: set<(string, string)>, base: string, a: string, b: string) {
    exists e: Engine, m: Listings ::
      m.Keys == symbols && Uncrossed(m) && EmitsBoth(e, m, base, a, b)
  }

  predicate EmitsBoth(e: Engine, m: Listings, base: string, a: string, b: string) {
    e.Known() && Evaluate(e, m, base, a, b).Some? && Evaluate(e, m, base, b, a).Some?
  }

  /**
   With the three pairs of the triple listed, no uncrossed snapshot can have it
   emitted in both directions exactly when none of the pairs is listed both ways round.
   */
  lemma BothDirectionsIff(symbols: set<(string, string)>, base: string, a: string, b: string)
    requires base != a && a != b && b != base
    requires Covers(symbols, base, a) && Covers(symbols, a, b) && Covers(symbols, b, base)
    ensures CanEmitBoth(symbols, base, a, b)
            <==> BothWays(symbols, base, a) || BothWays(symbols, a, b) || BothWays(symbols, b, base)
  {
    hide Evaluate, NoRoundTripGain, SingleUncrossedListing;
    if BothWays(symbols, base, a) {
      DoublyListedEmitsBoth(symbols, base, a, b, base, a);
    } else if BothWays(symbols, a, b) {
      DoublyListedEmitsBoth(symbols, base, a, b, a, b);
    } else if BothWays(symbols, b, base) {
      DoublyListedEmitsBoth(symbols, base, a, b, b, base);
    } else {
      forall e: Engine, m: Listings | m.Keys == symbols && Uncrossed(m) ensures !EmitsBoth(e, m, base, a, b) {
        SinglyListedHasNoGain(m, base, a);
        SinglyListedHasNoGain(m, a, b);
        SinglyListedHasNoGain(m, b, base);
        if e.Known() { OneDirectionOnly(e, m, base, a, b); }
      }
    }
  }

  lemma SinglyListedHasNoGain(m: Listings, x: string, y: string)
    requires Uncrossed(m) && !BothWays(m.Keys, x, y)
    ensures NoRoundTripGain(m, x, y)
  {
    SingleListingHasNoGain(m, x, y);
  }

  function At(price: real): Quote {
    Quote(price, 1000.0, price, 1000.0, true)
  }

  /** Bid equal to ask everywhere: a half on the doubled pair, one elsewhere. */
  function HalfPrice(symbols: set<(string, string)>, x: string, y: string): Listings {
    map s <- symbols :: At(if s == (x, y) || s == (y, x) then 0.5 else 1.0)
  }

  function FreeEngine(): Engine {
    Engine("x", FeeEngine(map["x" := Schedule(0.0, 0.0, 0.0, 0.0)], map[]), 100.0, DEFAULT_BUFFERS)
  }

  /** A pair listed both ways at a half doubles whoever crosses it, in either direction. */
  lemma DoublyListedEmitsBoth(symbols: set<(string, string)>, base: string, a: string, b: string, x: string, y: string)
    requires base != a && a != b && b != base
    requires Covers(symbols, base, a) && Covers(symbols, a, b) && Covers(symbols, b, base)
    requires BothWays(symbols, x, y) && ((x, y) == (base, a) || (x, y) == (a, b) || (x, y) == (b, base))
    ensures CanEmitBoth(symbols, base, a, b)
  {
    var e, m := FreeEngine(), HalfPrice(symbols, x, y);
    hide Evaluate, DoublingHop, HalfPrice;
    assert m.Keys == symbols && Uncrossed(m) by { HalfPriceIsUncrossed(symbols, x, y); }
    FindsDoubling(symbols, x, y, base, a);
    FindsDoubling(symbols, x, y, a, b);
    FindsDoubling(symbols, x, y, b, base);
    FindsDoubling(symbols, x, y, base, b);
    FindsDoubling(symbols, x, y, b, a);
    FindsDoubling(symbols, x, y, a, base);
    var d0, d1, d2 := (x, y) == (base, a), (x, y) == (a, b), (x, y) == (b, base);
    DoublingPathIsEmitted(e, m, base, a, b, d0, d1, d2);
    DoublingPathIsEmitted(e, m, base, b, a, d2, d1, d0);
    assert EmitsBoth(e, m, base, a, b);
  }

  lemma HalfPriceIsUncrossed(symbols: set<(string, string)>, x: string, y: string)
    ensures HalfPrice(symbols, x, y).Keys == symbols && Uncrossed(HalfPrice(symbols, x, y))
  {
  }

  /** A hop that doubles, when `doubles`, or keeps the quantity. */
  predicate DoublingHop(h: Option<Hop>, doubles: bool) {
    h.Some? && if doubles then h.value.buy && h.value.quote == At(0.5) else h.value.quote == At(1.0)
  }

  lemma FindsDoubling(symbols: set<(string, string)>, x: string, y: string, from: string, to: string)
    requires BothWays(symbols, x, y) && Covers(symbols, from, to)
    ensures DoublingHop(FindHop(HalfPrice(symbols, x, y), from, to), (from, to) == (x, y) || (to, from) == (x, y))
  {
  }

  predicate ExactlyOne(d0: bool, d1: bool, d2: bool) {
    (d0 && !d1 && !d2) || (!d0 && d1 && !d2) || (!d0 && !d1 && d2)
  }

  /** A path with exactly one doubling hop is emitted. */
  lemma DoublingPathIsEmitted(e: Engine, m: Listings, base: string, a: string, b: string, d0: bool, d1: bool, d2: bool)
    requires e == FreeEngine() && ExactlyOne(d0, d1, d2)
    requires DoublingHop(FindHop(m, base, a), d0) && DoublingHop(FindHop(m, a, b), d1)
    requires DoublingHop(FindHop(m, b, base), d2)
    ensures e.Known() && Evaluate(e, m, base, a, b).Some?
  {
    var hops := PathHops(m, base, a, b).value;
    FreeFloor();
    DoublingWalk(hops, d0, d1, d2);
    hide Walk, FindHop, Engine.BreakEven, FeesUsd;
    var l := Walk(hops, 100.0, 1.0).value;
    assert GrossPct(l) == 100.0;
    hide GrossPct, FreeEngine, Gate, Hop.Cap, Hop.Received;
    assert Evaluate(e, m, base, a, b) == Gate(e, l);
    GateOpens(e, l);
  }

  lemma GateOpens(e: Engine, l: Loop)
    requires e.Known() && l.notionals != [] && l.notionals[0] != 0.0
    requires 0.0 < GrossPct(l) && e.BreakEven() <= GrossPct(l)
    ensures Gate(e, l).Some?
  {
  }

  /** Three hops of which one doubles the quantity and the others keep it. */
  lemma DoublingWalk(hops: seq<Hop>, d0: bool, d1: bool, d2: bool)
    requires |hops| == 3 && AllTradable(hops) && ExactlyOne(d0, d1, d2)
    requires DoublingHop(Some(hops[0]), d0) && DoublingHop(Some(hops[1]), d1) && DoublingHop(Some(hops[2]), d2)
    ensures var w := Walk(hops, 100.0, 1.0);
            w.Some? && w.value.end == 200.0 && w.value.notionals != [] && w.value.notionals[0] == 100.0
  {
    hide Walk, DoublingHop, UsdValue;
    var q1 := Doubled(100.0, d0);
    var q2 := Doubled(q1, d1);
    var q3 := Doubled(q2, d2);
    var p1 := hops[0].NewPrice(1.0);
    var p2 := hops[1].NewPrice(p1);
    assert hops[1..][0] == hops[1] && hops[1..][1..] == hops[2..] && hops[2..][0] == hops[2] && hops[2..][1..] == [];
    DoublingStep(hops, 100.0, 1.0, d0);
    DoublingStep(hops[1..], q1, p1, d1);
    DoublingStep(hops[2..], q2, p2, d2);
    assert Walk([], q3, hops[2].NewPrice(p2)) == Some(Loop(q3, [], [])) by { EmptyWalk(q3, hops[2].NewPrice(p2)); }
    assert UsdValue(100.0, 1.0) == 100.0 by { TimesOneUsd(100.0); }
  }

  function Doubled(quantity: real, doubles: bool): real {
    if doubles then 2.0 * quantity else quantity
  }

  lemma EmptyWalk(quantity: real, usdPrice: real)
    ensures Walk([], quantity, usdPrice) == Some(Loop(quantity, [], []))
  {
  }

  lemma TimesOneUsd(x: real)
    ensures UsdValue(x, 1.0) == x
  {
  }

  lemma DoublingStep(hops: seq<Hop>, quantity: real, usdPrice: real, doubles: bool)
    requires hops != [] && AllTradable(hops) && DoublingHop(Some(hops[0]), doubles) && 0.0 < quantity <= 400.0
    ensures var w, rest := Walk(hops, quantity, usdPrice),
                           Walk(hops[1..], Doubled(quantity, doubles), hops[0].NewPrice(usdPrice));
            && (rest.Some? ==>
                  && w.Some? && w.value.end == rest.value.end
                  && w.value.notionals == [UsdValue(quantity, usdPrice)] + rest.value.notionals)
  {
    UnfoldWalk(hops, quantity, usdPrice);
    var h := hops[0];
    assert Min(quantity, h.Cap()) == quantity;
    assert h.Received(quantity) == Doubled(quantity, doubles);
    hide Walk, UsdValue;
  }

  lemma FreeFloor()
    ensures FreeEngine().BreakEven() == 0.06
  {
    var e := FreeEngine();
    assert e.Legs(3)[1..] == e.Legs(2) && e.Legs(2)[1..] == e.Legs(1) && e.Legs(1)[1..] == [];
  }
}
