/**
 The depth-adjusted execution curve of app/analytics/execution_depth.py: price
 one opportunity at many capital sizes, pick the size that nets the most, and
 estimate where profit runs out.
 */
module ExecutionDepth {
  import opened RealMath
  import opened OrderBook
  import opened Fees

  /** One buy book, one sell book and the fee table both legs are charged from. */
  datatype Venue = Venue(
    asks: seq<Level>, bids: seq<Level>, fees: FeeEngine, buyExchange: string, sellExchange: string)
  {
    /** What pricing needs: positive prices, and a fee schedule for both exchanges. */
    predicate Priceable() {
      && ValidBook(asks) && ValidBook(bids)
      && buyExchange in fees.schedules && sellExchange in fees.schedules
    }

    /** Books sorted best price first, and fees that are fractions. */
    ghost predicate Regular() {
      Priceable() && SortedBook(asks, true) && SortedBook(bids, false) && ValidFees(fees)
    }
  }

  datatype Tier = Tier(capital: real, filled: real, fullyFilled: bool, netProfit: real, netSpreadPct: real)

  function EvaluateTier(v: Venue, capital: real): Tier
    requires v.Priceable()
  {
    var buy, sell := Vwap(v.asks, capital), Vwap(v.bids, capital);
    if buy.filled <= 0.0 || sell.filled <= 0.0 then Tier(capital, 0.0, false, 0.0, 0.0)
    else
      AveragePositive(v.asks, capital);
      PriceTier(capital, Min(buy.filled, sell.filled), buy.fullyFilled && sell.fullyFilled, buy.average, sell.average,
                TakerRate(v.fees, v.buyExchange), TakerRate(v.fees, v.sellExchange))
  }

  /** The filled tier: buy `filled` USD worth, sell the same quantity, pay a taker fee on each leg. */
  function PriceTier(capital: real, filled: real, fullyFilled: bool, buyAverage: real, sellAverage: real,
                     buyRate: real, sellRate: real): Tier
    requires 0.0 < filled && 0.0 < buyAverage
  {
    var quantity := filled / buyAverage;
    var buyFee := filled * buyRate;
    var sellFee := quantity * sellAverage * sellRate;
    var netProfit := quantity * (sellAverage - buyAverage) - buyFee - sellFee;
    Tier(capital, filled, fullyFilled, netProfit, netProfit / filled * 100.0)
  }

  predicate Profitable(t: Tier) {
    0.0 < t.filled && 0.0 < t.netProfit
  }

  // ----- The shape of the curve.

  /** Net profit per USD, from the two average prices and the two taker rates. */
  function Edge(buyAverage: real, sellAverage: real, buyRate: real, sellRate: real): real
    requires buyAverage != 0.0
  {
    sellAverage / buyAverage * (1.0 - sellRate) - 1.0 - buyRate
  }

  predicate EarnsEdge(t: Tier, buyAverage: real, sellAverage: real, buyRate: real, sellRate: real)
    requires buyAverage != 0.0
  {
    && t.netProfit == t.filled * Edge(buyAverage, sellAverage, buyRate, sellRate)
    && t.netSpreadPct == 100.0 * Edge(buyAverage, sellAverage, buyRate, sellRate)
  }

  /** Liquidity on both sides: the tier trades exactly when there is some and capital is positive. */
  predicate Liquid(v: Venue) {
    0.0 < Depth(v.asks) && 0.0 < Depth(v.bids)
  }

  lemma ProfitIsEdge(capital: real, filled: real, full: bool, b: real, s: real, fb: real, fs: real)
    requires 0.0 < filled && 0.0 < b
    ensures var t := PriceTier(capital, filled, full, b, s, fb, fs);
            t.capital == capital && t.filled == filled && EarnsEdge(t, b, s, fb, fs)
  {
    var quantity, ratio := filled / b, s / b;
    DivMul(filled, b);
    DivMul(s, b);
    assert quantity * s == filled * ratio by {
      assert quantity * s == quantity * (ratio * b) == (quantity * b) * ratio;
    }
    var net := quantity * (s - b) - filled * fb - quantity * s * fs;
    assert net == filled * ratio - filled - filled * fb - filled * ratio * fs;
    var edge := Edge(b, s, fb, fs);
    assert filled * edge == filled * (ratio * (1.0 - fs)) - filled - filled * fb;
    assert net == filled * edge;
    assert net / filled == edge by { DivMul(edge, filled); }
  }

  /** A tier is its two averages: everything it reports follows from the edge per USD. */
  lemma TierIsEdge(v: Venue, capital: real)
    requires v.Priceable()
    ensures var t := EvaluateTier(v, capital);
            var a, b := Average(v.asks, capital), Average(v.bids, capital);
            && t.capital == capital
            && (0.0 < t.filled <==> 0.0 < capital && Liquid(v))
            && (t.filled <= 0.0 ==> t.filled == 0.0 && t.netProfit == 0.0 && t.netSpreadPct == 0.0)
            && (0.0 < t.filled ==>
                  && 0.0 < a && 0.0 < b
                  && t.filled == Min(capital, Min(Depth(v.asks), Depth(v.bids)))
                  && EarnsEdge(t, a, b, TakerRate(v.fees, v.buyExchange), TakerRate(v.fees, v.sellExchange)))
  {
    hide Filled, Average, Quantity, Worst, Depth, TakerRate, PriceTier, EarnsEdge;
    FilledIsMin(v.asks, capital);
    FilledIsMin(v.bids, capital);
    var fa, fb := Filled(v.asks, capital), Filled(v.bids, capital);
    if 0.0 < fa && 0.0 < fb {
      AveragePositive(v.asks, capital);
      AveragePositive(v.bids, capital);
      ProfitIsEdge(capital, Min(fa, fb), Vwap(v.asks, capital).fullyFilled && Vwap(v.bids, capital).fullyFilled,
                   Average(v.asks, capital), Average(v.bids, capital),
                   TakerRate(v.fees, v.buyExchange), TakerRate(v.fees, v.sellExchange));
    } else {
      EmptyDepth(v.asks);
      EmptyDepth(v.bids);
    }
  }

  /** A priced tier counts as fully filled exactly when both books hold its capital. */
  lemma TierFullyFilledIff(v: Venue, capital: real)
    requires v.Priceable()
    ensures EvaluateTier(v, capital).fullyFilled
            <==> 0.0 < capital && Liquid(v)
                 && capital <= Depth(v.asks) + FILL_EPSILON && capital <= Depth(v.bids) + FILL_EPSILON
  {
    TierIsEdge(v, capital);
    EmptyDepth(v.asks);
    EmptyDepth(v.bids);
    if 0.0 < capital && Liquid(v) {
      VwapReports(v.asks, capital);
      VwapReports(v.bids, capital);
    }
    hide Filled, Average, Quantity, Worst, Depth, TakerRate, EarnsEdge;
  }

  lemma EmptyDepth(levels: seq<Level>)
    ensures levels == [] ==> Depth(levels) == 0.0 && forall t :: Filled(levels, t) == 0.0
  {
  }

  lemma EdgeMonotone(b1: real, s1: real, b2: real, s2: real, fb: real, fs: real)
    requires 0.0 < b1 <= b2 && 0.0 < s2 <= s1 && fs <= 1.0
    ensures Edge(b2, s2, fb, fs) <= Edge(b1, s1, fb, fs)
  {
    MulMono(s2, s1, b1);
    MulMono(b1, b2, s1);
    DivLeq(s2, b2, s1, b1);
    MulMono(s2 / b2, s1 / b1, 1.0 - fs);
  }

  /** Net percentage never rises with size, on any sorted books. */
  lemma SpreadFallsWithSize(v: Venue, c1: real, c2: real)
    requires v.Regular() && 0.0 < c1 <= c2
    ensures EvaluateTier(v, c2).netSpreadPct <= EvaluateTier(v, c1).netSpreadPct
  {
    TierIsEdge(v, c1);
    TierIsEdge(v, c2);
    if Liquid(v) {
      AverageMonotone(v.asks, true, c1, c2);
      AverageMonotone(v.bids, false, c1, c2);
      hide Filled, Average, Quantity, Edge, Depth, EvaluateTier;
      EdgeMonotone(Average(v.asks, c1), Average(v.bids, c1), Average(v.asks, c2), Average(v.bids, c2),
                   TakerRate(v.fees, v.buyExchange), TakerRate(v.fees, v.sellExchange));
    }
  }

  /** Profitability is the sign of the percentage. */
  lemma ProfitableIsPositiveSpread(v: Venue, c: real)
    requires v.Priceable()
    ensures Profitable(EvaluateTier(v, c)) <==> 0.0 < EvaluateTier(v, c).netSpreadPct
  {
    TierIsEdge(v, c);
    var t := EvaluateTier(v, c);
    hide EvaluateTier, Edge, Average;
    if 0.0 < t.filled {
      var edge := Edge(Average(v.asks, c), Average(v.bids, c),
                       TakerRate(v.fees, v.buyExchange), TakerRate(v.fees, v.sellExchange));
      if 0.0 < edge { MulStrict(0.0, edge, t.filled); } else { MulMono(edge, 0.0, t.filled); }
    }
  }

  /** So profitable sizes form a prefix: past the first loss there is no further profit. */
  lemma ProfitablePrefix(v: Venue, c1: real, c2: real)
    requires v.Regular() && 0.0 < c1 <= c2
    ensures Profitable(EvaluateTier(v, c2)) ==> Profitable(EvaluateTier(v, c1))
  {
    SpreadFallsWithSize(v, c1, c2);
    ProfitableIsPositiveSpread(v, c1);
    ProfitableIsPositiveSpread(v, c2);
  }

  lemma NonPositiveSizesNeverPay(v: Venue, c: real)
    requires v.Priceable() && c <= 0.0
    ensures !Profitable(EvaluateTier(v, c))
  {
    TierIsEdge(v, c);
  }

  // ----- Choosing a size from the tested tiers.

  /** `sorted(set(tests) | {intended})`: each size once, ascending. */
  function InsertSize(sizes: seq<real>, c: real): seq<real> {
    if sizes == [] || c < sizes[0] then [c] + sizes
    else if c == sizes[0] then sizes
    else [sizes[0]] + InsertSize(sizes[1..], c)
  }

  function TierSizes(tests: seq<real>, intended: real): seq<real> {
    if tests == [] then [intended] else InsertSize(TierSizes(tests[1..], intended), tests[0])
  }

  ghost predicate Ascending(sizes: seq<real>) {
    forall i, j :: 0 <= i < j < |sizes| ==> sizes[i] < sizes[j]
  }

  lemma {:induction false} InsertSizeKeeps(sizes: seq<real>, c: real, x: real)
    ensures x in InsertSize(sizes, c) <==> x in sizes || x == c
  {
    if sizes != [] && sizes[0] < c {
      InsertSizeKeeps(sizes[1..], c, x);
      assert x in sizes <==> x == sizes[0] || x in sizes[1..];
    }
  }

  lemma {:induction false} InsertSizeSorts(sizes: seq<real>, c: real)
    requires Ascending(sizes)
    ensures Ascending(InsertSize(sizes, c))
  {
    if sizes != [] && sizes[0] < c {
      var rest := InsertSize(sizes[1..], c);
      InsertSizeSorts(sizes[1..], c);
      forall i | 0 <= i < |rest| ensures sizes[0] < rest[i] {
        InsertSizeKeeps(sizes[1..], c, rest[i]);
      }
    }
  }

  lemma {:induction false} TierSizesAreTheSizes(tests: seq<real>, intended: real)
    ensures Ascending(TierSizes(tests, intended))
    ensures forall x :: x in TierSizes(tests, intended) <==> x in tests || x == intended
  {
    if tests != [] {
      var rest := TierSizes(tests[1..], intended);
      TierSizesAreTheSizes(tests[1..], intended);
      InsertSizeSorts(rest, tests[0]);
      hide InsertSize, Ascending;
      forall x ensures x in InsertSize(rest, tests[0]) <==> x in tests || x == intended {
        InsertSizeKeeps(rest, tests[0], x);
        assert x in tests <==> x == tests[0] || x in tests[1..];
      }
    }
  }

  function EvaluateTiers(v: Venue, sizes: seq<real>): (tiers: seq<Tier>)
    requires v.Priceable()
    ensures |tiers| == |sizes|
    ensures forall i :: 0 <= i < |sizes| ==> tiers[i] == EvaluateTier(v, sizes[i])
  {
    if sizes == [] then [] else [EvaluateTier(v, sizes[0])] + EvaluateTiers(v, sizes[1..])
  }

  /** `max(profitable, key=net_profit)`: among equals the first wins. */
  function Best(tiers: seq<Tier>): Option<Tier> {
    if tiers == [] then None
    else
      var rest := Best(tiers[1..]);
      if !Profitable(tiers[0]) then rest
      else if rest.Some? && rest.value.netProfit > tiers[0].netProfit then rest
      else Some(tiers[0])
  }

  /** The first tested tier larger than `capital` that makes no money. */
  function FirstUnprofitable(tiers: seq<Tier>, capital: real): Option<Tier> {
    if tiers == [] then None
    else if tiers[0].capital > capital && !Profitable(tiers[0]) then Some(tiers[0])
    else FirstUnprofitable(tiers[1..], capital)
  }

  function InterpolateZeroCrossing(last: Tier, first: Tier): real {
    var profitDelta := first.netProfit - last.netProfit;
    if profitDelta == 0.0 then last.capital
    else last.capital + (-last.netProfit / profitDelta) * (first.capital - last.capital)
  }

  /** Reported ceiling: interpolated from the optimal tier, or the largest size tested. */
  function MaxProfitable(tiers: seq<Tier>, optimal: Tier): real
    requires tiers != []
  {
    match FirstUnprofitable(tiers, optimal.capital)
    case Some(u) => InterpolateZeroCrossing(optimal, u)
    case None =>
      var largest := tiers[|tiers| - 1];
      if largest.capital > optimal.capital then largest.capital else optimal.capital
  }

  /** The first tier of that size, if one was tested. */
  function FindTier(tiers: seq<Tier>, capital: real): Option<Tier> {
    if tiers == [] then None
    else if tiers[0].capital == capital then Some(tiers[0])
    else FindTier(tiers[1..], capital)
  }

  datatype DepthEdge = DepthEdge(
    theoreticalPct: real, depthAdjustedPct: Option<real>, realisticPct: Option<real>, tiers: seq<Tier>,
    optimalCapital: Option<real>, optimalNetProfit: Option<real>, maxProfitableCapital: Option<real>)

  function ComputeEdge(v: Venue, grossSpreadPct: real, intended: real, tests: seq<real>): DepthEdge
    requires v.Priceable()
  {
    TierSizesAreTheSizes(tests, intended);
    var tiers := EvaluateTiers(v, TierSizes(tests, intended));
    var found := FindTier(tiers, intended);
    var adjusted := if found.Some? && 0.0 < found.value.filled then Some(found.value.netSpreadPct) else None;
    match Best(tiers)
    case None => DepthEdge(grossSpreadPct, adjusted, None, tiers, None, None, None)
    case Some(o) =>
      assert intended in TierSizes(tests, intended);
      DepthEdge(grossSpreadPct, adjusted, Some(o.netSpreadPct), tiers, Some(o.capital), Some(o.netProfit),
                Some(MaxProfitable(tiers, o)))
  }

  ghost predicate AscendingTiers(tiers: seq<Tier>) {
    forall i, j :: 0 <= i < j < |tiers| ==> tiers[i].capital < tiers[j].capital
  }

  /** The optimum is the smallest size among those that net the most. */
  lemma {:induction false} BestIsSmallestMaximiser(tiers: seq<Tier>)
    requires AscendingTiers(tiers)
    ensures Best(tiers).None? <==> forall t <- tiers :: !Profitable(t)
    ensures Best(tiers).Some? ==>
              var o := Best(tiers).value;
              && o in tiers && Profitable(o)
              && forall t <- tiers | Profitable(t) ::
                   t.netProfit < o.netProfit || (t.netProfit == o.netProfit && o.capital <= t.capital)
  {
    if tiers != [] {
      BestIsSmallestMaximiser(tiers[1..]);
      assert forall t :: t in tiers <==> t == tiers[0] || t in tiers[1..];
      assert forall t <- tiers[1..] :: tiers[0].capital < t.capital;
    }
  }

  lemma {:induction false} FirstUnprofitableIsFirst(tiers: seq<Tier>, capital: real)
    requires AscendingTiers(tiers)
    ensures FirstUnprofitable(tiers, capital).None? <==>
              forall t <- tiers | capital < t.capital :: Profitable(t)
    ensures FirstUnprofitable(tiers, capital).Some? ==>
              var u := FirstUnprofitable(tiers, capital).value;
              && u in tiers && capital < u.capital && !Profitable(u)
              && forall t <- tiers | capital < t.capital < u.capital :: Profitable(t)
  {
    if tiers != [] {
      FirstUnprofitableIsFirst(tiers[1..], capital);
      assert forall t :: t in tiers <==> t == tiers[0] || t in tiers[1..];
      assert forall t <- tiers[1..] :: tiers[0].capital < t.capital;
    }
  }

  /** Where the interpolation lands: past the profitable end, never past the losing one. */
  lemma CrossingBetween(last: Tier, first: Tier)
    requires last.capital < first.capital && first.netProfit <= 0.0 < last.netProfit
    ensures last.capital < InterpolateZeroCrossing(last, first) <= first.capital
    ensures InterpolateZeroCrossing(last, first) == first.capital <==> first.netProfit == 0.0
  {
    var drop, width := last.netProfit - first.netProfit, first.capital - last.capital;
    var fraction := last.netProfit / drop;
    assert -last.netProfit / (first.netProfit - last.netProfit) == fraction;
    DivSign(last.netProfit, drop);
    QuotientBound(last.netProfit, drop, 1.0);
    MulStrict(0.0, fraction, width);
    MulMono(fraction, 1.0, width);
    if fraction < 1.0 { MulStrict(fraction, 1.0, width); }
  }

  /** The line through two tiers, at size `c`, weighed without dividing. */
  predicate LineNonNegative(last: Tier, first: Tier, c: real) {
    (c - last.capital) * -first.netProfit <= (first.capital - c) * last.netProfit
  }

  /** The crossing reaches size `c` exactly when the straight line is still non-negative there. */
  lemma CrossingReaches(last: Tier, first: Tier, c: real)
    requires last.capital < first.capital && first.netProfit <= 0.0 < last.netProfit
    ensures c <= InterpolateZeroCrossing(last, first) <==>
              LineNonNegative(last, first, c)
  {
    var drop, width, gap := last.netProfit - first.netProfit, first.capital - last.capital, c - last.capital;
    var fraction := last.netProfit / drop;
    assert -last.netProfit / (first.netProfit - last.netProfit) == fraction;
    DivMul(last.netProfit, drop);
    var reach := fraction * width;
    assert reach * drop == last.netProfit * width;
    if gap <= reach { MulMono(gap, reach, drop); } else { MulStrict(reach, gap, drop); }
    assert gap <= reach <==> gap * drop <= last.netProfit * width;
    assert gap * drop == gap * last.netProfit + gap * -first.netProfit;
    assert last.netProfit * width == gap * last.netProfit + (first.capital - c) * last.netProfit;
  }

  predicate Tested(tests: seq<real>, intended: real, c: real) {
    c in tests || c == intended
  }

  lemma TestedTiers(v: Venue, tests: seq<real>, intended: real) returns (sizes: seq<real>, tiers: seq<Tier>)
    requires v.Priceable()
    ensures sizes == TierSizes(tests, intended) && tiers == EvaluateTiers(v, sizes)
    ensures AscendingTiers(tiers) && Ascending(sizes) && tiers != []
    ensures forall x :: x in sizes <==> Tested(tests, intended, x)
    ensures forall c <- sizes :: EvaluateTier(v, c) in tiers
    ensures forall t <- tiers :: t.capital in sizes && t == EvaluateTier(v, t.capital)
    ensures forall t <- tiers :: t.capital <= tiers[|tiers| - 1].capital
  {
    hide EvaluateTier, TierSizes, EvaluateTiers;
    TierSizesAreTheSizes(tests, intended);
    sizes := TierSizes(tests, intended);
    tiers := EvaluateTiers(v, sizes);
    assert intended in sizes;
    forall i | 0 <= i < |sizes| ensures tiers[i].capital == sizes[i] && tiers[i] in tiers {
      TierIsEdge(v, sizes[i]);
    }
  }

  lemma {:induction false} FindTierFinds(tiers: seq<Tier>, t: Tier)
    requires AscendingTiers(tiers) && t in tiers
    ensures FindTier(tiers, t.capital) == Some(t)
  {
    if tiers[0] != t {
      assert t in tiers[1..];
      FindTierFinds(tiers[1..], t);
    }
  }

  /** What the curve reports as optimal, over every tested size. */
  lemma CurveOptimum(v: Venue, gross: real, intended: real, tests: seq<real>)
    requires v.Priceable()
    ensures var e := ComputeEdge(v, gross, intended, tests);
            && (e.optimalCapital.None? <==> forall c | Tested(tests, intended, c) :: !Profitable(EvaluateTier(v, c)))
            && (e.depthAdjustedPct.Some? <==> 0.0 < EvaluateTier(v, intended).filled)
            && (e.depthAdjustedPct.Some? ==> e.depthAdjustedPct.value == EvaluateTier(v, intended).netSpreadPct)
            && (e.optimalCapital.Some? ==>
                  var best := EvaluateTier(v, e.optimalCapital.value);
                  && Tested(tests, intended, e.optimalCapital.value)
                  && Profitable(best) && best.capital == e.optimalCapital.value
                  && e.optimalNetProfit == Some(best.netProfit) && e.realisticPct == Some(best.netSpreadPct)
                  && forall c | Tested(tests, intended, c) && Profitable(EvaluateTier(v, c)) ::
                       var t := EvaluateTier(v, c);
                       t.netProfit < best.netProfit || (t.netProfit == best.netProfit && best.capital <= c))
  {
    hide EvaluateTier;
    var sizes, tiers := TestedTiers(v, tests, intended);
    BestIsSmallestMaximiser(tiers);
    FindTierFinds(tiers, EvaluateTier(v, intended));
    forall c | c in sizes ensures EvaluateTier(v, c).capital == c {
      TierIsEdge(v, c);
    }
  }

  /** The pieces the ceiling is computed from. */
  lemma EdgeParts(v: Venue, gross: real, intended: real, tests: seq<real>) returns (tiers: seq<Tier>, o: Tier)
    requires v.Priceable()
    requires ComputeEdge(v, gross, intended, tests).optimalCapital.Some?
    ensures var e := ComputeEdge(v, gross, intended, tests);
            && tiers == e.tiers && e.optimalCapital.value == o.capital && tiers != []
            && e.maxProfitableCapital == Some(MaxProfitable(tiers, o))
    ensures o == EvaluateTier(v, o.capital) && Profitable(o) && Tested(tests, intended, o.capital)
    ensures AscendingTiers(tiers)
    ensures forall c | Tested(tests, intended, c) :: EvaluateTier(v, c) in tiers && EvaluateTier(v, c).capital == c
    ensures forall t <- tiers :: Tested(tests, intended, t.capital) && t == EvaluateTier(v, t.capital)
    ensures tiers[|tiers| - 1] in tiers && forall t <- tiers :: t.capital <= tiers[|tiers| - 1].capital
  {
    hide EvaluateTier;
    var sizes, ts := TestedTiers(v, tests, intended);
    tiers := ts;
    BestIsSmallestMaximiser(tiers);
    o := Best(tiers).value;
    forall c | Tested(tests, intended, c) ensures EvaluateTier(v, c).capital == c {
      TierIsEdge(v, c);
    }
  }

  /** Where profit runs out among the tested sizes, and where the reported ceiling lies. */
  lemma ProfitCeiling(v: Venue, gross: real, intended: real, tests: seq<real>)
    requires v.Regular()
    requires ComputeEdge(v, gross, intended, tests).optimalCapital.Some?
    ensures var e := ComputeEdge(v, gross, intended, tests);
            var best, ceiling := e.optimalCapital.value, e.maxProfitableCapital.value;
            if forall c | Tested(tests, intended, c) && best < c :: Profitable(EvaluateTier(v, c)) then
              Tested(tests, intended, ceiling) && forall c | Tested(tests, intended, c) :: c <= ceiling
            else
              exists u | Tested(tests, intended, u) :: ProfitStopsAt(v, intended, tests, best, u, ceiling)
  {
    hide ComputeEdge, EvaluateTier, InterpolateZeroCrossing, FirstUnprofitable, SortedBook, ValidBook, ValidFees;
    var tiers, o := EdgeParts(v, gross, intended, tests);
    FirstUnprofitableIsFirst(tiers, o.capital);
    var first := FirstUnprofitable(tiers, o.capital);
    if first.Some? {
      StopsAtFirst(v, intended, tests, o.capital, first.value.capital);
    } else {
      assert forall c | Tested(tests, intended, c) && o.capital < c :: EvaluateTier(v, c) in tiers;
    }
  }

  /** `u` splits the tested sizes into profitable and not, and the ceiling is in (best, u]. */
  ghost predicate ProfitStopsAt(v: Venue, intended: real, tests: seq<real>, best: real, u: real, ceiling: real)
    requires v.Priceable()
  {
    && best < ceiling <= u
    && (ceiling == u <==> EvaluateTier(v, u).netProfit == 0.0)
    && forall c | Tested(tests, intended, c) && 0.0 < c :: Profitable(EvaluateTier(v, c)) <==> c < u
  }

  lemma StopsAtFirst(v: Venue, intended: real, tests: seq<real>, best: real, u: real)
    requires v.Regular() && best < u
    requires Profitable(EvaluateTier(v, best)) && !Profitable(EvaluateTier(v, u))
    requires forall c | Tested(tests, intended, c) && best < c < u :: Profitable(EvaluateTier(v, c))
    ensures ProfitStopsAt(v, intended, tests, best, u,
                          InterpolateZeroCrossing(EvaluateTier(v, best), EvaluateTier(v, u)))
  {
    hide EvaluateTier, InterpolateZeroCrossing, SortedBook, ValidBook, ValidFees;
    UnprofitableLosesMoney(v, best, u);
    TierIsEdge(v, best);
    TierIsEdge(v, u);
    CrossingBetween(EvaluateTier(v, best), EvaluateTier(v, u));
    forall c | Tested(tests, intended, c) && 0.0 < c ensures Profitable(EvaluateTier(v, c)) <==> c < u {
      if c <= best {
        ProfitablePrefix(v, c, best);
      } else if u <= c {
        ProfitablePrefix(v, u, c);
      }
    }
  }

  lemma UnprofitableLosesMoney(v: Venue, best: real, u: real)
    requires v.Priceable() && best < u
    requires Profitable(EvaluateTier(v, best)) && !Profitable(EvaluateTier(v, u))
    ensures 0.0 < EvaluateTier(v, u).filled && EvaluateTier(v, u).netProfit <= 0.0
  {
    hide EvaluateTier;
    TierIsEdge(v, best);
    TierIsEdge(v, u);
  }

  /** The ceiling reaches one tested size exactly when the line it is read off is non-negative there. */
  lemma CeilingReachesTier(v: Venue, gross: real, intended: real, tests: seq<real>, c: real)
    requires v.Priceable()
    requires ComputeEdge(v, gross, intended, tests).optimalCapital.Some?
    requires Tested(tests, intended, c)
    ensures var e := ComputeEdge(v, gross, intended, tests);
            var best := EvaluateTier(v, e.optimalCapital.value);
            var first := FirstUnprofitable(e.tiers, best.capital);
            c <= e.maxProfitableCapital.value <==>
              first.Some? ==> LineNonNegative(best, first.value, c)
  {
    hide ComputeEdge, EvaluateTier, InterpolateZeroCrossing, FirstUnprofitable, LineNonNegative, ValidBook;
    var tiers, o := EdgeParts(v, gross, intended, tests);
    FirstUnprofitableIsFirst(tiers, o.capital);
    var first := FirstUnprofitable(tiers, o.capital);
    if first.Some? {
      UnprofitableLosesMoney(v, o.capital, first.value.capital);
      CrossingReaches(o, first.value, c);
    } else {
      assert EvaluateTier(v, c) in tiers;
    }
  }

  /** `o` is the smallest of the tested sizes that net the most. */
  ghost predicate IsOptimum(v: Venue, intended: real, tests: seq<real>, o: real)
    requires v.Priceable()
  {
    && Tested(tests, intended, o) && Profitable(EvaluateTier(v, o))
    && forall c | Tested(tests, intended, c) && Profitable(EvaluateTier(v, c)) ::
         var t, best := EvaluateTier(v, c), EvaluateTier(v, o);
         t.netProfit < best.netProfit || (t.netProfit == best.netProfit && o <= c)
  }

  ghost predicate CoversPayingSizes(v: Venue, intended: real, tests: seq<real>, ceiling: real)
    requires v.Priceable()
  {
    forall c | Tested(tests, intended, c) && Profitable(EvaluateTier(v, c)) :: c <= ceiling
  }

  /** `largest` is the largest tested size that pays. */
  ghost predicate IsLargestPaying(v: Venue, intended: real, tests: seq<real>, largest: real)
    requires v.Priceable()
  {
    && Tested(tests, intended, largest) && Profitable(EvaluateTier(v, largest))
    && CoversPayingSizes(v, intended, tests, largest)
  }

  /** `u` is the next tested size above `c`. */
  ghost predicate IsNextTested(intended: real, tests: seq<real>, c: real, u: real) {
    && Tested(tests, intended, u) && c < u
    && forall d | Tested(tests, intended, d) && c < d :: u <= d
  }

  /** When some tested size pays there is an optimum and a largest paying size. */
  lemma PayingSizesAreBounded(v: Venue, intended: real, tests: seq<real>, c: real) returns (o: real, largest: real)
    requires v.Priceable() && Tested(tests, intended, c) && Profitable(EvaluateTier(v, c))
    ensures IsOptimum(v, intended, tests, o) && IsLargestPaying(v, intended, tests, largest)
  {
    hide EvaluateTier;
    CurveOptimum(v, 0.0, intended, tests);
    o := ComputeEdge(v, 0.0, intended, tests).optimalCapital.value;
    var sizes, _ := TestedTiers(v, tests, intended);
    largest := LargestPaying(v, sizes, c);
  }

  lemma {:induction false} LargestPaying(v: Venue, sizes: seq<real>, c: real) returns (largest: real)
    requires v.Priceable() && Ascending(sizes) && c in sizes && Profitable(EvaluateTier(v, c))
    ensures largest in sizes && Profitable(EvaluateTier(v, largest))
    ensures forall d <- sizes | Profitable(EvaluateTier(v, d)) :: d <= largest
  {
    hide EvaluateTier;
    var n := |sizes| - 1;
    if Profitable(EvaluateTier(v, sizes[n])) {
      largest := sizes[n];
    } else {
      assert forall d :: d in sizes <==> d in sizes[..n] || d == sizes[n];
      largest := LargestPaying(v, sizes[..n], c);
    }
  }

  /**
   The ceiling is documented as lying beyond the largest profitable tier. It is
   interpolated from the optimal tier instead. It covers every tested size that
   pays exactly when no larger size was tested, or the chord from the optimum to
   the next size tested above the largest paying one is non-negative at the latter.
   */
  lemma CeilingCoversPayingSizesIff(v: Venue, gross: real, intended: real, tests: seq<real>, o: real, largest: real)
    requires v.Regular() && IsOptimum(v, intended, tests, o) && IsLargestPaying(v, intended, tests, largest)
    ensures var e := ComputeEdge(v, gross, intended, tests);
            && e.maxProfitableCapital.Some?
            && (CoversPayingSizes(v, intended, tests, e.maxProfitableCapital.value)
                <==> forall u | IsNextTested(intended, tests, largest, u) ::
                       LineNonNegative(EvaluateTier(v, o), EvaluateTier(v, u), largest))
  {
    hide ComputeEdge, EvaluateTier, FirstUnprofitable, LineNonNegative, ValidBook, SortedBook, ValidFees;
    CurveOptimum(v, gross, intended, tests);
    var tiers, best := EdgeParts(v, gross, intended, tests);
    assert best.capital == o;
    var first := FirstUnprofitable(tiers, o);
    FirstUnprofitableIsFirst(tiers, o);
    CeilingReachesTier(v, gross, intended, tests, largest);
    if first.Some? {
      FirstLosingIsNext(v, intended, tests, o, largest, first.value.capital);
    } else {
      assert forall c | Tested(tests, intended, c) :: EvaluateTier(v, c) in tiers;
      assert forall u :: !IsNextTested(intended, tests, largest, u);
    }
  }

  lemma FirstLosingIsNext(v: Venue, intended: real, tests: seq<real>, o: real, largest: real, u: real)
    requires v.Regular() && IsOptimum(v, intended, tests, o) && IsLargestPaying(v, intended, tests, largest)
    requires Tested(tests, intended, u) && o < u && !Profitable(EvaluateTier(v, u))
    requires forall c | Tested(tests, intended, c) && o < c < u :: Profitable(EvaluateTier(v, c))
    ensures forall w :: IsNextTested(intended, tests, largest, w) <==> w == u
  {
    hide EvaluateTier, ValidBook, SortedBook, ValidFees;
    if o <= 0.0 { NonPositiveSizesNeverPay(v, o); }
    if u <= largest { ProfitablePrefix(v, u, largest); }
  }

  /** `u` is the smallest tested size above `o` that does not pay. */
  ghost predicate IsFirstLosing(v: Venue, intended: real, tests: seq<real>, o: real, u: real)
    requires v.Priceable()
  {
    && Tested(tests, intended, u) && o < u && !Profitable(EvaluateTier(v, u))
    && forall c | Tested(tests, intended, c) && o < c < u :: Profitable(EvaluateTier(v, c))
  }

  /**
   The ceiling of an optimum `o`: up to any size exactly as the chord from `o` to
   the first losing size stays non-negative, or the largest tested size when none loses.
   */
  ghost predicate IsCeiling(v: Venue, intended: real, tests: seq<real>, o: real, ceiling: real)
    requires v.Priceable()
  {
    && (forall u, c | IsFirstLosing(v, intended, tests, o, u) ::
          c <= ceiling <==> LineNonNegative(EvaluateTier(v, o), EvaluateTier(v, u), c))
    && ((forall u :: !IsFirstLosing(v, intended, tests, o, u)) ==>
          Tested(tests, intended, ceiling) && forall c | Tested(tests, intended, c) :: c <= ceiling)
  }

  /** What the curve reports besides its optimum: the spread it was given, every tested tier once, and the ceiling. */
  lemma CurveReports(v: Venue, gross: real, intended: real, tests: seq<real>)
    requires v.Priceable()
    ensures var e := ComputeEdge(v, gross, intended, tests);
            && e.theoreticalPct == gross && AscendingTiers(e.tiers)
            && (forall t :: t in e.tiers <==> Tested(tests, intended, t.capital) && t == EvaluateTier(v, t.capital))
            && (e.optimalCapital.Some? <==> e.maxProfitableCapital.Some?)
            && (e.optimalCapital.Some? ==>
                  && IsOptimum(v, intended, tests, e.optimalCapital.value)
                  && IsCeiling(v, intended, tests, e.optimalCapital.value, e.maxProfitableCapital.value))
  {
    hide EvaluateTier, InterpolateZeroCrossing, FirstUnprofitable, LineNonNegative;
    CurveTiers(v, gross, intended, tests);
    CurveOptimum(v, gross, intended, tests);
    if ComputeEdge(v, gross, intended, tests).optimalCapital.Some? {
      CeilingIs(v, gross, intended, tests);
    }
  }

  lemma CurveTiers(v: Venue, gross: real, intended: real, tests: seq<real>)
    requires v.Priceable()
    ensures var tiers := ComputeEdge(v, gross, intended, tests).tiers;
            && AscendingTiers(tiers)
            && forall t :: t in tiers <==> Tested(tests, intended, t.capital) && t == EvaluateTier(v, t.capital)
  {
    hide EvaluateTier, TierSizes, EvaluateTiers;
    var sizes, tiers := TestedTiers(v, tests, intended);
  }

  lemma CeilingIs(v: Venue, gross: real, intended: real, tests: seq<real>)
    requires v.Priceable() && ComputeEdge(v, gross, intended, tests).optimalCapital.Some?
    ensures var e := ComputeEdge(v, gross, intended, tests);
            && e.maxProfitableCapital.Some?
            && IsCeiling(v, intended, tests, e.optimalCapital.value, e.maxProfitableCapital.value)
  {
    hide ComputeEdge, EvaluateTier, InterpolateZeroCrossing, FirstUnprofitable, LineNonNegative, ValidBook;
    var tiers, o := EdgeParts(v, gross, intended, tests);
    FirstUnprofitableIsFirst(tiers, o.capital);
    var first := FirstUnprofitable(tiers, o.capital);
    if first.Some? {
      var u := first.value.capital;
      UnprofitableLosesMoney(v, o.capital, u);
      forall c: real ensures c <= InterpolateZeroCrossing(o, first.value) <==> LineNonNegative(o, first.value, c) {
        CrossingReaches(o, first.value, c);
      }
      assert IsFirstLosing(v, intended, tests, o.capital, u);
      assert forall w :: IsFirstLosing(v, intended, tests, o.capital, w) ==> w == u;
    } else {
      assert forall u :: IsFirstLosing(v, intended, tests, o.capital, u) ==> EvaluateTier(v, u) in tiers;
    }
  }

  /** Two levels on each side and no fees; three sizes are tested. */
  function ThinVenue(): Venue {
    var free := Schedule(0.0, 0.0, 0.0, 0.0);
    Venue([Level(1.0, 250.0), Level(100.0, 10.0)], [Level(2.0, 50.0), Level(0.8, 1000.0)],
          FeeEngine(map["binance" := free, "bybit" := free], map[]), "binance", "bybit")
  }

  lemma TwoLevels(a: Level, b: Level, t: real)
    requires ValidBook([a, b]) && 0.0 < a.price && 0.0 < b.price && 0.0 < t <= LevelUsd(a) + LevelUsd(b)
    ensures Filled([a, b], t) == t
    ensures Quantity([a, b], t)
         == if t <= LevelUsd(a) then UnitsFor(t, a.price)
            else UnitsFor(LevelUsd(a), a.price) + UnitsFor(t - LevelUsd(a), b.price)
  {
    assert [a, b][1..] == [b];
    assert Quantity([b], t - LevelUsd(a)) == UnitsFor(Min(t - LevelUsd(a), LevelUsd(b)), b.price);
    assert Filled([b], t - LevelUsd(a)) == Min(t - LevelUsd(a), LevelUsd(b));
  }

  lemma ThinVenueIsRegular()
    ensures ThinVenue().Regular()
  {
  }

  lemma ThinWalk(v: Venue, t: real, qa: real, qb: real)
    requires v == ThinVenue() && v.Priceable() && 0.0 < t <= 500.0
    requires qa == if t <= 250.0 then t else 250.0 + (t - 250.0) / 100.0
    requires qb == if t <= 100.0 then t / 2.0 else 50.0 + (t - 100.0) / 0.8
    ensures Filled(v.asks, t) == t && Quantity(v.asks, t) == qa
    ensures Filled(v.bids, t) == t && Quantity(v.bids, t) == qb
  {
    hide Filled, Quantity;
    TwoLevels(v.asks[0], v.asks[1], t);
    TwoLevels(v.bids[0], v.bids[1], t);
  }

  /** Without fees a fully filled tier turns `t` USD into qa / qb times as much. */
  lemma FreeTier(v: Venue, t: real, qa: real, qb: real)
    requires v.Priceable() && 0.0 < t && 0.0 < qa && 0.0 < qb
    requires TakerRate(v.fees, v.buyExchange) == TakerRate(v.fees, v.sellExchange) == 0.0
    requires Filled(v.asks, t) == t && Quantity(v.asks, t) == qa
    requires Filled(v.bids, t) == t && Quantity(v.bids, t) == qb
    ensures EvaluateTier(v, t).capital == EvaluateTier(v, t).filled == t
    ensures EvaluateTier(v, t).netProfit == t * (qa / qb - 1.0)
  {
    hide Filled, Quantity, TakerRate, Depth, Worst, EvaluateTier;
    TierIsEdge(v, t);
    CancelTarget(t, qa, qb);
    FilledIsMin(v.asks, t);
    FilledIsMin(v.bids, t);
  }

  lemma CancelTarget(t: real, qa: real, qb: real)
    requires 0.0 < t && 0.0 < qa && 0.0 < qb
    ensures t / qa != 0.0 && Edge(t / qa, t / qb, 0.0, 0.0) == qa / qb - 1.0
  {
    DivSign(t, qa);
    DivMul(t, qa);
    DivMul(t, qb);
    DivMul(qa, qb);
    var x, y, r := t / qa, t / qb, qa / qb;
    assert r * x * qb == t == y * qb;
    assert r * x == y;
    assert y / x == r;
  }

  lemma ThinTier(v: Venue, t: real, qa: real, qb: real)
    requires v == ThinVenue() && v.Priceable() && 0.0 < t <= 500.0 && 0.0 < qa && 0.0 < qb
    requires qa == if t <= 250.0 then t else 250.0 + (t - 250.0) / 100.0
    requires qb == if t <= 100.0 then t / 2.0 else 50.0 + (t - 100.0) / 0.8
    ensures EvaluateTier(v, t).capital == EvaluateTier(v, t).filled == t
    ensures EvaluateTier(v, t).netProfit == t * (qa / qb - 1.0)
  {
    hide Filled, Quantity, Depth, Worst, EvaluateTier;
    assert TakerRate(v.fees, v.buyExchange) == TakerRate(v.fees, v.sellExchange) == 0.0;
    ThinWalk(v, t, qa, qb);
    FreeTier(v, t, qa, qb);
  }

  /** The ceiling can fall below a tested size that still makes money. */
  lemma CeilingBelowAProfitableTier()
    ensures ThinVenue().Regular()
    ensures var e := ComputeEdge(ThinVenue(), 100.0, 100.0, [250.0, 500.0]);
            && e.optimalCapital == Some(100.0)
            && e.maxProfitableCapital.Some? && e.maxProfitableCapital.value < 250.0
            && Profitable(EvaluateTier(ThinVenue(), 250.0))
  {
    hide EvaluateTier, ThinVenue, InterpolateZeroCrossing, FirstUnprofitable, ComputeEdge;
    ThinVenueIsRegular();
    var v, tests := ThinVenue(), [250.0, 500.0];
    ThinTier(v, 100.0, 100.0, 50.0);
    ThinTier(v, 250.0, 250.0, 237.5);
    ThinTier(v, 500.0, 252.5, 550.0);
    assert Tested(tests, 100.0, 100.0) && Tested(tests, 100.0, 250.0) && Tested(tests, 100.0, 500.0);
    CurveOptimum(v, 100.0, 100.0, tests);
    var tiers, o := EdgeParts(v, 100.0, 100.0, tests);
    FirstUnprofitableIsFirst(tiers, 100.0);
    CeilingReachesTier(v, 100.0, 100.0, tests, 250.0);
  }
}
