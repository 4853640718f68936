# Verified models of an arbitrage system's decision core

The system watches several crypto exchanges, looks for price differences,
sizes trades from order-book depth, buys inventory ahead of a trade, and keeps
reserves on each exchange. This project models the code that makes those
decisions and proves what it can be relied on for. Prices, quantities and
balances are `real`; every tolerance and default of the code is a named
constant.

| file | what it models |
|---|---|
| `RealMath.dfy` | shared facts about products and quotients |
| `OrderBook.dfy` | walking a book to a USD target and to a quantity |
| `Fees.dfy` | fee rates and the break-even floor |
| `ExecutionDepth.dfy` | the profit curve over trade sizes, its optimum and its ceiling |
| `SpreadScanner.dfy` | pricing and emitting a cross-exchange opportunity |
| `Triangular.dfy` | the triangular loop walk, its gates and a whole scan |
| `CapitalReplay.dfy` | the reserve check and the replay of a run of spends |
| `Sizing.dfy` | lot rounding, dual-leg sizing, inventory quantities |
| `DualLegQuote.dfy` | slippage and profit of the dual-leg quote, and what the purchase after it covers |
| `InventoryGuard.dfy` | admission, kill switch and operation counter |
| `ConstitutionAttempt.dfy` | one inventory purchase, cut at its await points |
| `ConstitutionProtocol.dfy` | many purchases, exchange replies and operators interleaved |
| `RebalanceAllocator.dfy` | the greedy rebalance recommendation |
| `CandidateSelection.dfy` | judging candidates and the rejection cache |
| `Funding.dfy`, `DynamicFloor.dfy` | funding payments crossed; dynamic reserve floors |

Run `dafny verify dfyconfig.toml` to check everything.

## Where the code and its own description differ

Each difference is stated as a theorem with the exact condition under which the
description holds, for all inputs, beside a concrete input that breaks it.

- The profitable ceiling is described as lying beyond the largest profitable
  size. It is interpolated from the optimal size, so it covers every tested size
  that pays exactly when nothing larger was tested, or the chord from the optimum
  to the next size tested above the largest paying one is non-negative at the
  latter (`CeilingCoversPayingSizesIff`, `CeilingBelowAProfitableTier`).
- An opportunity is described by the profit of its optimal size, but it sells
  `capital / buy price` units at an average taken over a different number of
  units (`SellOverreaches`). Sold into the bids it nets a profit exactly when
  walking the bids to its break-even proceeds stays within their depth and takes
  fewer units than were bought (`RealisedPositiveIff`); one that reports more than
  99 USD and loses money is `EmittedTradeLoses`.
- "Never breach the floor": a rebalanced spend ends below the floor by the fee
  of the reconversion, unless the same event credits that exchange
  (`FloorKeptIff`, `FloorBreachExample`). Over whole runs the true bound is
  `f*N/(1-f)` below the floor (`NeverBelowDriftLimit`), and no better bound holds
  (`DriftLimitIsSharp`).
- The replay's inventory can go negative on the receiving exchange
  (`StockStaysNonNegativeIff`, `NegativeStockExample`).
- Rounding down rounds up within a billionth of a step (`RoundsUpIff`,
  `RoundsUpExample`).
- The common quantity is described as valid on both exchanges because it uses
  the coarser step; over all inputs that is so exactly when the coarser step is
  a lot of the finer one (`CommonQuantityFitsBothIff`,
  `CommonQuantityMissesFinerStep`). The quoted quantity, described as rounded on
  both legs, is a lot on both for every request exactly when the steps are equal
  or neither leg has one (`QuoteFitsBothIff`, `UnequalStepsMiss`).
- The inventory order is placed for the requested notional; the required base
  quantity is reported and sizes nothing. One order covers its quote exactly when
  the next lot above what it leaves is out of reach on one of the legs
  (`OrderCoversQuoteIff`); orders of every size do exactly up to a fill price that
  no executable quote allows (`OrderAlwaysCoversIff`,
  `ExecutableQuoteOutgrowsItsOrder`, `OrderFallsShort`).
- An order goes without outcome and without an engaged kill switch exactly when
  its task is cancelled in flight, or the post-fill quote comes from a market
  that publishes no minimum notional (`OrderFateIff`, `CancelledOrderExample`,
  `RaisedOrderExample`).
- Visible depth that falls short counts as full slippage; no visible depth at all
  counts as none (`ShortDepthCountsIff`, `EmptyDepthExample`).
- With the pairs of a triple listed, no uncrossed snapshot has it emitted both
  forward and backward exactly when none is listed both ways round
  (`BothDirectionsIff`, `DoublyListedEmitsBoth`).
- An asset's inventory cap holds for all holdings and budgets exactly unless two
  wanted scores are of that asset on a funded exchange (`CapAlwaysHoldsIff`,
  `DuplicateScoresBreakTheCap`).
- Funding payments in the last microsecond of a hold are not counted
  (`StrictCountIff`, `LastMicrosecondExample`).

## Model

| member | source | states |
|---|---|---|
| OrderBook.SimulateVwap | app/market_data/orderbook.py:30-62 | the loop with its early break computes the level-by-level walk; filled USD is the target or the whole depth, whichever is less |
| OrderBook.VwapReports | app/market_data/orderbook.py:55-62 | filled is min(target, depth), the average turns the units into it, and the target counts as fully filled iff the depth covers it up to the tolerance |
| OrderBook.WorstIsLastReached | app/market_data/orderbook.py:40-53 | the worst price is that of the level at which the depth first covers the target, or of the last level |
| OrderBook.FilledIsMin | app/market_data/orderbook.py:42-53 | conservation: the walk spends min(target, depth) |
| OrderBook.MarginalBound | app/market_data/orderbook.py:42-53 | what raising the target adds is traded at no better than the best remaining price |
| OrderBook.RatioMonotone | app/market_data/orderbook.py:42-55 | on a sorted book, USD per unit never improves as the target grows |
| OrderBook.AverageMonotone | app/market_data/orderbook.py:55 | a bigger target never gets a better average price |
| OrderBook.WorstMonotone | app/market_data/orderbook.py:40-53 | the last price visited never improves with the target, and is no better than the first |
| OrderBook.AverageBetween | app/market_data/orderbook.py:40-55 | the average lies between best and worst price visited |
| OrderBook.WalkIsBest | app/market_data/orderbook.py:42-53 | no other way of spreading the same money over the levels buys more units (or gives up fewer when selling) |
| OrderBook.WalkIsAnAllocation | app/market_data/orderbook.py:42-53 | the walk is itself such a spread, so that bound is attained |
| OrderBook.VwapForTargetQty | app/execution/reality_quote.py:71-88 | the loop to a quantity computes the specified walk, its units and its average |
| OrderBook.UnitsFilledIsMin | app/execution/reality_quote.py:77-85 | it fills the target or all units, whichever is less |
| OrderBook.WalksAgree | app/execution/reality_quote.py:77-85 | the two walks undo each other: `units` move more than `t` USD iff `t` is within the depth and takes fewer units |
| OrderBook.UnitWalkIsBest | app/execution/reality_quote.py:77-85 | no other way of trading those units sells for more or buys for less |
| OrderBook.UnitWalkIsAnAllocation | app/execution/reality_quote.py:77-85 | the walk is itself such a way |
| Fees.EffectiveRate | app/analytics/fees.py:21-38 | with valid schedules and overrides the applied rate is a fraction |
| Fees.OverrideTakesPrecedence | app/analytics/fees.py:21-38 | an override that covers the side decides whatever the schedules say; without one the standard rate applies |
| Fees.RatesAre | app/analytics/fees.py:26-38 | which of the four published rates applies to which market and side |
| ExecutionDepth.TierIsEdge | app/analytics/execution_depth.py:52-85 | a tier trades iff capital and both depths are positive; it fills min(capital, depths) and nets filled × (sell/buy × (1 − sell rate) − 1 − buy rate) |
| ExecutionDepth.TierFullyFilledIff | app/analytics/execution_depth.py:63-85 | a tier counts as fully filled iff both books hold its capital up to the tolerance |
| ExecutionDepth.SpreadFallsWithSize | app/analytics/execution_depth.py:52-85 | on any sorted books the net percentage never rises with size |
| ExecutionDepth.ProfitableIsPositiveSpread | app/analytics/execution_depth.py:120 | a tier counts as profitable iff its net percentage is positive |
| ExecutionDepth.ProfitablePrefix | app/analytics/execution_depth.py:120-129 | profitable sizes form a prefix: none lies past an unprofitable one |
| ExecutionDepth.NonPositiveSizesNeverPay | app/analytics/execution_depth.py:63-66 | sizes of zero or less are never profitable, whatever the books |
| ExecutionDepth.TierSizesAreTheSizes | app/analytics/execution_depth.py:114 | the tier list is strictly ascending and holds exactly the tested sizes and the intended one |
| ExecutionDepth.BestIsSmallestMaximiser | app/analytics/execution_depth.py:120-121 | the optimum is the smallest size among those of greatest net profit; none iff nothing pays |
| ExecutionDepth.FirstUnprofitableIsFirst | app/analytics/execution_depth.py:128-129 | the losing tier found is the smallest one above the optimum |
| ExecutionDepth.CrossingBetween | app/analytics/execution_depth.py:88-98 | the interpolated crossing lies strictly above the profitable end and at or below the losing one |
| ExecutionDepth.CrossingReaches | app/analytics/execution_depth.py:93-98 | it reaches a size iff the straight line through the two tiers is non-negative there |
| ExecutionDepth.CurveOptimum | app/analytics/execution_depth.py:114-147 | the reported optimum, profit and percentages are those of the smallest best tested size |
| ExecutionDepth.CurveReports | app/analytics/execution_depth.py:111-147 | besides the optimum: the spread it was given, every tested tier once in order, and a ceiling that reaches any size iff the chord from the optimum to the first losing size is non-negative there |
| ExecutionDepth.ProfitCeiling | app/analytics/execution_depth.py:123-137 | if every larger size pays, the ceiling is the largest size tested; otherwise one size splits the tested sizes into paying and not, and the ceiling is in (optimum, that size] |
| ExecutionDepth.CeilingCoversPayingSizesIff | app/analytics/execution_depth.py:88-137 | on sorted books, the described claim (lines 49 and 89) iff no tested size follows the largest paying one, or the chord from the optimum to the next is non-negative at it |
| ExecutionDepth.PayingSizesAreBounded | app/analytics/execution_depth.py:114-129 | the optimum and the largest paying size that the claim is about exist as soon as one tested size pays |
| ExecutionDepth.CeilingBelowAProfitableTier | app/analytics/execution_depth.py:131 | sorted books and fees, with a reported optimum, for which the ceiling is below a size that pays |
| SpreadScanner.EmittedIff | app/engines/_shared.py:126-148 | an opportunity is emitted iff capital and liquidity are positive and some tested size pays |
| SpreadScanner.EmittedIffSmallestPays | app/engines/_shared.py:126-148 | on sorted books one size decides: emitted iff capital is positive and min(100, capital) pays |
| SpreadScanner.EmittedIsTheOptimum | app/engines/_shared.py:140-187 | what is emitted is the smallest tested size that nets the most, with that size's profit and percentage, its ceiling, and the spread and floor passed in |
| SpreadScanner.EmittedCeiling | app/engines/_shared.py:143-187 | on sorted books the emitted ceiling lies where profit runs out among the tested sizes |
| SpreadScanner.EmittedIsConsistent | app/engines/_shared.py:150-187 | it is strictly profitable, trades one quantity, and its profit, capital and percentage follow from its own legs and the fee table |
| SpreadScanner.LegsEarnTheProfit | app/engines/_shared.py:154-171 | the tier's profit is the profit recomputed from the two legs |
| SpreadScanner.SellOverreaches | app/engines/_shared.py:150-154 | the sold quantity exceeds the walked bid quantity iff the bids fill no more USD than the asks, or give up fewer units |
| SpreadScanner.RealisedPositiveIff | app/engines/_shared.py:150-177 | sold into the bids, an emitted trade nets a profit iff walking them to its break-even proceeds stays within depth and takes fewer units than it sells |
| SpreadScanner.RealisedIsTheBest | app/engines/_shared.py:150-171 | no way of selling up to that quantity nets more than the best-first sale |
| SpreadScanner.RealisedAgainstReported | app/engines/_shared.py:150-177 | it realises no more than reported when the quantity overreaches, no less when it does not |
| SpreadScanner.ReportedProfitIsACeiling | app/engines/_shared.py:150-177 | so when it overreaches, the reported profit bounds every way of selling it |
| SpreadScanner.EmittedTradeLoses | app/engines/_shared.py:150-187 | books for which a trade reported above 99 USD realises a loss |
| SpreadScanner.TopOfBookBoundsEveryTier | app/analytics/execution_depth.py:52-85 | the top-of-book edge after fees bounds the net percentage at every size |
| Triangular.FindHop | app/engines/triangular.py:76-88 | none iff neither order is listed with a positive price on its side; a buy whenever to/from has an ask, else a sell; with that listing's quote |
| Triangular.EvaluatePath | app/engines/triangular.py:90-166 | the hop loop and gates compute the recursive walk and its verdict, which the next two rows characterise |
| Triangular.TriangleEmittedIff | app/engines/triangular.py:91-149 | emitted iff three fresh listed conversions, each taken up to what is held and quoted, are possible and gain something and at least three taker fees plus the buffers |
| Triangular.EmittedReports | app/engines/triangular.py:139-166 | capital, gross and net percentage, floor and profit after each leg's fee follow from the emitted legs alone, marked along the legs from price 1 |
| Triangular.WalkIff | app/engines/triangular.py:113-137 | for any number of hops the walk succeeds iff legs follow them, each as far as holding and depth go, and reports those |
| Triangular.FeesFromLegs | app/engines/triangular.py:124-136 | the fees on the notionals are those of the legs at their marked values |
| Triangular.Detect | app/engines/triangular.py:59-74 | a scan is, triple by triple, the forward then the backward verdict |
| Triangular.ScanFinds | app/engines/triangular.py:59-74 | a scan reports exactly the triangles emitted for some configured triple in one direction or the other |
| Triangular.ScanOfOne | app/engines/triangular.py:69-73 | of one triple, forward before backward |
| Triangular.ScanAppends | app/engines/triangular.py:69-74 | triple after triple |
| Triangular.WalkShape | app/engines/triangular.py:113-140 | one leg and one positive notional per hop, so the division by the first is safe |
| Triangular.HopKeepsValue | app/engines/triangular.py:115-137 | received quantity times its new USD price is the hop's fee notional |
| Triangular.NotionalsNeverRise | app/engines/triangular.py:113-137 | fee notionals never rise along a loop of any length, whatever the depth caps |
| Triangular.ReturnBound | app/engines/triangular.py:113-139 | the loop returns at most the product of its rates on what enters the first hop |
| Triangular.LegsAreChained | app/engines/triangular.py:123-137 | each reported leg pays no more than the leg before it brought in, and the last yields the end capital |
| Triangular.FeesWithinFloor | app/engines/triangular.py:151 | fees on notionals below the first cost at most the floor's fee percentage of it |
| Triangular.ClearedLoopNetsTheBuffers | app/engines/triangular.py:142-153 | a loop of any length that clears its break-even floor nets at least the buffers |
| Triangular.EmittedClearsBuffers | app/engines/triangular.py:142-166 | every emitted triangle nets at least slippage, rebalancing and safety buffers |
| Triangular.SingleListingHasNoGain | app/engines/triangular.py:76-88 | with one uncrossed listing per pair, going there and back never gains |
| Triangular.EmittedNeedsRates | app/engines/triangular.py:139-144 | an emitted loop's rates multiply to more than one |
| Triangular.OneDirectionOnly | app/engines/triangular.py:68-88 | forward and backward of one triple are never both emitted from such a snapshot |
| Triangular.ScanEmitsAtMostOnePerTriple | app/engines/triangular.py:59-74 | a scan emits at most one opportunity per configured triple, each above the buffers |
| Triangular.SinglyListedHasNoGain | app/engines/triangular.py:76-88 | in an uncrossed snapshot a pair listed one way round never gains there and back |
| Triangular.DoublyListedEmitsBoth | app/engines/triangular.py:59-88 | for any set of symbols with a pair of the triple listed both ways, some uncrossed quotes emit both directions |
| Triangular.BothDirectionsIff | app/engines/triangular.py:59-88 | for any set of symbols covering the triple, some engine and uncrossed quotes emit both directions iff a pair is listed both ways round |
| CapitalReplay.DecisionMeans | app/execution/capital_rebalancer.py:115-138 | each decision iff: floor kept, opposite trade, inventory enough, or none of these |
| CapitalReplay.ImpactMeans | app/execution/capital_rebalancer.py:72-79 | the shortfall is exactly what would keep the floor, and a breach is a positive one |
| CapitalReplay.SimulateEventSequence | app/execution/capital_rebalancer.py:264-305 | the loop over its two dictionaries reports, for each exchange, the least and the last balance of its run; per event the decision on the state before it and both balances after it; and how many spends the floor did not allow |
| CapitalReplay.ReplayReports | app/execution/capital_rebalancer.py:264-305 | the same of the specified run |
| CapitalReplay.ReplayEvent | app/execution/capital_rebalancer.py:272-300 | the loop body: decision and new balances of one event |
| CapitalReplay.LowestIsTheMinimum | app/execution/capital_rebalancer.py:287-303 | the reported minimum is the least balance over every prefix of the run, and is attained |
| CapitalReplay.InterventionsAreTheNonAllowed | app/execution/capital_rebalancer.py:282-283 | interventions count exactly the steps not plainly allowed |
| CapitalReplay.RebalanceSellsTheShortfall | app/execution/capital_rebalancer.py:290-294 | a rebalance sells exactly the shortfall's worth, never more than is held |
| CapitalReplay.CashAfter | app/execution/capital_rebalancer.py:285-300 | USDT on either exchange after one event |
| CapitalReplay.HeldAfter | app/execution/capital_rebalancer.py:290-299 | inventory of any asset on either exchange after one event |
| CapitalReplay.FloorKeptIff | app/execution/capital_rebalancer.py:113-114 | an event keeps the spending exchange's floor iff it is no rebalance or its own credit covers the reconversion fee |
| CapitalReplay.FloorBreachExample | app/execution/capital_rebalancer.py:290-296 | a spend that starts at the floor and ends a cent under it |
| CapitalReplay.StepStaysAbove | app/execution/capital_rebalancer.py:285-300 | no event crosses a level that is the drift limit or more under the floor |
| CapitalReplay.NeverBelowDriftLimit | app/execution/capital_rebalancer.py:271-305 | over any run, every balance and reported minimum stays at or above min(start, floor − f·N/(1−f)) |
| CapitalReplay.DriftApproachesLimit | app/execution/capital_rebalancer.py:290-296 | each rebalanced spend from the floor closes the distance to the limit by the factor f |
| CapitalReplay.DrainReachesDrift | app/execution/capital_rebalancer.py:290-296 | a run that realises exactly that drift |
| CapitalReplay.DriftLimitIsSharp | app/execution/capital_rebalancer.py:271-305 | every level above the limit is undercut by some run of ordinary events |
| CapitalReplay.UsdtIsConserved | app/execution/capital_rebalancer.py:285-305 | end USDT is start − executed spends + executed receipts + reconverted shortfalls less fee |
| CapitalReplay.UnitsAreConserved | app/execution/capital_rebalancer.py:293-299 | units of each asset change only by what executed events received, sold and reconverted |
| CapitalReplay.StockStaysNonNegativeIff | app/execution/capital_rebalancer.py:299 | inventory stays non-negative iff the event is skipped, has no receiving exchange, or sells no more than is there |
| CapitalReplay.NegativeStockExample | app/execution/capital_rebalancer.py:299 | an executed event that leaves minus one unit |
| Sizing.RoundDownIsGreatest | app/execution/binance_filters.py:64-71 | the greatest multiple of the step within the tolerance; less than a step is given up |
| Sizing.RoundDownMonotone | app/execution/binance_filters.py:64-71 | rounding preserves order, for any step |
| Sizing.RoundDownIdempotent | app/execution/binance_filters.py:64-71 | rounding a rounded quantity changes nothing |
| Sizing.RoundsUpIff | app/execution/binance_filters.py:65-70 | "never up" fails iff the value is within a billionth of a step below a multiple |
| Sizing.RoundsUpExample | app/execution/binance_filters.py:70 | a value that is rounded up |
| Sizing.QuoteExecutableIff | app/execution/dual_leg_quote.py:108-155 | executable iff both legs are tradable, the quantity is positive and meets both minimum quantities and every published minimum notional, and the net profit is positive |
| Sizing.ExecutableQuantityIs | app/execution/dual_leg_quote.py:91-103 | what is rounded: the request within the cap at the higher price, nothing without a price |
| Sizing.ExecutableQuoteIsSound | app/execution/dual_leg_quote.py:91-155 | an executable quantity costs at most the desired size on each leg up to tolerance, and no lot of both legs within that size is larger, steps of zero included |
| Sizing.SharedLotIsGreatest | app/execution/dual_leg_quote.py:99-103 | the same for the smaller of two roundings of any quantity |
| Sizing.NestedStepsFitIff | app/execution/dual_leg_quote.py:101-103 | with nested steps the quantity is a lot on both legs iff the coarser rounding is no larger than the finer |
| Sizing.QuoteFitsBothIff | app/execution/inventory_constitution_executor.py:141-142 | "already step-rounded on both legs" holds for all requests iff the steps are equal or neither leg has one |
| Sizing.UnequalStepsMiss | app/execution/dual_leg_quote.py:99-103 | for any unequal steps, a request whose quantity is not a lot on both legs |
| Sizing.CommonQuantityIsGreatest | app/execution/dual_leg_quote.py:213-217 | the greatest lot of the coarser step within both quote and holding |
| Sizing.CommonQuantityFitsBothIff | app/execution/dual_leg_quote.py:204-205 | it is valid on both exchanges for all inputs iff the coarser step is a lot of the finer |
| Sizing.CommonFits | app/execution/dual_leg_quote.py:213-217 | with such steps every common quantity is a lot on both legs |
| Sizing.CommonQuantityMissesFinerStep | app/execution/dual_leg_quote.py:216-217 | steps and quantities for which it is not |
| Sizing.SafeNotionalIsSafe | app/execution/inventory_constitution_executor.py:208-214 | it raises iff no minimum is published and there is something to sell; a positive answer is within cap, minimum and step-rounded holding; and exactly when it is positive |
| Sizing.SafeNotionalPositiveIff | app/execution/inventory_constitution_executor.py:208-214 | positive iff some positive notional is within cap, minimum and rounded holding |
| Sizing.SafeNotionalRoundTrip | app/execution/inventory_constitution_executor.py:208-214 | a quote requested at the safe notional never sells more than the step-rounded holding |
| Sizing.RequiredQuantityCovers | app/execution/inventory_constitution_executor.py:149-154 | after a base-asset fee at least bare × (1 + margin) is held, for less than one step extra |
| Sizing.RequiredIsPositiveIff | app/execution/inventory_constitution_executor.py:149-154 | something is required iff something is to be covered |
| Sizing.UnroundedCoversIff | app/execution/inventory_constitution_executor.py:149-154 | without a step, the fee is covered iff the fee rate leaves the minimum kept share |
| Sizing.NetIsGrossLessBaseFee | app/execution/inventory_constitution_executor.py:187-194 | only a fee in the base asset reduces what is held, never below nothing |
| DualLegQuote.SlippageIsTheWalk | app/execution/dual_leg_quote.py:115-134 | the slippage charged on the quoted notional is exactly what the walk costs beyond it |
| DualLegQuote.NetProfitIsTheWalk | app/execution/dual_leg_quote.py:105-136 | with enough depth the net profit is sale minus purchase on both books, less fees at the quoted prices |
| DualLegQuote.ExecutableIff | app/execution/dual_leg_quote.py:91-155 | every check of the full quote, at the quantity both legs' rules give |
| DualLegQuote.ShortDepthCountsIff | app/execution/dual_leg_quote.py:115-129 | depth that falls short counts as full slippage iff some of it is visible |
| DualLegQuote.ShortSlippageIs | app/execution/dual_leg_quote.py:116-129 | visible depth that falls short counts as full slippage, or as the walk's own when that is more |
| DualLegQuote.EmptyDepthExample | app/execution/dual_leg_quote.py:115-129 | a quote without any visible depth that is executable |
| DualLegQuote.ExecutableNeedsDepth | app/execution/dual_leg_quote.py:105-155 | an executable quote sells above its buy price; visible sell depth holds its quantity, and visible buy depth does unless the sell price is over twice the buy price |
| DualLegQuote.OrderCoversQuoteIff | app/execution/inventory_constitution_executor.py:405-429 | the order for the requested notional covers the quoted quantity iff on one leg the next lot above its net fill is out of reach of the request |
| DualLegQuote.OrderAlwaysCoversIff | app/execution/inventory_constitution_executor.py:405-429 | for all notionals and lots it does iff the fill price is within (1 − ε)(1 − fee) of the better quoted price |
| DualLegQuote.ExecutableQuoteOutgrowsItsOrder | app/execution/inventory_constitution_executor.py:405-429 | no executable quote filled at the sell bid or above meets that |
| DualLegQuote.OrderFallsShort | app/execution/inventory_constitution_executor.py:415-429 | an executable, profitable quote of five units whose order leaves less than four |
| InventoryGuard.Admission | app/execution/inventory_guard.py:73-92 | exactly when a purchase is admitted, and which refusal is reported first |
| InventoryGuard.InventoryConstitutionGuard.constructor | app/execution/inventory_guard.py:29-41 | a new guard is open with nothing in flight |
| InventoryGuard.InventoryConstitutionGuard.EngageKillSwitch | app/execution/inventory_guard.py:63-66 | engages, records reason and time, nothing else |
| InventoryGuard.InventoryConstitutionGuard.DisengageKillSwitch | app/execution/inventory_guard.py:68-71 | releases and clears, nothing else |
| InventoryGuard.InventoryConstitutionGuard.AssertInventoryConstitutionAllowed | app/execution/inventory_guard.py:73-92 | the in-place checks give the specified verdict |
| InventoryGuard.InventoryConstitutionGuard.RegisterOperationStart | app/execution/inventory_guard.py:94-95 | counts one operation in |
| InventoryGuard.InventoryConstitutionGuard.RegisterOperationEnd | app/execution/inventory_guard.py:97-98 | counts one out, never below zero |
| ConstitutionAttempt.AwaitTerminal | app/execution/inventory_constitution_executor.py:354-366 | true iff some poll before the deadline is terminal, with the first such status; otherwise the last poll |
| ConstitutionAttempt.FirstTerminalIsFirst | app/execution/inventory_constitution_executor.py:357-366 | that status is the first terminal one among the polls |
| ConstitutionAttempt.InventoryAttempt.constructor | app/execution/inventory_constitution_executor.py:396-403 | guard check and registration as one step |
| ConstitutionAttempt.InventoryAttempt.QuoteArrived | app/execution/inventory_constitution_executor.py:405-429 | the order is handed over iff the fresh quote is executable with a strictly positive net profit |
| ConstitutionAttempt.InventoryAttempt.SubmissionReturned | app/execution/inventory_constitution_executor.py:428-435 | a raising submission ends unknown and throws the switch |
| ConstitutionAttempt.InventoryAttempt.PollingEnded | app/execution/inventory_constitution_executor.py:437-462 | timeout, zero fill or fill, with the quantity net of a base-asset fee |
| ConstitutionAttempt.InventoryAttempt.RequoteArrived | app/execution/inventory_constitution_executor.py:467-497 | the safe notional and readiness after the fill, or the exception that an unpublished minimum raises |
| ConstitutionAttempt.InventoryAttempt.Cancel | app/execution/inventory_constitution_executor.py:498-499 | only the finally clause runs |
| ConstitutionAttempt.ReadyIsBacked | app/execution/inventory_constitution_executor.py:467-494 | a ready attempt has a live edge and a notional its cap, the minimum and its net holding allow |
| ConstitutionAttempt.ReadyIff | app/execution/inventory_constitution_executor.py:467-494 | ready iff the edge lives on and some positive notional fits cap, minimum and net holding |
| ConstitutionAttempt.RequoteRaisesIff | app/execution/inventory_constitution_executor.py:479-482 | sizing the holding raises iff the quote's sell market publishes no minimum and there is a bid and a net holding |
| ConstitutionProtocol.RegisteredIsCounted | app/execution/inventory_guard.py:97-98 | ending an operation never meets the counter's floor at zero |
| ConstitutionProtocol.StepIsLocal | app/execution/inventory_constitution_executor.py:396-499 | each step changes at most one live attempt, its slot and its log entries |
| ConstitutionProtocol.StepKeepsInv | app/execution/inventory_constitution_executor.py:396-499 | every step keeps the invariant: exact bounded counter, one order per submitted attempt, phases that agree with the logs |
| ConstitutionProtocol.RunKeepsInv | app/execution/inventory_constitution_executor.py:396-499 | so does every run, and the configuration never changes |
| ConstitutionProtocol.EveryRunIsSafe | app/execution/inventory_constitution_executor.py:396-499 | in every interleaving the counter equals the registered attempts and respects the limit; each attempt hands over at most one order, within the cap |
| ConstitutionProtocol.NoSlotLeaks | app/execution/inventory_constitution_executor.py:498-499 | the counter is zero iff every attempt has ended |
| ConstitutionProtocol.OrderedIff | app/execution/inventory_constitution_executor.py:405-429 | over every run, an order is placed iff an executable quote with strictly positive net profit meets the attempt while it waits for one |
| ConstitutionProtocol.AdmittedIff | app/execution/inventory_constitution_executor.py:386-403 | over every run, an attempt is admitted iff a valid start of it meets a guard that lets it in |
| ConstitutionProtocol.ReachedIff | app/execution/inventory_constitution_executor.py:386-499 | over every run, an attempt is refused, declined, unfilled, cancelled or concluded with a given record iff the schedule holds the event that leads there |
| ConstitutionProtocol.OutcomesAreFinal | app/execution/inventory_constitution_executor.py:396-499 | an ended attempt is never touched again |
| ConstitutionProtocol.FateOf | app/execution/inventory_constitution_executor.py:428-499 | over every run, what an attempt's phase says about the events that met it, in both directions |
| ConstitutionProtocol.LostTrackAlarms | app/execution/inventory_constitution_executor.py:430-443 | losing track of an order engages the switch, which stays until an operator releases it |
| ConstitutionProtocol.OrderFateIff | app/execution/inventory_constitution_executor.py:428-499 | an order goes unexplained iff the schedule cancels its task in flight or brings a post-fill quote that raises; otherwise it is open, settled with the recorded fill, or alarmed |
| ConstitutionProtocol.UnknownEngages | app/execution/inventory_constitution_executor.py:430-443 | the step that ends an attempt unknown leaves the switch engaged |
| ConstitutionProtocol.CancelledOrderExample | app/execution/inventory_constitution_executor.py:498-499 | a cancelled attempt leaves an order with no outcome and an open switch |
| ConstitutionProtocol.RaisedOrderExample | app/execution/inventory_constitution_executor.py:479-482 | a filled order on a market without a minimum is lost with the switch open |
| ConstitutionProtocol.EngagedStep | app/execution/inventory_guard.py:79-80 | under an engaged switch nobody enters, and only a quoting attempt can order |
| ConstitutionProtocol.EngagedRun | app/execution/inventory_guard.py:63-92 | the same over whole runs without a disengage |
| ConstitutionProtocol.OrdersAfterEngagement | app/execution/inventory_constitution_executor.py:403-429 | at most the attempts still quoting can order before a release, each within the cap |
| ConstitutionProtocol.EveryQuotingAttemptCanOrder | app/execution/inventory_constitution_executor.py:403-429 | the bound is attained: some schedule lets every quoting attempt order |
| ConstitutionProtocol.OrdersAfterUnknown | app/execution/inventory_constitution_executor.py:430-443 | when an attempt throws the switch, fewer than the limit can still order; none when the limit is one |
| RebalanceAllocator.RecommendRebalance | app/execution/inventory_manager.py:351-449 | sells, then buys whose total is min(exposure beyond the positive holdings, Σ over exchanges of min(USDT, room of its eligible missing assets)), within exposure and each exchange's USDT |
| RebalanceAllocator.BudgetIsSpent | app/execution/inventory_manager.py:403-447 | the same of the specified recommendation |
| RebalanceAllocator.BestScoreFirst | app/execution/inventory_manager.py:408-447 | the buys serve the eligible missing scores best first, equal ones as they came, each with all it may take of what the ones before it left |
| RebalanceAllocator.SizesAreGreedy | app/execution/inventory_manager.py:413-447 | each size in closed form from the sizes before it |
| RebalanceAllocator.SellUnjustified | app/execution/inventory_manager.py:375-401 | the loop over holdings computes the specified sells |
| RebalanceAllocator.AllocateBuys | app/execution/inventory_manager.py:413-447 | the mutating loop with its break and continues computes the greedy buys |
| RebalanceAllocator.GreedyTotal | app/execution/inventory_manager.py:403-447 | the sizes total min(capacity, Σ over exchanges of min(USDT, Σ of the items' own limits)) |
| RebalanceAllocator.GreedyIsFeasible | app/execution/inventory_manager.py:413-447 | each item's own limit and every exchange and total limit hold |
| RebalanceAllocator.GreedyIsOptimal | app/execution/inventory_manager.py:413-447 | no allocation within the limits places more |
| RebalanceAllocator.TotalIgnoresOrder | app/execution/inventory_manager.py:413-447 | the total of the sizes does not depend on the order of the items |
| RebalanceAllocator.RecommendedTotal | app/execution/inventory_manager.py:403-447 | the emitted buys add up to the closed form, within the capacity and each exchange's USDT |
| RebalanceAllocator.RecommendedTotalIgnoresOrder | app/execution/inventory_manager.py:408-447 | permuting the scores never changes how much is recommended in all |
| RebalanceAllocator.SortSorts | app/execution/inventory_manager.py:408-412 | highest score first, same candidates |
| RebalanceAllocator.SortIsStable | app/execution/inventory_manager.py:408-412 | equal scores keep their order |
| RebalanceAllocator.MissingAtIsTheLast | app/execution/inventory_manager.py:405 | the lookup holds the last blocked check of each asset |
| RebalanceAllocator.JustifiedIff | app/execution/inventory_manager.py:373-380 | holding an asset is justified iff its last score is eligible |
| RebalanceAllocator.HeldUsdIsTheEntry | app/execution/inventory_manager.py:416 | what is held of an asset is its entry, or nothing without one |
| RebalanceAllocator.SellsMean | app/execution/inventory_manager.py:375-401 | sold are exactly the positive holdings whose record does not justify them |
| RebalanceAllocator.OneSaleEach | app/execution/inventory_manager.py:375-401 | one sale for each unjustified positive holding |
| RebalanceAllocator.BuysRespectLimits | app/execution/inventory_manager.py:408-447 | each buy is an eligible missing asset on an existing exchange within its limits, never also sold when scores are distinct |
| RebalanceAllocator.CapAlwaysHoldsIff | app/execution/inventory_manager.py:408-447 | holding plus everything bought of an asset stays within its cap, for all holdings, budgets and limits, iff no two wanted scores are of that asset on a funded exchange |
| RebalanceAllocator.DistinctScoresKeepTheCap | app/execution/inventory_manager.py:408-447 | with one score per asset every cap holds |
| RebalanceAllocator.DuplicateScoresBreakTheCap | app/execution/inventory_manager.py:408-418 | two eligible scores of one missing asset exceed its cap under some limits |
| CandidateSelection.ExecutableNowIsSound | app/execution/candidate_selection.py:87-131 | the quantity is the greatest common lot of quote and holding, meets both exchanges' minimums and is affordable |
| CandidateSelection.NotExecutableMeans | app/execution/candidate_selection.py:97-131 | if any common lot is tradable, the verdict is executable or lacks only buy-side balance for a larger lot |
| CandidateSelection.StatusMeans | app/execution/candidate_selection.py:87-131 | each status exactly: the first obstacle in the order of the checks, or none |
| CandidateSelection.LotFitsIff | app/execution/candidate_selection.py:103-105 | the common quantity is positive iff some positive lot fits both quote and holding |
| CandidateSelection.SelectBestCandidate | app/execution/candidate_selection.py:196-208 | the first selectable candidate, none iff there is none |
| CandidateSelection.LatestIsLastWord | app/execution/candidate_selection.py:236-261 | the history's answer for a key is the record that no later event of that key follows |
| CandidateSelection.CandidateRejectionCache.constructor | app/execution/candidate_selection.py:236-238 | a new cache agrees with the empty history |
| CandidateSelection.CandidateRejectionCache.IsStillValidRejection | app/execution/candidate_selection.py:244-251 | true iff the history's answer has the same signature and is within the time to live |
| CandidateSelection.CandidateRejectionCache.RecordRejection | app/execution/candidate_selection.py:253-254 | the dictionary agrees with the history plus one record |
| CandidateSelection.CandidateRejectionCache.Clear | app/execution/candidate_selection.py:256-261 | deleting key by key agrees with the history plus one clear |
| Funding.CrossedPayments | app/engines/funding.py:37-47 | the closed form numbers exactly the payments an epsilon or more before the end |
| Funding.CrossedIsACount | app/engines/funding.py:37-47 | it is how many payments fall inside the hold |
| Funding.StrictCountIff | app/engines/funding.py:41-47 | "strictly before the close" is counted iff no payment falls in the last microsecond |
| Funding.LastMicrosecondExample | app/engines/funding.py:41-47 | a payment before the close that is not counted |
| DynamicFloor.FloorIsClamped | app/execution/dynamic_reserve_floor.py:85-105 | the floor is the operating buffer between structural minimum and cap, and the label names the bound that set it |
| DynamicFloor.ImbalanceIs | app/execution/dynamic_reserve_floor.py:87-88 | the imbalance is buys per sell between one and the cap |
| DynamicFloor.ComponentsAre | app/execution/dynamic_reserve_floor.py:85-91 | structural minimum, operating buffer and equal share in the policy's own numbers |
| DynamicFloor.FloorMonotone | app/execution/dynamic_reserve_floor.py:87-98 | more buying or less selling never lowers the floor |
| DynamicFloor.FloorsWithinCaps | app/execution/dynamic_reserve_floor.py:91-98 | floors together are within n caps plus what structural minimums exceed them by |
| DynamicFloor.FloorsShareTotalCapital | app/execution/dynamic_reserve_floor.py:91-98 | so across all exchanges they reserve at most share × total capital plus that excess |

## Left out

- Floating-point error and the final decimal roundings (`round(x, 2)`, `round(x, 6)`, `round(x, 12)`): numbers are exact reals.
- Exchange clients, signing, collectors, database, web routes, dashboard, logging and reason texts: input, output and formatting.
- Clocks: quote freshness is an input flag, and the time of an engagement, record or lookup is a parameter.
- The scan that pairs exchanges, gates a pair and chooses between a fresh book and the top of book: pricing starts from resolved levels.
- Maker execution, fill probability, withdrawal fees, fee-advantage ranking and holding periods: they do not affect the modelled numbers.
- The `USDT` suffix of a symbol: events name the asset.
- Quote ages, latency and the return in basis points of the dual-leg quote: they decide nothing here.
- The per-exchange normalisation of order status and fee: a poll yields a terminal flag, a filled quantity and a fee.
- Identifiers, timestamps, prices and pre- and post-purchase edges that a purchase only records.
- An exception at an await other than the two that are caught: it runs the same `finally` clause as a cancellation, so that step stands for it.
- A purchase whose two exchanges are not distinct known ones: the executor raises before touching the guard, so the protocol's start event changes nothing.
- Inventory scoring, eligibility and classification, top-up plans, imbalance scores and the static reserve floor: eligibility is a flag on a score; the rest are range facts.
- Holdings are a list in insertion order with one entry per asset, as the dictionary that the allocator iterates.
- The live arbitrage executor and its guard, which repeat the inventory protocol's shape, and the digital twin, whose ledger is not part of this model.
- Funding detection itself: only the count of payments crossed is modelled.
