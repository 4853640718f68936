/**
 The rebalance recommendation (`recommend_rebalance` in
 app/execution/inventory_manager.py): sell holdings whose record no longer
 justifies them, and spread a limited budget over eligible missing assets,
 best score first.
 */
module RebalanceAllocator {
  import opened RealMath
  import opened Fees

  datatype Score = Score(asset: string, total: real, eligible: bool)

  /** An opportunity check; `blocked` when its reason is INVENTORY_MISSING. */
  datatype Check = Check(asset: string, sellExchange: string, blocked: bool)

  /** USD value held of an asset, both exchanges together. */
  datatype Holding = Holding(asset: string, usd: real)

  datatype Limits = Limits(perAsset: real, totalExposure: real, perTrade: real)

  datatype Recommendation = Sell(asset: string, usd: real) | Buy(asset: string, exchange: string, usd: real)

  // ----- Lookups the dictionaries stand for.

  /** `score_by_asset[asset]`: the last score of that asset. */
  function ScoreOf(scores: seq<Score>, asset: string): Option<Score> {
    if scores == [] then None
    else if scores[|scores| - 1].asset == asset then Some(scores[|scores| - 1])
    else ScoreOf(scores[..|scores| - 1], asset)
  }

  /** `missing_by_asset[asset].sell_exchange`: the last blocked check of that asset. */
  function MissingAt(missing: seq<Check>, asset: string): Option<string> {
    if missing == [] then None
    else
      var last := missing[|missing| - 1];
      if last.blocked && last.asset == asset then Some(last.sellExchange)
      else MissingAt(missing[..|missing| - 1], asset)
  }

  function HeldUsd(holdings: seq<Holding>, asset: string): real {
    if holdings == [] then 0.0
    else if holdings[0].asset == asset then holdings[0].usd
    else HeldUsd(holdings[1..], asset)
  }

  function Locked(holdings: seq<Holding>): real {
    if holdings == [] then 0.0 else Max(0.0, holdings[0].usd) + Locked(holdings[1..])
  }

  // ----- Selling.

  predicate Justified(scores: seq<Score>, asset: string) {
    ScoreOf(scores, asset).Some? && ScoreOf(scores, asset).value.eligible
  }

  function Sells(scores: seq<Score>, holdings: seq<Holding>): seq<Recommendation> {
    if holdings == [] then []
    else
      var h := holdings[|holdings| - 1];
      Sells(scores, holdings[..|holdings| - 1])
      + if h.usd <= 0.0 || Justified(scores, h.asset) then [] else [Sell(h.asset, h.usd)]
  }

  // ----- Choosing what to buy, best score first.

  function Wanted(scores: seq<Score>, missing: seq<Check>): seq<Score> {
    if scores == [] then []
    else
      var rest := Wanted(scores[1..], missing);
      if scores[0].eligible && MissingAt(missing, scores[0].asset).Some? then [scores[0]] + rest else rest
  }

  function Insert(s: Score, sorted: seq<Score>): seq<Score> {
    if sorted == [] || s.total >= sorted[0].total then [s] + sorted else [sorted[0]] + Insert(s, sorted[1..])
  }

  /** Stable sort, highest total first. */
  function SortByScore(scores: seq<Score>): seq<Score> {
    if scores == [] then [] else Insert(scores[0], SortByScore(scores[1..]))
  }

  /** A candidate purchase: where it would be bought and how much room the asset has left. */
  datatype Item = Item(asset: string, exchange: string, headroom: real)

  function ItemOf(s: Score, missing: seq<Check>, holdings: seq<Holding>, perAsset: real): Item {
    Item(s.asset, MissingAt(missing, s.asset).GetOr(""), perAsset - HeldUsd(holdings, s.asset))
  }

  function Items(scores: seq<Score>, missing: seq<Check>, holdings: seq<Holding>, perAsset: real): (items: seq<Item>)
    ensures |items| == |scores|
    ensures forall i :: 0 <= i < |scores| ==> items[i] == ItemOf(scores[i], missing, holdings, perAsset)
  {
    if scores == [] then []
    else [ItemOf(scores[0], missing, holdings, perAsset)] + Items(scores[1..], missing, holdings, perAsset)
  }

  // ----- The greedy budget.

  datatype Budget = Budget(capacity: real, binance: real, bybit: real)

  /** `remaining_usdt_by_exchange.get(exchange, 0.0)` */
  function Available(b: Budget, exchange: string): real {
    if exchange == "binance" then b.binance else if exchange == "bybit" then b.bybit else 0.0
  }

  /** The exchange has a budget. */
  predicate Funded(exchange: string) {
    exchange == "binance" || exchange == "bybit"
  }

  function Allowed(it: Item, perTrade: real): real {
    Min(perTrade, it.headroom)
  }

  /** Size of one purchase: zero when any limit leaves no room. */
  function SizeOf(it: Item, perTrade: real, b: Budget): real {
    Max(0.0, Min(Min(Allowed(it, perTrade), b.capacity), Available(b, it.exchange)))
  }

  function Take(b: Budget, exchange: string, size: real): Budget {
    Budget(b.capacity - size,
           if exchange == "binance" then b.binance - size else b.binance,
           if exchange == "bybit" then b.bybit - size else b.bybit)
  }

  function Sizes(items: seq<Item>, perTrade: real, b: Budget): (sizes: seq<real>)
    ensures |sizes| == |items|
  {
    if items == [] then []
    else
      var size := SizeOf(items[0], perTrade, b);
      [size] + Sizes(items[1..], perTrade, Take(b, items[0].exchange, size))
  }

  function Buys(items: seq<Item>, sizes: seq<real>): seq<Recommendation>
    requires |sizes| == |items|
  {
    if items == [] then []
    else
      (if 0.0 < sizes[0] then [Buy(items[0].asset, items[0].exchange, sizes[0])] else [])
      + Buys(items[1..], sizes[1..])
  }

  function StartBudget(holdings: seq<Holding>, binance: real, bybit: real, totalExposure: real): Budget {
    Budget(Max(0.0, totalExposure - Locked(holdings)), binance, bybit)
  }

  /** Sells, then buys. */
  method RecommendRebalance(scores: seq<Score>, missing: seq<Check>, holdings: seq<Holding>, binanceUsdt: real,
                            bybitUsdt: real, limits: Limits) returns (recommendations: seq<Recommendation>)
    ensures var budget := StartBudget(holdings, binanceUsdt, bybitUsdt, limits.totalExposure);
            recommendations == Sells(scores, holdings) + BuysFor(scores, missing, holdings, budget, limits)
    ensures SpendsTheBudget(scores, missing, holdings, binanceUsdt, bybitUsdt, limits, recommendations)
  {
    var sells := SellUnjustified(scores, holdings);
    var items := Items(SortByScore(Wanted(scores, missing)), missing, holdings, limits.perAsset);
    var budget := StartBudget(holdings, binanceUsdt, bybitUsdt, limits.totalExposure);
    var buys := AllocateBuys(items, limits.perTrade, budget);
    recommendations := sells + buys;
    BudgetIsSpent(scores, missing, holdings, binanceUsdt, bybitUsdt, limits);
  }

  function BuysFor(scores: seq<Score>, missing: seq<Check>, holdings: seq<Holding>, b: Budget, limits: Limits)
    : seq<Recommendation>
  {
    var items := Items(SortByScore(Wanted(scores, missing)), missing, holdings, limits.perAsset);
    GreedyBuys(items, limits.perTrade, b)
  }

  function GreedyBuys(items: seq<Item>, perTrade: real, b: Budget): seq<Recommendation> {
    Buys(items, Sizes(items, perTrade, b))
  }

  /** The loop over the holdings. */
  method SellUnjustified(scores: seq<Score>, holdings: seq<Holding>) returns (sells: seq<Recommendation>)
    ensures sells == Sells(scores, holdings)
  {
    sells := [];
    for i := 0 to |holdings|
      invariant sells == Sells(scores, holdings[..i])
    {
      var h := holdings[i];
      assert holdings[..i + 1][..i] == holdings[..i];
      if 0.0 < h.usd && !Justified(scores, h.asset) {
        sells := sells + [Sell(h.asset, h.usd)];
      }
    }
    assert holdings[..|holdings|] == holdings;
  }

  /** The loop over the sorted candidates, drawing down one budget until its exposure capacity is used up. */
  method AllocateBuys(items: seq<Item>, perTrade: real, budget: Budget) returns (buys: seq<Recommendation>)
    ensures buys == GreedyBuys(items, perTrade, budget)
  {
    hide GreedyBuys, Pending, SizeOf, Take, Allowed, Available;
    var remaining := budget;
    buys := [];
    var i := 0;
    PendingAtFirst(items, perTrade, budget);
    while i < |items| && 0.0 < remaining.capacity
      invariant 0 <= i <= |items|
      invariant buys + Pending(items, i, perTrade, remaining) == GreedyBuys(items, perTrade, budget)
    {
      var it := items[i];
      ClampedSize(it, perTrade, remaining);
      PendingStep(items, i, perTrade, remaining, buys);
      var size := Min(Min(Allowed(it, perTrade), remaining.capacity), Available(remaining, it.exchange));
      if 0.0 < it.headroom && 0.0 < size {
        buys := buys + [Buy(it.asset, it.exchange, size)];
        remaining := Take(remaining, it.exchange, size);
      }
      i := i + 1;
    }
    PendingAtLast(items, i, perTrade, remaining);
  }

  /** What the items from `i` on still contribute. */
  ghost function Pending(items: seq<Item>, i: nat, perTrade: real, b: Budget): seq<Recommendation>
    requires i <= |items|
  {
    GreedyBuys(items[i..], perTrade, b)
  }

  lemma PendingAtFirst(items: seq<Item>, perTrade: real, b: Budget)
    ensures [] + Pending(items, 0, perTrade, b) == GreedyBuys(items, perTrade, b)
  {
    assert items[0..] == items;
  }

  lemma PendingAtLast(items: seq<Item>, i: nat, perTrade: real, b: Budget)
    requires i == |items| || (i < |items| && b.capacity <= 0.0)
    ensures Pending(items, i, perTrade, b) == []
  {
    NothingWithoutCapacity(items[i..], perTrade, b);
  }

  /** One iteration of the loop against the specification. */
  lemma PendingStep(items: seq<Item>, i: nat, perTrade: real, b: Budget, buys: seq<Recommendation>)
    requires i < |items|
    ensures var it, size := items[i], SizeOf(items[i], perTrade, b);
            buys + Pending(items, i, perTrade, b)
            == if 0.0 < size
               then (buys + [Buy(it.asset, it.exchange, size)])
                    + Pending(items, i + 1, perTrade, Take(b, it.exchange, size))
               else buys + Pending(items, i + 1, perTrade, b)
  {
    UnfoldBuys(items, i, perTrade, b);
  }

  /** The loop's guard lets through exactly the sizes that are not clamped to zero. */
  lemma ClampedSize(it: Item, perTrade: real, b: Budget)
    ensures var size := Min(Min(Allowed(it, perTrade), b.capacity), Available(b, it.exchange));
            && (0.0 < it.headroom && 0.0 < size <==> 0.0 < SizeOf(it, perTrade, b))
            && (0.0 < size ==> size == SizeOf(it, perTrade, b))
  {
  }

  lemma UnfoldBuys(items: seq<Item>, i: nat, perTrade: real, b: Budget)
    requires i < |items|
    ensures var it, size := items[i], SizeOf(items[i], perTrade, b);
            GreedyBuys(items[i..], perTrade, b)
            == if 0.0 < size
               then [Buy(it.asset, it.exchange, size)]
                    + GreedyBuys(items[i + 1..], perTrade, Take(b, it.exchange, size))
               else GreedyBuys(items[i + 1..], perTrade, b)
  {
    var it, tail, size := items[i], items[i + 1..], SizeOf(items[i], perTrade, b);
    assert items[i..][0] == it && items[i..][1..] == tail;
    assert Sizes(items[i..], perTrade, b)[1..] == Sizes(tail, perTrade, Take(b, it.exchange, size));
    assert Take(b, it.exchange, 0.0) == b;
  }

  lemma {:induction false} NothingWithoutCapacity(items: seq<Item>, perTrade: real, b: Budget)
    requires items == [] || b.capacity <= 0.0
    ensures GreedyBuys(items, perTrade, b) == []
  {
    if items != [] {
      UnfoldBuys(items, 0, perTrade, b);
      assert items[0..] == items;
      NothingWithoutCapacity(items[1..], perTrade, b);
    }
  }

  // ----- What the greedy budget achieves.

  /** Room of all items on one exchange, each within its own limits. */
  function Room(items: seq<Item>, perTrade: real, exchange: string): real {
    if items == [] then 0.0
    else (if items[0].exchange == exchange then Max(0.0, Allowed(items[0], perTrade)) else 0.0)
         + Room(items[1..], perTrade, exchange)
  }

  lemma {:induction false} RoomNonNegative(items: seq<Item>, perTrade: real, exchange: string)
    ensures 0.0 <= Room(items, perTrade, exchange)
  {
    if items != [] { RoomNonNegative(items[1..], perTrade, exchange); }
  }

  /** What an exchange can absorb is its USDT or its items' room, whichever is less; the capacity limits the sum. */
  function TotalOf(capacity: real, binance: real, bybit: real, binanceRoom: real, bybitRoom: real): real {
    Min(Max(0.0, capacity), Min(Max(0.0, binance), binanceRoom) + Min(Max(0.0, bybit), bybitRoom))
  }

  /** Closed form of the total. */
  function BestTotal(items: seq<Item>, perTrade: real, b: Budget): real {
    TotalOf(b.capacity, b.binance, b.bybit, Room(items, perTrade, "binance"), Room(items, perTrade, "bybit"))
  }

  lemma {:induction false} GreedyTotal(items: seq<Item>, perTrade: real, b: Budget)
    ensures Sum(Sizes(items, perTrade, b)) == BestTotal(items, perTrade, b)
  {
    if items != [] {
      hide Sum, Sizes, BestTotal, SizeOf, Take;
      var it, rest := items[0], items[1..];
      GreedyTotal(rest, perTrade, Take(b, it.exchange, SizeOf(it, perTrade, b)));
      SumOfSizes(items, perTrade, b);
      BestTotalStep(items, perTrade, b);
    }
  }

  lemma SumOfSizes(items: seq<Item>, perTrade: real, b: Budget)
    requires items != []
    ensures var size := SizeOf(items[0], perTrade, b);
            Sum(Sizes(items, perTrade, b)) == size + Sum(Sizes(items[1..], perTrade, Take(b, items[0].exchange, size)))
  {
    var size := SizeOf(items[0], perTrade, b);
    assert Sizes(items, perTrade, b)[1..] == Sizes(items[1..], perTrade, Take(b, items[0].exchange, size));
  }

  /** The closed form follows the first purchase. */
  lemma BestTotalStep(items: seq<Item>, perTrade: real, b: Budget)
    requires items != []
    ensures var size := SizeOf(items[0], perTrade, b);
            BestTotal(items, perTrade, b) == size + BestTotal(items[1..], perTrade, Take(b, items[0].exchange, size))
  {
    hide Room, Allowed, TotalOf, SizeOf, Take, Available, Min, Max;
    var it, rest := items[0], items[1..];
    var x, y := Room(rest, perTrade, "binance"), Room(rest, perTrade, "bybit");
    RoomNonNegative(rest, perTrade, "binance");
    RoomNonNegative(rest, perTrade, "bybit");
    RoomStep(items, perTrade, "binance");
    RoomStep(items, perTrade, "bybit");
    PurchaseAt(it, perTrade, b);
    BinanceStep(Allowed(it, perTrade), b.capacity, b.binance, b.bybit, x, y);
    BybitStep(Allowed(it, perTrade), b.capacity, b.binance, b.bybit, x, y);
  }

  /** One purchase and what it leaves of the budget, exchange by exchange. */
  lemma PurchaseAt(it: Item, perTrade: real, b: Budget)
    ensures var size, left := SizeOf(it, perTrade, b), Take(b, it.exchange, SizeOf(it, perTrade, b));
            && (it.exchange == "binance" ==>
                  && size == Max(0.0, Min(Min(Allowed(it, perTrade), b.capacity), b.binance))
                  && left == Budget(b.capacity - size, b.binance - size, b.bybit))
            && (it.exchange == "bybit" ==>
                  && size == Max(0.0, Min(Min(Allowed(it, perTrade), b.capacity), b.bybit))
                  && left == Budget(b.capacity - size, b.binance, b.bybit - size))
            && (!Funded(it.exchange) ==> size == 0.0 && left == b)
  {
    assert "binance" != "bybit" by { assert "binance"[1] != "bybit"[1]; }
  }

  lemma RoomStep(items: seq<Item>, perTrade: real, exchange: string)
    requires items != []
    ensures Room(items, perTrade, exchange)
         == Room(items[1..], perTrade, exchange)
            + if items[0].exchange == exchange then Max(0.0, Allowed(items[0], perTrade)) else 0.0
  {
  }

  lemma BinanceStep(allowed: real, capacity: real, binance: real, bybit: real, x: real, y: real)
    requires 0.0 <= x && 0.0 <= y
    ensures var size := Max(0.0, Min(Min(allowed, capacity), binance));
            TotalOf(capacity, binance, bybit, x + Max(0.0, allowed), y)
            == size + TotalOf(capacity - size, binance - size, bybit, x, y)
  {
  }

  lemma BybitStep(allowed: real, capacity: real, binance: real, bybit: real, x: real, y: real)
    requires 0.0 <= x && 0.0 <= y
    ensures var size := Max(0.0, Min(Min(allowed, capacity), bybit));
            TotalOf(capacity, binance, bybit, x, y + Max(0.0, allowed))
            == size + TotalOf(capacity - size, binance, bybit - size, x, y)
  {
    BinanceStep(allowed, capacity, bybit, binance, y, x);
    assert forall c, i, j, u, v :: TotalOf(c, i, j, u, v) == TotalOf(c, j, i, v, u);
  }

  /** USD that a list of sizes spends on one exchange. */
  function SpentAt(items: seq<Item>, sizes: seq<real>, exchange: string): real
    requires |sizes| == |items|
  {
    if items == [] then 0.0
    else (if items[0].exchange == exchange then sizes[0] else 0.0) + SpentAt(items[1..], sizes[1..], exchange)
  }

  /** Sizes that respect every limit: per trade, per asset, per exchange, and in total. */
  ghost predicate Feasible(items: seq<Item>, sizes: seq<real>, perTrade: real, b: Budget) {
    && |sizes| == |items|
    && (forall i :: 0 <= i < |items| ==> 0.0 <= sizes[i] <= Max(0.0, Allowed(items[i], perTrade)))
    && (forall i :: 0 <= i < |items| && 0.0 < sizes[i] ==> items[i].exchange in {"binance", "bybit"})
    && SpentAt(items, sizes, "binance") <= Max(0.0, b.binance)
    && SpentAt(items, sizes, "bybit") <= Max(0.0, b.bybit)
    && Sum(sizes) <= Max(0.0, b.capacity)
  }

  lemma {:induction false} GreedyIsFeasible(items: seq<Item>, perTrade: real, b: Budget)
    ensures Feasible(items, Sizes(items, perTrade, b), perTrade, b)
  {
    if items != [] {
      var it, rest := items[0], items[1..];
      var size := SizeOf(it, perTrade, b);
      var sizes, tail := Sizes(items, perTrade, b), Sizes(rest, perTrade, Take(b, it.exchange, size));
      GreedyIsFeasible(rest, perTrade, Take(b, it.exchange, size));
      assert sizes[1..] == tail;
      forall i | 0 <= i < |items|
        ensures 0.0 <= sizes[i] <= Max(0.0, Allowed(items[i], perTrade))
        ensures 0.0 < sizes[i] ==> items[i].exchange in {"binance", "bybit"}
      {
        if 0 < i { assert sizes[i] == tail[i - 1] && items[i] == rest[i - 1]; }
      }
    }
  }

  lemma {:induction false} SpentWithinRoom(items: seq<Item>, sizes: seq<real>, perTrade: real, exchange: string)
    requires |sizes| == |items|
    requires forall i :: 0 <= i < |items| ==> 0.0 <= sizes[i] <= Max(0.0, Allowed(items[i], perTrade))
    ensures SpentAt(items, sizes, exchange) <= Room(items, perTrade, exchange)
  {
    if items != [] {
      SpentWithinRoom(items[1..], sizes[1..], perTrade, exchange);
    }
  }

  lemma {:induction false} SpentSplits(items: seq<Item>, sizes: seq<real>)
    requires |sizes| == |items|
    requires forall i :: 0 <= i < |items| ==> 0.0 <= sizes[i]
    requires forall i :: 0 <= i < |items| && 0.0 < sizes[i] ==> items[i].exchange in {"binance", "bybit"}
    ensures Sum(sizes) == SpentAt(items, sizes, "binance") + SpentAt(items, sizes, "bybit")
  {
    if items != [] {
      SpentSplits(items[1..], sizes[1..]);
    }
  }

  /** The greedy total is the most any allocation within the limits can place. */
  lemma GreedyIsOptimal(items: seq<Item>, perTrade: real, b: Budget, other: seq<real>)
    requires Feasible(items, other, perTrade, b)
    ensures Sum(other) <= Sum(Sizes(items, perTrade, b))
  {
    GreedyTotal(items, perTrade, b);
    SpentWithinRoom(items, other, perTrade, "binance");
    SpentWithinRoom(items, other, perTrade, "bybit");
    SpentSplits(items, other);
  }

  lemma {:induction false} RoomSplit(xs: seq<Item>, ys: seq<Item>, perTrade: real, exchange: string)
    ensures Room(xs + ys, perTrade, exchange) == Room(xs, perTrade, exchange) + Room(ys, perTrade, exchange)
  {
    if xs == [] {
      assert xs + ys == ys;
    } else {
      assert (xs + ys)[1..] == xs[1..] + ys;
      RoomSplit(xs[1..], ys, perTrade, exchange);
    }
  }

  lemma {:induction false} RoomOfPermutation(xs: seq<Item>, ys: seq<Item>, perTrade: real, exchange: string)
    requires multiset(xs) == multiset(ys)
    ensures Room(xs, perTrade, exchange) == Room(ys, perTrade, exchange)
  {
    if xs == [] {
      assert |ys| == |multiset(ys)| == |multiset(xs)| == 0;
    } else {
      var i := IndexOf(ys, xs[0]);
      hide Room;
      var tail, others := SameRest(xs, ys, i);
      RoomOfPermutation(tail, others, perTrade, exchange);
      RoomWithoutOne(xs, 0, perTrade, exchange);
      RoomWithoutOne(ys, i, perTrade, exchange);
    }
  }

  lemma SameRest<T>(xs: seq<T>, ys: seq<T>, i: nat) returns (tail: seq<T>, others: seq<T>)
    requires multiset(xs) == multiset(ys) && xs != [] && i < |ys| && ys[i] == xs[0]
    ensures tail == xs[..0] + xs[1..] && |tail| < |xs| && others == ys[..i] + ys[i + 1..]
    ensures multiset(tail) == multiset(others)
  {
    tail, others := xs[..0] + xs[1..], ys[..i] + ys[i + 1..];
    WithoutOne(xs, 0);
    WithoutOne(ys, i);
  }

  lemma IndexOf<T>(xs: seq<T>, x: T) returns (i: nat)
    requires x in multiset(xs)
    ensures i < |xs| && xs[i] == x
  {
    assert x in xs;
    i :| 0 <= i < |xs| && xs[i] == x;
  }

  lemma WithoutOne<T>(xs: seq<T>, i: nat)
    requires i < |xs|
    ensures multiset(xs[..i] + xs[i + 1..]) == multiset(xs) - multiset{xs[i]}
  {
    assert xs == xs[..i] + [xs[i]] + xs[i + 1..];
  }

  lemma RoomWithoutOne(xs: seq<Item>, i: nat, perTrade: real, exchange: string)
    requires i < |xs|
    ensures Room(xs, perTrade, exchange)
         == Room(xs[..i] + xs[i + 1..], perTrade, exchange)
            + if xs[i].exchange == exchange then Max(0.0, Allowed(xs[i], perTrade)) else 0.0
  {
    assert xs == xs[..i] + xs[i..] && xs[i..][1..] == xs[i + 1..];
    RoomSplit(xs[..i], xs[i + 1..], perTrade, exchange);
    RoomSplit(xs[..i], xs[i..], perTrade, exchange);
  }

  /** So the order of the candidates decides who is served, never how much is placed in all. */
  lemma TotalIgnoresOrder(xs: seq<Item>, ys: seq<Item>, perTrade: real, b: Budget)
    requires multiset(xs) == multiset(ys)
    ensures Sum(Sizes(xs, perTrade, b)) == Sum(Sizes(ys, perTrade, b))
  {
    GreedyTotal(xs, perTrade, b);
    GreedyTotal(ys, perTrade, b);
    RoomOfPermutation(xs, ys, perTrade, "binance");
    RoomOfPermutation(xs, ys, perTrade, "bybit");
  }

  // ----- The sort.

  ghost predicate Descending(scores: seq<Score>) {
    forall i, j :: 0 <= i <= j < |scores| ==> scores[j].total <= scores[i].total
  }

  lemma {:induction false} InsertKeeps(s: Score, sorted: seq<Score>)
    ensures multiset(Insert(s, sorted)) == multiset(sorted) + multiset{s}
  {
    if sorted != [] && s.total < sorted[0].total {
      InsertKeeps(s, sorted[1..]);
      assert sorted == [sorted[0]] + sorted[1..];
    }
  }

  lemma {:induction false} InsertSorts(s: Score, sorted: seq<Score>)
    requires Descending(sorted)
    ensures Descending(Insert(s, sorted))
    ensures forall x <- Insert(s, sorted) :: x == s || x in sorted
  {
    if sorted != [] && s.total < sorted[0].total {
      InsertSorts(s, sorted[1..]);
      var r := Insert(s, sorted[1..]);
      assert forall i :: 0 <= i < |r| ==> r[i] in r;
    }
  }

  lemma {:induction false} SortSorts(scores: seq<Score>)
    ensures Descending(SortByScore(scores)) && multiset(SortByScore(scores)) == multiset(scores)
  {
    if scores != [] {
      SortSorts(scores[1..]);
      InsertSorts(scores[0], SortByScore(scores[1..]));
      InsertKeeps(scores[0], SortByScore(scores[1..]));
      assert scores == [scores[0]] + scores[1..];
    }
  }

  function WithTotal(scores: seq<Score>, total: real): seq<Score> {
    if scores == [] then []
    else (if scores[0].total == total then [scores[0]] else []) + WithTotal(scores[1..], total)
  }

  lemma {:induction false} InsertIsStable(s: Score, sorted: seq<Score>, total: real)
    requires Descending(sorted)
    ensures WithTotal(Insert(s, sorted), total) == (if s.total == total then [s] else []) + WithTotal(sorted, total)
  {
    if sorted != [] && s.total < sorted[0].total {
      InsertIsStable(s, sorted[1..], total);
      if s.total == total { NoneAbove(sorted[0], s.total); }
    } else {
      assert Insert(s, sorted)[1..] == sorted;
    }
  }

  lemma NoneAbove(s: Score, total: real)
    requires total < s.total
    ensures WithTotal([s], total) == []
  {
  }

  /** Candidates with equal totals keep the order they came in. */
  lemma {:induction false} SortIsStable(scores: seq<Score>, total: real)
    ensures WithTotal(SortByScore(scores), total) == WithTotal(scores, total)
  {
    if scores != [] {
      SortIsStable(scores[1..], total);
      SortSorts(scores[1..]);
      InsertIsStable(scores[0], SortByScore(scores[1..]), total);
    }
  }

  /** Check `i` is blocked on the asset and no later one is. */
  ghost predicate LastBlocked(missing: seq<Check>, asset: string, exchange: string, i: int) {
    && 0 <= i < |missing| && missing[i] == Check(asset, exchange, true)
    && forall j :: i < j < |missing| ==> !(missing[j].blocked && missing[j].asset == asset)
  }

  /** The dictionary built from the checks keeps the last blocked check of each asset. */
  lemma {:induction false} MissingAtIsTheLast(missing: seq<Check>, asset: string)
    ensures MissingAt(missing, asset).None? <==> forall c <- missing :: !(c.blocked && c.asset == asset)
    ensures MissingAt(missing, asset).Some? ==>
              exists i :: LastBlocked(missing, asset, MissingAt(missing, asset).value, i)
  {
    if missing != [] {
      var n := |missing| - 1;
      MissingAtIsTheLast(missing[..n], asset);
      assert forall c :: c in missing <==> c == missing[n] || c in missing[..n];
      if missing[n].blocked && missing[n].asset == asset {
        assert LastBlocked(missing, asset, missing[n].sellExchange, n);
      } else if MissingAt(missing, asset).Some? {
        var exchange := MissingAt(missing[..n], asset).value;
        var i :| LastBlocked(missing[..n], asset, exchange, i);
        assert LastBlocked(missing, asset, exchange, i);
      }
    }
  }

  // ----- What the other lookups mean.

  /** Score `i` is of the asset and no later one is. */
  ghost predicate LastScore(scores: seq<Score>, asset: string, s: Score, i: int) {
    && 0 <= i < |scores| && scores[i] == s && s.asset == asset
    && forall j :: i < j < |scores| ==> scores[j].asset != asset
  }

  /** The dictionary built from the scores keeps the last one of each asset. */
  lemma {:induction false} ScoreOfIsTheLast(scores: seq<Score>, asset: string)
    ensures ScoreOf(scores, asset).None? <==> forall s <- scores :: s.asset != asset
    ensures ScoreOf(scores, asset).Some? ==> exists i :: LastScore(scores, asset, ScoreOf(scores, asset).value, i)
  {
    if scores != [] {
      var n := |scores| - 1;
      ScoreOfIsTheLast(scores[..n], asset);
      assert forall s :: s in scores <==> s == scores[n] || s in scores[..n];
      if scores[n].asset == asset {
        assert LastScore(scores, asset, scores[n], n);
      } else if ScoreOf(scores, asset).Some? {
        var s := ScoreOf(scores[..n], asset).value;
        var i :| LastScore(scores[..n], asset, s, i);
        assert LastScore(scores, asset, s, i);
      }
    }
  }

  /** Holding an asset is justified exactly when its last score is eligible. */
  lemma JustifiedIff(scores: seq<Score>, asset: string)
    ensures Justified(scores, asset) <==> exists s, i :: LastScore(scores, asset, s, i) && s.eligible
  {
    ScoreOfIsTheLast(scores, asset);
    if s, i :| LastScore(scores, asset, s, i) {
      assert scores[i] in scores;
      var t := ScoreOf(scores, asset).value;
      var j :| LastScore(scores, asset, t, j);
      LastScoreIsUnique(scores, asset, s, i, t, j);
    }
    forall s, i, t, j | LastScore(scores, asset, s, i) && LastScore(scores, asset, t, j) ensures s == t {
      LastScoreIsUnique(scores, asset, s, i, t, j);
    }
  }

  lemma LastScoreIsUnique(scores: seq<Score>, asset: string, s: Score, i: int, t: Score, j: int)
    requires LastScore(scores, asset, s, i) && LastScore(scores, asset, t, j)
    ensures i == j && s == t
  {
  }

  /** Holding `i` is of the asset and none before it is. */
  ghost predicate FirstHolding(holdings: seq<Holding>, asset: string, usd: real, i: int) {
    && 0 <= i < |holdings| && holdings[i] == Holding(asset, usd)
    && forall j :: 0 <= j < i ==> holdings[j].asset != asset
  }

  /** What is held of an asset is its entry, or nothing without one. */
  lemma {:induction false} HeldUsdIsTheEntry(holdings: seq<Holding>, asset: string) returns (i: nat)
    ensures i < |holdings| ==> FirstHolding(holdings, asset, HeldUsd(holdings, asset), i)
    ensures |holdings| <= i ==> HeldUsd(holdings, asset) == 0.0 && forall h <- holdings :: h.asset != asset
  {
    i := 0;
    if holdings != [] && holdings[0].asset != asset {
      var k := HeldUsdIsTheEntry(holdings[1..], asset);
      i := k + 1;
      if i < |holdings| { assert FirstHolding(holdings, asset, HeldUsd(holdings[1..], asset), i); }
    }
  }

  // ----- The whole recommendation.

  ghost predicate DistinctAssets(scores: seq<Score>) {
    forall i, j :: 0 <= i < j < |scores| ==> scores[i].asset != scores[j].asset
  }

  lemma {:induction false} ScoreOfDistinct(scores: seq<Score>, s: Score)
    requires DistinctAssets(scores) && s in scores
    ensures ScoreOf(scores, s.asset) == Some(s)
  {
    var n := |scores| - 1;
    if scores[n] != s {
      assert s in scores[..n];
      ScoreOfDistinct(scores[..n], s);
    }
  }

  lemma {:induction false} WantedMeans(scores: seq<Score>, missing: seq<Check>)
    ensures forall s :: s in Wanted(scores, missing) <==> s in scores && s.eligible && MissingAt(missing, s.asset).Some?
    ensures DistinctAssets(scores) ==> DistinctAssets(Wanted(scores, missing))
  {
    if scores != [] {
      WantedMeans(scores[1..], missing);
      var w := Wanted(scores[1..], missing);
      assert forall i :: 0 <= i < |w| ==> w[i] in w;
      assert forall x :: x in scores <==> x == scores[0] || x in scores[1..];
    }
  }

  lemma {:induction false} SellsMean(scores: seq<Score>, holdings: seq<Holding>)
    ensures forall r <- Sells(scores, holdings) :: r.Sell? && 0.0 < r.usd && !Justified(scores, r.asset)
    ensures forall h <- holdings | 0.0 < h.usd && !Justified(scores, h.asset) ::
              Sell(h.asset, h.usd) in Sells(scores, holdings)
  {
    if holdings != [] {
      var n := |holdings| - 1;
      SellsMean(scores, holdings[..n]);
      assert forall h <- holdings :: h == holdings[n] || h in holdings[..n];
    }
  }

  /** The recommendation buys item `i` at its size. */
  predicate IsBuyOf(items: seq<Item>, sizes: seq<real>, r: Recommendation, i: int)
    requires |sizes| == |items|
  {
    0 <= i < |items| && 0.0 < sizes[i] && r == Buy(items[i].asset, items[i].exchange, sizes[i])
  }

  /** Every buy comes from one item and has that item's size. */
  lemma {:induction false} BuysMean(items: seq<Item>, sizes: seq<real>)
    requires |sizes| == |items|
    ensures forall r <- Buys(items, sizes) :: exists i :: IsBuyOf(items, sizes, r, i)
  {
    if items != [] {
      BuysMean(items[1..], sizes[1..]);
      forall r | r in Buys(items, sizes)
        ensures exists i :: IsBuyOf(items, sizes, r, i)
      {
        if r in Buys(items[1..], sizes[1..]) {
          var j :| IsBuyOf(items[1..], sizes[1..], r, j);
          assert IsBuyOf(items, sizes, r, j + 1);
        } else {
          assert IsBuyOf(items, sizes, r, 0);
        }
      }
    }
  }

  /**
   Every recommended buy is an eligible, missing asset on an exchange that has
   money, within the per-trade and per-asset limits; with one score per asset no
   asset is bought and sold at once.
   */
  lemma BuysRespectLimits(scores: seq<Score>, missing: seq<Check>, holdings: seq<Holding>, b: Budget, limits: Limits,
                          r: Recommendation)
    requires r in BuysFor(scores, missing, holdings, b, limits)
    ensures r.Buy? && 0.0 < r.usd <= limits.perTrade && HeldUsd(holdings, r.asset) + r.usd <= limits.perAsset
    ensures MissingAt(missing, r.asset) == Some(r.exchange) && r.exchange in {"binance", "bybit"}
    ensures exists s <- scores :: s.asset == r.asset && s.eligible
    ensures DistinctAssets(scores) ==> forall t <- Sells(scores, holdings) :: t.asset != r.asset
  {
    var sorted := SortByScore(Wanted(scores, missing));
    var items := Items(sorted, missing, holdings, limits.perAsset);
    var sizes := Sizes(items, limits.perTrade, b);
    SortSorts(Wanted(scores, missing));
    WantedMeans(scores, missing);
    BuysMean(items, sizes);
    GreedyIsFeasible(items, limits.perTrade, b);
    SellsMean(scores, holdings);
    hide Sizes, Buys, Wanted, SortByScore, Sells;
    var i :| IsBuyOf(items, sizes, r, i);
    var s := sorted[i];
    assert s in multiset(sorted);
    assert s in Wanted(scores, missing);
    if DistinctAssets(scores) { ScoreOfDistinct(scores, s); }
  }

  // ----- Totals of the recommendation.

  /** Recommended buys of one asset, in USDT. */
  function BoughtOf(buys: seq<Recommendation>, asset: string): real {
    if buys == [] then 0.0
    else (if buys[0].Buy? && buys[0].asset == asset then buys[0].usd else 0.0) + BoughtOf(buys[1..], asset)
  }

  /** Recommended buys on one exchange. */
  function BoughtAt(buys: seq<Recommendation>, exchange: string): real {
    if buys == [] then 0.0
    else (if buys[0].Buy? && buys[0].exchange == exchange then buys[0].usd else 0.0) + BoughtAt(buys[1..], exchange)
  }

  function Bought(buys: seq<Recommendation>): real {
    if buys == [] then 0.0 else (if buys[0].Buy? then buys[0].usd else 0.0) + Bought(buys[1..])
  }

  /** The emitted amounts add up to the sizes behind them. */
  lemma {:induction false} BoughtIsSized(items: seq<Item>, sizes: seq<real>, exchange: string)
    requires |sizes| == |items| && forall i :: 0 <= i < |sizes| ==> 0.0 <= sizes[i]
    ensures Bought(Buys(items, sizes)) == Sum(sizes)
    ensures BoughtAt(Buys(items, sizes), exchange) == SpentAt(items, sizes, exchange)
  {
    if items != [] {
      BoughtIsSized(items[1..], sizes[1..], exchange);
      var rest := Buys(items[1..], sizes[1..]);
      if 0.0 < sizes[0] {
        assert ([Buy(items[0].asset, items[0].exchange, sizes[0])] + rest)[1..] == rest;
      } else {
        assert Buys(items, sizes) == rest;
      }
    }
  }

  /** What is recommended in all has the closed form, and keeps every total within its limit. */
  lemma RecommendedTotal(scores: seq<Score>, missing: seq<Check>, holdings: seq<Holding>, b: Budget, limits: Limits)
    ensures var buys := BuysFor(scores, missing, holdings, b, limits);
            var items := Items(SortByScore(Wanted(scores, missing)), missing, holdings, limits.perAsset);
            && Bought(buys) == BestTotal(items, limits.perTrade, b)
            && Bought(buys) <= Max(0.0, b.capacity)
            && BoughtAt(buys, "binance") <= Max(0.0, b.binance) && BoughtAt(buys, "bybit") <= Max(0.0, b.bybit)
  {
    var items := Items(SortByScore(Wanted(scores, missing)), missing, holdings, limits.perAsset);
    var sizes := Sizes(items, limits.perTrade, b);
    GreedyIsFeasible(items, limits.perTrade, b);
    GreedyTotal(items, limits.perTrade, b);
    BoughtIsSized(items, sizes, "binance");
    BoughtIsSized(items, sizes, "bybit");
    hide Sizes, Buys, Bought, BoughtAt, BestTotal, Items, Wanted, SortByScore, Sum, SpentAt;
  }

  lemma {:induction false} WantedCounts(scores: seq<Score>, missing: seq<Check>, s: Score)
    ensures multiset(Wanted(scores, missing))[s]
         == if s.eligible && MissingAt(missing, s.asset).Some? then multiset(scores)[s] else 0
  {
    if scores != [] {
      WantedCounts(scores[1..], missing, s);
      assert scores == [scores[0]] + scores[1..];
    }
  }

  /** Permuted scores give permuted items. */
  lemma {:induction false} ItemsPermute(xs: seq<Score>, ys: seq<Score>, missing: seq<Check>, holdings: seq<Holding>,
                                        perAsset: real)
    requires multiset(xs) == multiset(ys)
    ensures multiset(Items(xs, missing, holdings, perAsset)) == multiset(Items(ys, missing, holdings, perAsset))
  {
    if xs == [] {
      assert |ys| == |multiset(ys)| == |multiset(xs)| == 0;
    } else {
      var i := IndexOf(ys, xs[0]);
      var tail, others := SameRest(xs, ys, i);
      ItemsPermute(tail, others, missing, holdings, perAsset);
      ItemsWithoutOne(xs, 0, missing, holdings, perAsset);
      ItemsWithoutOne(ys, i, missing, holdings, perAsset);
    }
  }

  lemma ItemsWithoutOne(xs: seq<Score>, i: nat, missing: seq<Check>, holdings: seq<Holding>, perAsset: real)
    requires i < |xs|
    ensures multiset(Items(xs, missing, holdings, perAsset))
         == multiset(Items(xs[..i] + xs[i + 1..], missing, holdings, perAsset))
            + multiset{ItemOf(xs[i], missing, holdings, perAsset)}
  {
    hide Items, ItemOf;
    var ys := xs[..i] + xs[i + 1..];
    var items, rest := Items(xs, missing, holdings, perAsset), Items(ys, missing, holdings, perAsset);
    forall k | 0 <= k < |rest| ensures rest[k] == (items[..i] + items[i + 1..])[k] {
      assert ys[k] == if k < i then xs[k] else xs[k + 1];
    }
    assert rest == items[..i] + items[i + 1..];
    WithoutOne(items, i);
    assert items[i] in multiset(items);
  }

  /** The order in which the scores arrive never changes how much is recommended in all. */
  lemma RecommendedTotalIgnoresOrder(xs: seq<Score>, ys: seq<Score>, missing: seq<Check>, holdings: seq<Holding>,
                                     b: Budget, limits: Limits)
    requires multiset(xs) == multiset(ys)
    ensures Bought(BuysFor(xs, missing, holdings, b, limits)) == Bought(BuysFor(ys, missing, holdings, b, limits))
  {
    forall s ensures multiset(Wanted(xs, missing))[s] == multiset(Wanted(ys, missing))[s] {
      WantedCounts(xs, missing, s);
      WantedCounts(ys, missing, s);
    }
    assert multiset(Wanted(xs, missing)) == multiset(Wanted(ys, missing));
    var us, vs := SortByScore(Wanted(xs, missing)), SortByScore(Wanted(ys, missing));
    SortSorts(Wanted(xs, missing));
    SortSorts(Wanted(ys, missing));
    hide Wanted, SortByScore, Bought, BestTotal, GreedyBuys, Sizes;
    RecommendedTotal(xs, missing, holdings, b, limits);
    RecommendedTotal(ys, missing, holdings, b, limits);
    ItemsPermute(us, vs, missing, holdings, limits.perAsset);
    var first, second := Items(us, missing, holdings, limits.perAsset), Items(vs, missing, holdings, limits.perAsset);
    GreedyTotal(first, limits.perTrade, b);
    GreedyTotal(second, limits.perTrade, b);
    TotalIgnoresOrder(first, second, limits.perTrade, b);
  }

  // ----- The recommendation in the caller's own terms.

  /** USD locked in positive holdings, entry by entry. */
  ghost function PositiveUsd(holdings: seq<Holding>): real {
    Sum(seq(|holdings|, i requires 0 <= i < |holdings| => Positive(holdings[i].usd)))
  }

  function Positive(usd: real): real {
    if 0.0 < usd then usd else 0.0
  }

  lemma {:induction false} LockedIsPositive(holdings: seq<Holding>)
    ensures Locked(holdings) == PositiveUsd(holdings) && 0.0 <= Locked(holdings)
  {
    var usd := seq(|holdings|, i requires 0 <= i < |holdings| => Positive(holdings[i].usd));
    if holdings != [] {
      var rest := holdings[1..];
      LockedIsPositive(rest);
      assert usd[1..] == seq(|rest|, i requires 0 <= i < |rest| => Positive(rest[i].usd));
    }
  }

  /** Room of the eligible, missing assets on one exchange: per asset and per trade. */
  ghost function RoomFor(scores: seq<Score>, missing: seq<Check>, holdings: seq<Holding>, limits: Limits,
                         exchange: string): real
  {
    if scores == [] then 0.0
    else
      var s := scores[0];
      RoomFor(scores[1..], missing, holdings, limits, exchange)
      + if s.eligible && MissingAt(missing, s.asset) == Some(exchange)
        then Max(0.0, Min(limits.perTrade, limits.perAsset - HeldUsd(holdings, s.asset))) else 0.0
  }

  lemma {:induction false} RoomIsRoomFor(scores: seq<Score>, missing: seq<Check>, holdings: seq<Holding>,
                                         limits: Limits, exchange: string)
    requires Funded(exchange)
    ensures Room(Items(Wanted(scores, missing), missing, holdings, limits.perAsset), limits.perTrade, exchange)
         == RoomFor(scores, missing, holdings, limits, exchange)
  {
    if scores != [] {
      RoomIsRoomFor(scores[1..], missing, holdings, limits, exchange);
      var rest := Wanted(scores[1..], missing);
      ItemsOfOneMore(scores[0], rest, missing, holdings, limits.perAsset);
      RoomStep(Items([scores[0]] + rest, missing, holdings, limits.perAsset), limits.perTrade, exchange);
    }
  }

  lemma ItemsOfOneMore(s: Score, rest: seq<Score>, missing: seq<Check>, holdings: seq<Holding>, perAsset: real)
    ensures Items([s] + rest, missing, holdings, perAsset)
         == [ItemOf(s, missing, holdings, perAsset)] + Items(rest, missing, holdings, perAsset)
  {
    assert ([s] + rest)[1..] == rest;
  }

  lemma SortedRoom(scores: seq<Score>, missing: seq<Check>, holdings: seq<Holding>, limits: Limits, exchange: string)
    requires Funded(exchange)
    ensures var items := Items(SortByScore(Wanted(scores, missing)), missing, holdings, limits.perAsset);
            Room(items, limits.perTrade, exchange) == RoomFor(scores, missing, holdings, limits, exchange)
  {
    var wanted := Wanted(scores, missing);
    SortSorts(wanted);
    ItemsPermute(SortByScore(wanted), wanted, missing, holdings, limits.perAsset);
    RoomOfPermutation(Items(SortByScore(wanted), missing, holdings, limits.perAsset),
                      Items(wanted, missing, holdings, limits.perAsset), limits.perTrade, exchange);
    RoomIsRoomFor(scores, missing, holdings, limits, exchange);
  }

  /**
   The recommendation spends what total exposure leaves beyond the positive
   holdings and the USDT of each exchange, to the last unit that its limits allow.
   */
  ghost predicate SpendsTheBudget(scores: seq<Score>, missing: seq<Check>, holdings: seq<Holding>, binanceUsdt: real,
                                  bybitUsdt: real, limits: Limits, recommendations: seq<Recommendation>)
  {
    var held, total := PositiveUsd(holdings), Bought(recommendations);
    && held + total <= Max(limits.totalExposure, held)
    && BoughtAt(recommendations, "binance") <= Max(0.0, binanceUsdt)
    && BoughtAt(recommendations, "bybit") <= Max(0.0, bybitUsdt)
    && total == Min(Max(0.0, limits.totalExposure - held),
                    Min(Max(0.0, binanceUsdt), RoomFor(scores, missing, holdings, limits, "binance"))
                    + Min(Max(0.0, bybitUsdt), RoomFor(scores, missing, holdings, limits, "bybit")))
  }

  lemma BudgetIsSpent(scores: seq<Score>, missing: seq<Check>, holdings: seq<Holding>, binanceUsdt: real,
                      bybitUsdt: real, limits: Limits)
    ensures var budget := StartBudget(holdings, binanceUsdt, bybitUsdt, limits.totalExposure);
            SpendsTheBudget(scores, missing, holdings, binanceUsdt, bybitUsdt, limits,
                            Sells(scores, holdings) + BuysFor(scores, missing, holdings, budget, limits))
  {
    var budget := StartBudget(holdings, binanceUsdt, bybitUsdt, limits.totalExposure);
    LockedIsPositive(holdings);
    hide BuysFor, Sells, Bought, BoughtAt, PositiveUsd, RoomFor, Room, Items, Wanted, SortByScore, Locked;
    RecommendedTotal(scores, missing, holdings, budget, limits);
    SellsMean(scores, holdings);
    SellsAddNothing(Sells(scores, holdings), BuysFor(scores, missing, holdings, budget, limits));
    SortedRoom(scores, missing, holdings, limits, "binance");
    SortedRoom(scores, missing, holdings, limits, "bybit");
  }

  lemma {:induction false} SellsAddNothing(sells: seq<Recommendation>, buys: seq<Recommendation>)
    requires forall r <- sells :: r.Sell?
    ensures Bought(sells + buys) == Bought(buys)
    ensures forall exchange :: BoughtAt(sells + buys, exchange) == BoughtAt(buys, exchange)
  {
    if sells == [] {
      assert sells + buys == buys;
    } else {
      SellsAddNothing(sells[1..], buys);
      assert (sells + buys)[1..] == sells[1..] + buys;
      assert sells[0] in sells && forall r <- sells[1..] :: r in sells;
    }
  }

  // ----- Who is served first.

  /** What is left for item `i` after the sizes before it. */
  function LeftFor(items: seq<Item>, sizes: seq<real>, b: Budget, i: nat): real
    requires i < |items| == |sizes|
  {
    var exchange := items[i].exchange;
    Min(b.capacity - Sum(sizes[..i]),
        if exchange == "binance" then b.binance - SpentAt(items[..i], sizes[..i], exchange)
        else if exchange == "bybit" then b.bybit - SpentAt(items[..i], sizes[..i], exchange)
        else 0.0)
  }

  /** Every item takes all it may of what the items before it left. */
  ghost predicate Greedy(items: seq<Item>, sizes: seq<real>, perTrade: real, b: Budget) {
    && |sizes| == |items|
    && forall i: nat | i < |items| ::
         sizes[i] == Max(0.0, Min(Min(perTrade, items[i].headroom), LeftFor(items, sizes, b, i)))
  }

  lemma {:induction false} SizesAreGreedy(items: seq<Item>, perTrade: real, b: Budget)
    ensures Greedy(items, Sizes(items, perTrade, b), perTrade, b)
  {
    if items != [] {
      var it, rest := items[0], items[1..];
      var size := SizeOf(it, perTrade, b);
      var left := Take(b, it.exchange, size);
      var sizes, tail := Sizes(items, perTrade, b), Sizes(rest, perTrade, left);
      SizesAreGreedy(rest, perTrade, left);
      assert sizes == [size] + tail;
      forall i: nat | i < |items|
        ensures sizes[i] == Max(0.0, Min(Min(perTrade, items[i].headroom), LeftFor(items, sizes, b, i)))
      {
        if i > 0 {
          LeftAfterFirst(items, sizes, b, i);
          assert items[i] == rest[i - 1] && sizes[i] == tail[i - 1];
        }
      }
    }
  }

  lemma LeftAfterFirst(items: seq<Item>, sizes: seq<real>, b: Budget, i: nat)
    requires 0 < i < |items| == |sizes|
    ensures LeftFor(items, sizes, b, i)
         == LeftFor(items[1..], sizes[1..], Take(b, items[0].exchange, sizes[0]), i - 1)
  {
    assert sizes[..i][1..] == sizes[1..][..i - 1] && items[..i][1..] == items[1..][..i - 1];
  }

  /** Amounts placed on a ranking of scores. */
  function Placed(ranked: seq<Score>, missing: seq<Check>, sizes: seq<real>): seq<Recommendation>
    requires |ranked| == |sizes|
  {
    if ranked == [] then []
    else
      (if 0.0 < sizes[0] then [Buy(ranked[0].asset, MissingAt(missing, ranked[0].asset).GetOr(""), sizes[0])] else [])
      + Placed(ranked[1..], missing, sizes[1..])
  }

  /** Eligible, missing scores of one total, as they came. */
  function InArrivalOrder(scores: seq<Score>, missing: seq<Check>, total: real): seq<Score> {
    if scores == [] then []
    else
      var s := scores[0];
      (if s.total == total && s.eligible && MissingAt(missing, s.asset).Some? then [s] else [])
      + InArrivalOrder(scores[1..], missing, total)
  }

  lemma {:induction false} WantedArrives(scores: seq<Score>, missing: seq<Check>, total: real)
    ensures WithTotal(Wanted(scores, missing), total) == InArrivalOrder(scores, missing, total)
  {
    if scores != [] {
      WantedArrives(scores[1..], missing, total);
      var rest := Wanted(scores[1..], missing);
      assert ([scores[0]] + rest)[1..] == rest;
    }
  }

  /**
   The buys serve the eligible, missing scores best first, equal ones in the
   order they came, each with all it may take of what the ones before it left.
   */
  lemma BestScoreFirst(scores: seq<Score>, missing: seq<Check>, holdings: seq<Holding>, b: Budget, limits: Limits)
    returns (ranked: seq<Score>, items: seq<Item>, sizes: seq<real>)
    ensures Descending(ranked) && |ranked| == |items| == |sizes|
    ensures forall s :: multiset(ranked)[s]
                        == if s.eligible && MissingAt(missing, s.asset).Some? then multiset(scores)[s] else 0
    ensures forall total :: WithTotal(ranked, total) == InArrivalOrder(scores, missing, total)
    ensures forall i :: 0 <= i < |ranked| ==>
              && items[i].exchange == MissingAt(missing, ranked[i].asset).GetOr("")
              && items[i].headroom == limits.perAsset - HeldUsd(holdings, ranked[i].asset)
    ensures Greedy(items, sizes, limits.perTrade, b)
    ensures BuysFor(scores, missing, holdings, b, limits) == Placed(ranked, missing, sizes)
  {
    var wanted := Wanted(scores, missing);
    ranked := SortByScore(wanted);
    SortSorts(wanted);
    items := Items(ranked, missing, holdings, limits.perAsset);
    sizes := Sizes(items, limits.perTrade, b);
    SizesAreGreedy(items, limits.perTrade, b);
    forall s ensures multiset(ranked)[s]
                     == if s.eligible && MissingAt(missing, s.asset).Some? then multiset(scores)[s] else 0
    {
      WantedCounts(scores, missing, s);
    }
    forall total ensures WithTotal(ranked, total) == InArrivalOrder(scores, missing, total) {
      SortIsStable(wanted, total);
      WantedArrives(scores, missing, total);
    }
    PlacedIsBuys(ranked, missing, holdings, limits.perAsset, sizes);
  }

  lemma {:induction false} PlacedIsBuys(ranked: seq<Score>, missing: seq<Check>, holdings: seq<Holding>, perAsset: real,
                                        sizes: seq<real>)
    requires |ranked| == |sizes|
    ensures Buys(Items(ranked, missing, holdings, perAsset), sizes) == Placed(ranked, missing, sizes)
  {
    if ranked != [] { PlacedIsBuys(ranked[1..], missing, holdings, perAsset, sizes[1..]); }
  }

  // ----- Sales, one for each holding.

  /** Entries that a sale of this asset and amount answers to. */
  ghost function SoldFrom(scores: seq<Score>, holdings: seq<Holding>, r: Recommendation): set<int> {
    set i | 0 <= i < |holdings| && r == Sell(holdings[i].asset, holdings[i].usd)
            && 0.0 < holdings[i].usd && !Justified(scores, holdings[i].asset)
  }

  lemma {:induction false} OneSaleEach(scores: seq<Score>, holdings: seq<Holding>, r: Recommendation)
    ensures multiset(Sells(scores, holdings))[r] == |SoldFrom(scores, holdings, r)|
  {
    hide Sells, SoldFrom, Justified;
    if holdings == [] {
      NothingToSell(scores, r);
    } else {
      var n := |holdings| - 1;
      OneSaleEach(scores, holdings[..n], r);
      LastSale(scores, holdings);
      LastSoldFrom(scores, holdings, r);
    }
  }

  lemma NothingToSell(scores: seq<Score>, r: Recommendation)
    ensures Sells(scores, []) == [] && SoldFrom(scores, [], r) == {}
  {
  }

  lemma LastSale(scores: seq<Score>, holdings: seq<Holding>)
    requires holdings != []
    ensures var h := holdings[|holdings| - 1];
            multiset(Sells(scores, holdings))
            == multiset(Sells(scores, holdings[..|holdings| - 1]))
               + if 0.0 < h.usd && !Justified(scores, h.asset) then multiset{Sell(h.asset, h.usd)} else multiset{}
  {
    hide Justified;
  }

  lemma LastSoldFrom(scores: seq<Score>, holdings: seq<Holding>, r: Recommendation)
    requires holdings != []
    ensures var n, h := |holdings| - 1, holdings[|holdings| - 1];
            |SoldFrom(scores, holdings, r)|
            == |SoldFrom(scores, holdings[..n], r)|
               + if r == Sell(h.asset, h.usd) && 0.0 < h.usd && !Justified(scores, h.asset) then 1 else 0
  {
    hide Justified;
    var n := |holdings| - 1;
    SoldBefore(scores, holdings, r);
    OneMoreIndex(SoldFrom(scores, holdings[..n], r), SoldFrom(scores, holdings, r), n);
  }

  lemma OneMoreIndex(before: set<int>, after: set<int>, n: int)
    requires n !in before && after - {n} == before
    ensures |after| == |before| + if n in after then 1 else 0
  {
    if n in after { assert after == (after - {n}) + {n}; } else { assert after == after - {n}; }
  }

  lemma SoldBefore(scores: seq<Score>, holdings: seq<Holding>, r: Recommendation)
    requires holdings != []
    ensures var n, h := |holdings| - 1, holdings[|holdings| - 1];
            && (n in SoldFrom(scores, holdings, r)
                <==> r == Sell(h.asset, h.usd) && 0.0 < h.usd && !Justified(scores, h.asset))
            && n !in SoldFrom(scores, holdings[..n], r)
            && SoldFrom(scores, holdings, r) - {n} == SoldFrom(scores, holdings[..n], r)
  {
    hide Justified;
    var n := |holdings| - 1;
    assert forall i :: 0 <= i < n ==> holdings[..n][i] == holdings[i];
  }

  // ----- The cap of one asset.

  /** Candidates of an asset that would be bought on an exchange with a budget. */
  function Rivals(items: seq<Item>, asset: string): nat {
    if items == [] then 0
    else (if items[0].asset == asset && Funded(items[0].exchange) then 1 else 0) + Rivals(items[1..], asset)
  }

  /** Scores of an asset. */
  function ScoresOf(scores: seq<Score>, asset: string): nat {
    if scores == [] then 0 else (if scores[0].asset == asset then 1 else 0) + ScoresOf(scores[1..], asset)
  }

  /** Every item of the asset has the same room left, so one of them cannot exceed it. */
  lemma {:induction false} OneRivalFits(items: seq<Item>, perTrade: real, b: Budget, asset: string, headroom: real)
    requires forall it <- items :: it.asset == asset ==> it.headroom == headroom
    ensures Rivals(items, asset) == 0 ==> BoughtOf(GreedyBuys(items, perTrade, b), asset) == 0.0
    ensures Rivals(items, asset) <= 1 ==> BoughtOf(GreedyBuys(items, perTrade, b), asset) <= Max(0.0, headroom)
  {
    if items != [] {
      var it, size := items[0], SizeOf(items[0], perTrade, b);
      var next := if 0.0 < size then Take(b, it.exchange, size) else b;
      OneRivalFits(items[1..], perTrade, next, asset, headroom);
      UnfoldBuys(items, 0, perTrade, b);
      assert items[0..] == items;
      FirstBought(Buy(it.asset, it.exchange, size), GreedyBuys(items[1..], perTrade, next), asset);
      hide GreedyBuys, BoughtOf;
    }
  }

  lemma FirstBought(r: Recommendation, rest: seq<Recommendation>, asset: string)
    requires r.Buy?
    ensures BoughtOf([r] + rest, asset) == (if r.asset == asset then r.usd else 0.0) + BoughtOf(rest, asset)
  {
    assert ([r] + rest)[1..] == rest;
  }

  /** With ample budget every item of a full-headroom asset is bought at the per-trade size. */
  lemma {:induction false} EveryRivalIsServed(items: seq<Item>, b: Budget, asset: string)
    requires forall it <- items :: it.headroom == 1.0
    requires |items| as real <= b.capacity && |items| as real <= b.binance && |items| as real <= b.bybit
    ensures BoughtOf(GreedyBuys(items, 1.0, b), asset) == Rivals(items, asset) as real
  {
    if items != [] {
      var it, size := items[0], SizeOf(items[0], 1.0, b);
      var next := if 0.0 < size then Take(b, it.exchange, size) else b;
      assert size == if Funded(it.exchange) then 1.0 else 0.0;
      EveryRivalIsServed(items[1..], next, asset);
      UnfoldBuys(items, 0, 1.0, b);
      assert items[0..] == items;
      FirstBought(Buy(it.asset, it.exchange, size), GreedyBuys(items[1..], 1.0, next), asset);
      hide GreedyBuys, BoughtOf;
    }
  }

  lemma {:induction false} RivalsAreScores(scores: seq<Score>, missing: seq<Check>, holdings: seq<Holding>,
                                           perAsset: real, asset: string)
    ensures Rivals(Items(scores, missing, holdings, perAsset), asset)
         == if Funded(MissingAt(missing, asset).GetOr("")) then ScoresOf(scores, asset) else 0
  {
    if scores != [] { RivalsAreScores(scores[1..], missing, holdings, perAsset, asset); }
  }

  lemma {:induction false} InsertKeepsScoresOf(s: Score, sorted: seq<Score>, asset: string)
    ensures ScoresOf(Insert(s, sorted), asset) == ScoresOf([s], asset) + ScoresOf(sorted, asset)
  {
    if sorted != [] && s.total < sorted[0].total {
      InsertKeepsScoresOf(s, sorted[1..], asset);
    } else {
      assert Insert(s, sorted)[1..] == sorted;
    }
  }

  lemma {:induction false} SortKeepsScoresOf(scores: seq<Score>, asset: string)
    ensures ScoresOf(SortByScore(scores), asset) == ScoresOf(scores, asset)
  {
    if scores != [] {
      SortKeepsScoresOf(scores[1..], asset);
      InsertKeepsScoresOf(scores[0], SortByScore(scores[1..]), asset);
    }
  }

  /** Two of the scores are of this asset. */
  ghost predicate Shares(scores: seq<Score>, asset: string) {
    exists i, j :: 0 <= i < j < |scores| && scores[i].asset == scores[j].asset == asset
  }

  /** A score of the asset at `i`, and another after it. */
  lemma {:induction false} CountedFrom(scores: seq<Score>, asset: string, i: nat, more: bool)
    requires i < |scores| && scores[i].asset == asset
    requires more ==> exists j :: i < j < |scores| && scores[j].asset == asset
    ensures ScoresOf(scores, asset) >= if more then 2 else 1
    decreases |scores|
  {
    var rest := scores[1..];
    if more {
      var j :| i < j < |scores| && scores[j].asset == asset;
      assert rest[j - 1] == scores[j];
      if i == 0 {
        CountedFrom(rest, asset, j - 1, false);
      } else {
        assert rest[i - 1] == scores[i];
        CountedFrom(rest, asset, i - 1, true);
      }
    } else if i > 0 {
      CountedFrom(rest, asset, i - 1, false);
    }
  }

  lemma {:induction false} FindScore(scores: seq<Score>, asset: string) returns (i: nat)
    requires 0 < ScoresOf(scores, asset)
    ensures i < |scores| && scores[i].asset == asset && ScoresOf(scores[i + 1..], asset) == ScoresOf(scores, asset) - 1
  {
    if scores[0].asset == asset {
      i := 0;
    } else {
      var k := FindScore(scores[1..], asset);
      i := k + 1;
      assert scores[i + 1..] == scores[1..][k + 1..];
    }
  }

  lemma SharesIsTwo(scores: seq<Score>, asset: string)
    ensures 2 <= ScoresOf(scores, asset) <==> Shares(scores, asset)
  {
    if 2 <= ScoresOf(scores, asset) {
      var i := FindScore(scores, asset);
      var k := FindScore(scores[i + 1..], asset);
      assert scores[i + 1 + k].asset == asset;
    }
    if Shares(scores, asset) {
      var i, j :| 0 <= i < j < |scores| && scores[i].asset == scores[j].asset == asset;
      CountedFrom(scores, asset, i, true);
    }
  }

  /** Holding plus recommended buys of the asset stay within its cap, or within what was held already. */
  predicate CapHolds(scores: seq<Score>, missing: seq<Check>, holdings: seq<Holding>, b: Budget, limits: Limits,
                     asset: string)
  {
    HeldUsd(holdings, asset) + BoughtOf(BuysFor(scores, missing, holdings, b, limits), asset)
    <= Max(limits.perAsset, HeldUsd(holdings, asset))
  }

  ghost predicate CapAlwaysHolds(scores: seq<Score>, missing: seq<Check>, asset: string) {
    forall holdings, b, limits :: CapHolds(scores, missing, holdings, b, limits, asset)
  }

  /**
   An asset's cap holds, whatever is held, budgeted and allowed, exactly unless
   two wanted scores are of that asset and it would be bought on a funded exchange.
   */
  lemma CapAlwaysHoldsIff(scores: seq<Score>, missing: seq<Check>, asset: string)
    ensures CapAlwaysHolds(scores, missing, asset)
            <==> !(Shares(Wanted(scores, missing), asset) && Funded(MissingAt(missing, asset).GetOr("")))
  {
    var sorted := SortByScore(Wanted(scores, missing));
    SharesIsTwo(Wanted(scores, missing), asset);
    SortKeepsScoresOf(Wanted(scores, missing), asset);
    hide Wanted, SortByScore, ScoresOf, Shares, MissingAt, GreedyBuys, BoughtOf, Rivals;
    if Shares(Wanted(scores, missing), asset) && Funded(MissingAt(missing, asset).GetOr("")) {
      var n := |sorted| as real;
      var b, limits := Budget(n, n, n), Limits(1.0, n, 1.0);
      var items := Items(sorted, missing, [], 1.0);
      assert forall i :: 0 <= i < |items| ==> items[i].headroom == 1.0;
      RivalsAreScores(sorted, missing, [], 1.0, asset);
      EveryRivalIsServed(items, b, asset);
      assert !CapHolds(scores, missing, [], b, limits, asset);
    } else {
      forall holdings, b, limits ensures CapHolds(scores, missing, holdings, b, limits, asset) {
        var items := Items(sorted, missing, holdings, limits.perAsset);
        RivalsAreScores(sorted, missing, holdings, limits.perAsset, asset);
        var headroom := limits.perAsset - HeldUsd(holdings, asset);
        assert forall i :: 0 <= i < |items| && items[i].asset == asset ==> items[i].headroom == headroom;
        OneRivalFits(items, limits.perTrade, b, asset, headroom);
      }
    }
  }

  /** With one score per asset every cap holds. */
  lemma DistinctScoresKeepTheCap(scores: seq<Score>, missing: seq<Check>, asset: string)
    requires DistinctAssets(scores)
    ensures CapAlwaysHolds(scores, missing, asset)
  {
    CapAlwaysHoldsIff(scores, missing, asset);
    WantedMeans(scores, missing);
  }

  /** Two eligible scores of one missing asset on a funded exchange exceed its cap under some limits. */
  lemma DuplicateScoresBreakTheCap(a: Score, c: Score, exchange: string)
    requires a.asset == c.asset && a.eligible && c.eligible && Funded(exchange)
    ensures !CapAlwaysHolds([a, c], [Check(a.asset, exchange, true)], a.asset)
  {
    var missing := [Check(a.asset, exchange, true)];
    assert [a, c][1..] == [c] && [c][1..] == [];
    assert Wanted([c], missing) == [c];
    var wanted := Wanted([a, c], missing);
    assert wanted == [a, c];
    assert Shares(wanted, a.asset) by { assert wanted[0].asset == wanted[1].asset == a.asset; }
    CapAlwaysHoldsIff([a, c], missing, a.asset);
  }
}
