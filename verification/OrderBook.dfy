/**
 The order-book walk of app/market_data/orderbook.py: fill a USD target level
 by level and report the volume-weighted average price.

 `Filled`, `Quantity` and `Worst` specify the walk one level at a time; the
 method `SimulateVwap` is the loop. The lemmas say what the walk is for: it
 spends exactly what the book allows, it is the best way to spend it, and a
 bigger target never gets a better average.
 */
module OrderBook {
  import opened RealMath

  datatype Level = Level(price: real, quantity: real)

  datatype VwapResult = VwapResult(
    target: real, filled: real, average: real, worst: real, fullyFilled: bool)

  const FILL_EPSILON := 0.000000001

  /** The walk divides by each level's price; depth may be zero. */
  predicate ValidBook(levels: seq<Level>) {
    forall i :: 0 <= i < |levels| ==> 0.0 < levels[i].price && 0.0 <= levels[i].quantity
  }

  /** `a` is at least as good a price as `b`: lower when buying, higher when selling. */
  predicate AtLeastAsGood(buying: bool, a: real, b: real) {
    if buying then a <= b else b <= a
  }

  /** Paying or receiving `usd` for `units` is no better than doing so at price `p`. */
  predicate NoBetterThan(buying: bool, p: real, units: real, usd: real) {
    AtLeastAsGood(buying, Times(p, units), usd)
  }

  /** `ft` USD for `qt` units is no better an average than `fs` USD for `qs` units. */
  predicate NoBetterRatio(buying: bool, fs: real, qs: real, ft: real, qt: real) {
    AtLeastAsGood(buying, Times(fs, qt), Times(ft, qs))
  }

  /** Best price first: asks ascending, bids descending. */
  predicate SortedBook(levels: seq<Level>, buying: bool) {
    forall i, j :: 0 <= i <= j < |levels| ==> AtLeastAsGood(buying, levels[i].price, levels[j].price)
  }

  function LevelUsd(l: Level): real {
    l.price * l.quantity
  }

  function UnitsFor(usd: real, price: real): real
    requires price != 0.0
  {
    usd / price
  }

  function Depth(levels: seq<Level>): real {
    if levels == [] then 0.0 else LevelUsd(levels[0]) + Depth(levels[1..])
  }

  /** USD taken by the walk. */
  function Filled(levels: seq<Level>, target: real): real {
    if levels == [] then 0.0
    else
      var take := Min(target, LevelUsd(levels[0]));
      if target - take <= 0.0 then take else take + Filled(levels[1..], target - take)
  }

  /** Base units the walk exchanges for `Filled`. */
  function Quantity(levels: seq<Level>, target: real): real
    requires ValidBook(levels)
  {
    if levels == [] then 0.0
    else
      var take := Min(target, LevelUsd(levels[0]));
      var units := UnitsFor(take, levels[0].price);
      if target - take <= 0.0 then units else units + Quantity(levels[1..], target - take)
  }

  /** Price of the last level the walk visits. */
  function Worst(levels: seq<Level>, target: real): real {
    if levels == [] then 0.0
    else
      var take := Min(target, LevelUsd(levels[0]));
      if target - take <= 0.0 || |levels| == 1 then levels[0].price else Worst(levels[1..], target - take)
  }

  function Average(levels: seq<Level>, target: real): real
    requires ValidBook(levels)
  {
    if Quantity(levels, target) != 0.0 then Filled(levels, target) / Quantity(levels, target) else 0.0
  }

  function Vwap(levels: seq<Level>, target: real): VwapResult
    requires ValidBook(levels)
  {
    VwapResult(target, Filled(levels, target), Average(levels, target), Worst(levels, target),
               target - Filled(levels, target) <= FILL_EPSILON)
  }

  /** The loop, with its early break, computes the specified walk. */
  method SimulateVwap(levels: seq<Level>, target: real) returns (r: VwapResult)
    requires ValidBook(levels)
    ensures r == Vwap(levels, target)
    ensures levels != [] || 0.0 <= target ==> r.filled == Min(target, Depth(levels))
  {
    var remaining := target;
    var filled := 0.0;
    var filledQuantity := 0.0;
    var worst := if levels != [] then levels[0].price else 0.0;
    var i := 0;
    var done := false;
    assert levels[0..] == levels;
    while i < |levels| && !done
      invariant 0 <= i <= |levels|
      invariant filled + remaining == target
      invariant filled + (if done then 0.0 else Filled(levels[i..], remaining)) == Filled(levels, target)
      invariant filledQuantity + (if done then 0.0 else Quantity(levels[i..], remaining)) == Quantity(levels, target)
      invariant Worst(levels, target) == if done || i == |levels| then worst else Worst(levels[i..], remaining)
      decreases |levels| - i
    {
      hide Filled, Quantity, Worst, LevelUsd, UnitsFor;
      var level := levels[i];
      WalkStep(levels, i, remaining);
      var take := Min(remaining, LevelUsd(level));
      filled := filled + take;
      filledQuantity := filledQuantity + UnitsFor(take, level.price);
      worst := level.price;
      remaining := remaining - take;
      done := remaining <= 0.0;
      i := i + 1;
    }
    FilledIsMin(levels, target);
    var average := if filledQuantity != 0.0 then filled / filledQuantity else 0.0;
    r := VwapResult(target, filled, average, worst, remaining <= FILL_EPSILON);
  }

  /** One iteration of the loop against the specification. */
  lemma WalkStep(levels: seq<Level>, i: nat, remaining: real)
    requires ValidBook(levels) && i < |levels|
    ensures var take := Min(remaining, LevelUsd(levels[i]));
            var left := remaining - take;
            && Filled(levels[i..], remaining)
               == take + (if left <= 0.0 then 0.0 else Filled(levels[i + 1..], left))
            && Quantity(levels[i..], remaining)
               == UnitsFor(take, levels[i].price) + (if left <= 0.0 then 0.0 else Quantity(levels[i + 1..], left))
            && Worst(levels[i..], remaining)
               == if left <= 0.0 || i + 1 == |levels| then levels[i].price else Worst(levels[i + 1..], left)
  {
    assert levels[i..][0] == levels[i] && levels[i..][1..] == levels[i + 1..];
  }

  lemma {:induction false} DepthNonNegative(levels: seq<Level>)
    requires ValidBook(levels)
    ensures 0.0 <= Depth(levels)
  {
    if levels != [] {
      MulMono(0.0, levels[0].quantity, levels[0].price);
      DepthNonNegative(levels[1..]);
    }
  }

  /** Conservation: the walk spends the target, or the whole book when that is less. */
  lemma {:induction false} FilledIsMin(levels: seq<Level>, target: real)
    requires ValidBook(levels)
    ensures levels != [] || 0.0 <= target ==> Filled(levels, target) == Min(target, Depth(levels))
  {
    if levels != [] {
      MulMono(0.0, levels[0].quantity, levels[0].price);
      DepthNonNegative(levels[1..]);
      FilledIsMin(levels[1..], target - Min(target, LevelUsd(levels[0])));
    }
  }

  /** What the result says: filled, the average that turns units into it, and whether the depth sufficed. */
  lemma VwapReports(levels: seq<Level>, target: real)
    requires ValidBook(levels) && (levels != [] || 0.0 <= target)
    ensures var r, units := Vwap(levels, target), Quantity(levels, target);
            && r.target == target && r.filled == Min(target, Depth(levels))
            && (units != 0.0 ==> Times(r.average, units) == r.filled) && (units == 0.0 ==> r.average == 0.0)
            && (r.fullyFilled <==> target <= Depth(levels) + FILL_EPSILON)
            && (levels == [] ==> r.worst == 0.0)
  {
    hide Filled, Quantity, Depth, Worst, Times;
    FilledIsMin(levels, target);
    if Quantity(levels, target) != 0.0 { TimesQuotient(Filled(levels, target), Quantity(levels, target)); }
    if levels == [] { NoWorst(levels, target); }
  }

  lemma NoWorst(levels: seq<Level>, target: real)
    requires levels == []
    ensures Worst(levels, target) == 0.0
  {
  }

  /** The worst price is that of the level at which the depth first covers the target, or of the last level. */
  lemma {:induction false} WorstIsLastReached(levels: seq<Level>, target: real) returns (n: nat)
    requires ValidBook(levels) && levels != []
    ensures n < |levels| && Worst(levels, target) == levels[n].price
    ensures n == |levels| - 1 || target <= Depth(levels[..n + 1])
    ensures 0 < n ==> Depth(levels[..n]) < target
  {
    var usd, rest := LevelUsd(levels[0]), levels[1..];
    hide LevelUsd;
    assert Depth(levels[..1]) == usd by { PrefixDepth(levels, 1); }
    if target <= usd || |levels| == 1 {
      n := 0;
    } else {
      var k := WorstIsLastReached(rest, target - usd);
      n := k + 1;
      PrefixDepth(levels, n + 1);
      PrefixDepth(levels, n);
      assert rest[..0] == [];
    }
  }

  lemma PrefixDepth(levels: seq<Level>, n: nat)
    requires 0 < n <= |levels|
    ensures Depth(levels[..n]) == LevelUsd(levels[0]) + Depth(levels[1..][..n - 1])
    ensures Depth([]) == 0.0
  {
    assert levels[..n][0] == levels[0] && levels[..n][1..] == levels[1..][..n - 1];
  }

  /** For a non-negative target the early break can be ignored. */
  lemma {:induction false} Unfold(levels: seq<Level>, target: real)
    requires ValidBook(levels) && levels != [] && 0.0 <= target
    ensures var take := Min(target, LevelUsd(levels[0]));
            && 0.0 <= take <= target && take <= LevelUsd(levels[0])
            && Filled(levels, target) == take + Filled(levels[1..], target - take)
            && Quantity(levels, target) == UnitsFor(take, levels[0].price) + Quantity(levels[1..], target - take)
  {
    MulMono(0.0, levels[0].quantity, levels[0].price);
    NothingForNothing(levels[1..]);
  }

  lemma NothingForNothing(levels: seq<Level>)
    requires ValidBook(levels)
    ensures Filled(levels, 0.0) == 0.0 && Quantity(levels, 0.0) == 0.0
  {
    if levels != [] {
      MulMono(0.0, levels[0].quantity, levels[0].price);
    }
  }

  lemma {:induction false} QuantitySign(levels: seq<Level>, target: real)
    requires ValidBook(levels) && 0.0 <= target
    ensures 0.0 <= Filled(levels, target) <= target && 0.0 <= Quantity(levels, target)
    ensures 0.0 < Filled(levels, target) <==> 0.0 < Quantity(levels, target)
  {
    if levels != [] {
      Unfold(levels, target);
      var take := Min(target, LevelUsd(levels[0]));
      DivSign(take, levels[0].price);
      QuantitySign(levels[1..], target - take);
    }
  }

  /** Units and USD that raising the target from `s` to `t` adds. */
  ghost function Gain(levels: seq<Level>, s: real, t: real): real
    requires ValidBook(levels)
  {
    Quantity(levels, t) - Quantity(levels, s)
  }

  ghost function Spent(levels: seq<Level>, s: real, t: real): real {
    Filled(levels, t) - Filled(levels, s)
  }

  /** When every price is no better than `p`, neither is what a larger target adds. */
  lemma {:induction false} MarginalBound(levels: seq<Level>, buying: bool, p: real, s: real, t: real)
    requires ValidBook(levels) && 0.0 < p && 0.0 <= s <= t
    requires forall i :: 0 <= i < |levels| ==> AtLeastAsGood(buying, p, levels[i].price)
    ensures NoBetterThan(buying, p, Gain(levels, s, t), Spent(levels, s, t))
  {
    if levels != [] {
      hide Filled, Quantity, NoBetterThan, LevelUsd;
      var usd, rest := LevelUsd(levels[0]), levels[1..];
      var ks, kt := Min(s, usd), Min(t, usd);
      Unfold(levels, s);
      Unfold(levels, t);
      MarginalBound(rest, buying, p, s - ks, t - kt);
      MarginalStep(buying, p, levels[0].price, ks, kt, Gain(rest, s - ks, t - kt), Spent(rest, s - ks, t - kt),
                   Gain(levels, s, t));
    }
  }

  lemma MarginalStep(buying: bool, p: real, q: real, ks: real, kt: real, gain: real, spent: real,
                     total: real)
    requires 0.0 < p && 0.0 < q && ks <= kt && AtLeastAsGood(buying, p, q)
    requires NoBetterThan(buying, p, gain, spent) && total == UnitsFor(kt, q) - UnitsFor(ks, q) + gain
    ensures NoBetterThan(buying, p, total, kt - ks + spent)
  {
    hide Times;
    var x, y := kt / q, ks / q;
    TimesQuotient(kt, q);
    TimesQuotient(ks, q);
    TimesSum(q, x, y);
    if x < y { TimesStrict(x, y, q); }
    if buying { TimesMono(p, q, x - y); } else { TimesMono(q, p, x - y); }
    TimesSum(p, x - y, gain);
  }

  /** The first price bounds the average of the whole walk. */
  lemma BestPriceBound(levels: seq<Level>, buying: bool, p: real, t: real)
    requires ValidBook(levels) && 0.0 < p && 0.0 <= t
    requires forall i :: 0 <= i < |levels| ==> AtLeastAsGood(buying, p, levels[i].price)
    ensures NoBetterThan(buying, p, Quantity(levels, t), Filled(levels, t))
  {
    hide Filled, Quantity, NoBetterThan;
    NothingForNothing(levels);
    MarginalBound(levels, buying, p, 0.0, t);
  }

  /** What holds of a sorted book holds of its tail, whose prices are no better than the first. */
  lemma SortedTail(levels: seq<Level>, buying: bool)
    requires ValidBook(levels) && SortedBook(levels, buying) && levels != []
    ensures ValidBook(levels[1..]) && SortedBook(levels[1..], buying) && 0.0 < levels[0].price
    ensures forall i :: 0 <= i < |levels[1..]| ==> AtLeastAsGood(buying, levels[0].price, levels[1..][i].price)
  {
  }

  /** The heart of the depth curve: filled per unit gets no better as the target grows. */
  lemma {:induction false} RatioMonotone(levels: seq<Level>, buying: bool, s: real, t: real)
    requires ValidBook(levels) && SortedBook(levels, buying) && 0.0 <= s <= t
    ensures NoBetterRatio(buying, Filled(levels, s), Quantity(levels, s), Filled(levels, t), Quantity(levels, t))
  {
    if levels != [] {
      hide Filled, Quantity, NoBetterThan, NoBetterRatio, LevelUsd, UnitsFor;
      SortedTail(levels, buying);
      var p, usd, rest := levels[0].price, LevelUsd(levels[0]), levels[1..];
      Unfold(levels, s);
      Unfold(levels, t);
      var ks, kt := Min(s, usd), Min(t, usd);
      if usd < s {
        // Both targets exhaust the first level; the tails decide.
        RatioMonotone(rest, buying, s - ks, t - kt);
        MarginalBound(rest, buying, p, s - ks, t - kt);
        RatioStep(buying, p, usd,
                  Quantity(rest, s - ks), Quantity(rest, t - kt), Filled(rest, s - ks), Filled(rest, t - kt),
                  Gain(rest, s - ks, t - kt), Spent(rest, s - ks, t - kt));
      } else {
        // The smaller target is filled at the best price.
        NothingForNothing(rest);
        BestPriceBound(levels, buying, p, t);
        FlatStep(buying, p, Filled(levels, s), Filled(levels, t), Quantity(levels, t));
      }
    }
  }

  /** USD filled at price `p` against units and USD that do no better than `p`. */
  lemma FlatStep(buying: bool, p: real, fs: real, ft: real, qt: real)
    requires 0.0 < p && 0.0 <= fs && NoBetterThan(buying, p, qt, ft)
    ensures NoBetterRatio(buying, fs, UnitsFor(fs, p), ft, qt)
  {
    var x := fs / p;
    DivSign(fs, p);
    hide Times;
    TimesQuotient(fs, p);
    TimesAssoc(x, p, qt);
    TimesComm(ft, x);
    if buying { TimesMono(Times(p, qt), ft, x); } else { TimesMono(ft, Times(p, qt), x); }
  }

  lemma RatioStep(buying: bool, p: real, usd: real, qs: real, qt: real, fs: real, ft: real, gain: real, spent: real)
    requires 0.0 < p && 0.0 <= usd && gain == qt - qs && spent == ft - fs
    requires NoBetterRatio(buying, fs, qs, ft, qt)
    requires NoBetterThan(buying, p, gain, spent)
    ensures NoBetterRatio(buying, usd + fs, UnitsFor(usd, p) + qs, usd + ft, UnitsFor(usd, p) + qt)
  {
    hide Times, NoBetterThan, UnitsFor;
    FlatStep(buying, p, usd, spent, gain);
    ExpandRatio(UnitsFor(usd, p), usd, qs, qt, fs, ft);
  }

  lemma ExpandRatio(x: real, usd: real, qs: real, qt: real, fs: real, ft: real)
    ensures Times(usd + ft, x + qs) - Times(usd + fs, x + qt)
         == (Times(ft, qs) - Times(fs, qt)) + (Times(ft - fs, x) - Times(usd, qt - qs))
  {
  }

  lemma AveragePositive(levels: seq<Level>, target: real)
    requires ValidBook(levels) && 0.0 < Filled(levels, target)
    ensures 0.0 < target && 0.0 < Depth(levels)
    ensures 0.0 < Quantity(levels, target) && 0.0 < Average(levels, target)
  {
    FilledIsMin(levels, target);
    QuantitySign(levels, target);
    var f, q := Filled(levels, target), Quantity(levels, target);
    hide Filled, Quantity;
    DivSign(f, q);
  }

  /** A bigger target never gets a better average price. */
  lemma AverageMonotone(levels: seq<Level>, buying: bool, s: real, t: real)
    requires ValidBook(levels) && SortedBook(levels, buying)
    requires 0.0 < s <= t && 0.0 < Depth(levels)
    ensures 0.0 < Filled(levels, s) <= Filled(levels, t)
    ensures 0.0 < Average(levels, s) && 0.0 < Average(levels, t)
    ensures AtLeastAsGood(buying, Average(levels, s), Average(levels, t))
  {
    hide Filled, Quantity, Depth, NoBetterRatio;
    FilledIsMin(levels, s);
    FilledIsMin(levels, t);
    QuantitySign(levels, s);
    QuantitySign(levels, t);
    RatioMonotone(levels, buying, s, t);
    AverageStep(buying, Filled(levels, s), Quantity(levels, s), Filled(levels, t), Quantity(levels, t));
  }

  lemma AverageStep(buying: bool, fs: real, qs: real, ft: real, qt: real)
    requires 0.0 < fs && 0.0 < qs && 0.0 < ft && 0.0 < qt && NoBetterRatio(buying, fs, qs, ft, qt)
    ensures 0.0 < fs / qs && 0.0 < ft / qt && AtLeastAsGood(buying, fs / qs, ft / qt)
  {
    DivSign(fs, qs);
    DivSign(ft, qt);
    DivLeq(fs, qs, ft, qt);
    DivLeq(ft, qt, fs, qs);
  }

  /** The last price visited gets no better as the target grows. */
  lemma {:induction false} WorstMonotone(levels: seq<Level>, buying: bool, s: real, t: real)
    requires ValidBook(levels) && SortedBook(levels, buying) && levels != [] && s <= t
    ensures AtLeastAsGood(buying, levels[0].price, Worst(levels, s))
    ensures AtLeastAsGood(buying, Worst(levels, s), Worst(levels, t))
    decreases |levels|
  {
    if |levels| > 1 {
      var usd, rest := LevelUsd(levels[0]), levels[1..];
      WorstMonotone(rest, buying, s - Min(s, usd), t - Min(t, usd));
    }
  }

  lemma {:induction false} WorstPriceBound(levels: seq<Level>, buying: bool, t: real)
    requires ValidBook(levels) && SortedBook(levels, buying) && levels != [] && 0.0 <= t
    ensures NoBetterThan(!buying, Worst(levels, t), Quantity(levels, t), Filled(levels, t))
  {
    var p, rest := levels[0].price, levels[1..];
    var take := Min(t, LevelUsd(levels[0]));
    assert rest == [] ==> Quantity(rest, t - take) == Filled(rest, t - take) == 0.0;
    hide Filled, Quantity, NoBetterThan, LevelUsd, UnitsFor;
    Unfold(levels, t);
    NothingForNothing(rest);
    if t - take > 0.0 && rest != [] {
      WorstPriceBound(rest, buying, t - take);
      WorstMonotone(rest, buying, t - take, t - take);
      WorstStep(buying, p, Worst(rest, t - take), take, Quantity(rest, t - take), Filled(rest, t - take));
    } else {
      WorstStep(buying, p, p, take, Quantity(rest, t - take), Filled(rest, t - take));
    }
  }

  lemma WorstStep(buying: bool, p: real, w: real, take: real, q: real, f: real)
    requires 0.0 < p && 0.0 <= take && AtLeastAsGood(buying, p, w)
    requires NoBetterThan(!buying, w, q, f) || (q == 0.0 && f == 0.0)
    ensures NoBetterThan(!buying, w, UnitsFor(take, p) + q, take + f)
  {
    var x := take / p;
    DivSign(take, p);
    hide Times;
    TimesQuotient(take, p);
    TimesSum(w, x, q);
    TimesZero(w);
    if buying { TimesMono(p, w, x); } else { TimesMono(w, p, x); }
  }

  /** The average lies between the best and the worst price visited. */
  lemma AverageBetween(levels: seq<Level>, buying: bool, t: real)
    requires ValidBook(levels) && SortedBook(levels, buying)
    requires 0.0 < t && 0.0 < Depth(levels)
    ensures levels != []
    ensures AtLeastAsGood(buying, levels[0].price, Average(levels, t))
    ensures AtLeastAsGood(buying, Average(levels, t), Worst(levels, t))
  {
    assert levels != [];
    hide Filled, Quantity, Worst, Depth, NoBetterThan;
    FilledIsMin(levels, t);
    QuantitySign(levels, t);
    BestPriceBound(levels, buying, levels[0].price, t);
    WorstPriceBound(levels, buying, t);
    BetweenStep(buying, levels[0].price, Worst(levels, t), Filled(levels, t), Quantity(levels, t));
  }

  lemma BetweenStep(buying: bool, best: real, worst: real, f: real, q: real)
    requires 0.0 < q && NoBetterThan(buying, best, q, f) && NoBetterThan(!buying, worst, q, f)
    ensures AtLeastAsGood(buying, best, f / q) && AtLeastAsGood(buying, f / q, worst)
  {
    hide Times;
    QuotientTimes(f, q, best);
    QuotientTimes(f, q, worst);
  }

  // ----- The walk against every other way to spend the same money.

  /** `spend[i]` USD goes to level i, within that level's depth. */
  ghost predicate Allocation(levels: seq<Level>, spend: seq<real>) {
    |spend| == |levels| && forall i :: 0 <= i < |levels| ==> 0.0 <= spend[i] <= LevelUsd(levels[i])
  }

  ghost function Units(levels: seq<Level>, spend: seq<real>): real
    requires ValidBook(levels) && |spend| == |levels|
  {
    if levels == [] then 0.0 else UnitsFor(spend[0], levels[0].price) + Units(levels[1..], spend[1..])
  }

  /** An allocation is what it spends on the first level and an allocation of the rest. */
  lemma AllocationHead(levels: seq<Level>, spend: seq<real>)
    requires ValidBook(levels) && Allocation(levels, spend) && levels != []
    ensures ValidBook(levels[1..]) && Allocation(levels[1..], spend[1..])
    ensures 0.0 <= spend[0] <= LevelUsd(levels[0]) && Sum(spend) == spend[0] + Sum(spend[1..])
    ensures Units(levels, spend) == UnitsFor(spend[0], levels[0].price) + Units(levels[1..], spend[1..])
    ensures Depth(levels) == LevelUsd(levels[0]) + Depth(levels[1..])
  {
  }

  /** No allocation of the same money buys more units, or gives up fewer when selling. */
  lemma {:induction false} WalkIsBest(levels: seq<Level>, buying: bool, spend: seq<real>)
    requires ValidBook(levels) && SortedBook(levels, buying) && Allocation(levels, spend)
    ensures 0.0 <= Sum(spend) <= Depth(levels)
    ensures AtLeastAsGood(buying, Units(levels, spend), Quantity(levels, Sum(spend)))
  {
    if levels != [] {
      AllocationHead(levels, spend);
      SortedTail(levels, buying);
      assert |spend| == |levels|;
      hide Filled, Quantity, Depth, Sum, Units, Allocation, NoBetterThan, LevelUsd, UnitsFor, ValidBook, SortedBook;
      var p, rest, a, tail := levels[0].price, levels[1..], spend[0], spend[1..];
      WalkIsBest(rest, buying, tail);
      var total := Sum(spend);
      Unfold(levels, total);
      var take := Min(total, LevelUsd(levels[0]));
      MarginalBound(rest, buying, p, total - take, total - a);
      FilledIsMin(rest, total - take);
      FilledIsMin(rest, total - a);
      BestStep(buying, p, a, take, Units(rest, tail), Quantity(rest, total - a), Quantity(rest, total - take));
    }
  }

  lemma BestStep(buying: bool, p: real, a: real, take: real, units: real, qa: real, qt: real)
    requires 0.0 < p && AtLeastAsGood(buying, units, qa)
    requires NoBetterThan(buying, p, qa - qt, take - a)
    ensures AtLeastAsGood(buying, UnitsFor(a, p) + units, UnitsFor(take, p) + qt)
  {
    hide Times;
    QuotientTimes(take - a, p, qa - qt);
    TimesComm(p, qa - qt);
    QuotientsSum(take, a, p);
  }

  /** The walk is itself an allocation, so the bound is attained. */
  lemma {:induction false} WalkIsAnAllocation(levels: seq<Level>, target: real) returns (spend: seq<real>)
    requires ValidBook(levels) && 0.0 <= target
    ensures Allocation(levels, spend)
    ensures Sum(spend) == Filled(levels, target) && Units(levels, spend) == Quantity(levels, target)
  {
    if levels == [] {
      spend := [];
    } else {
      Unfold(levels, target);
      var take := Min(target, LevelUsd(levels[0]));
      var tail := WalkIsAnAllocation(levels[1..], target - take);
      spend := [take] + tail;
      assert spend[1..] == tail;
    }
  }

  // ----- The walk to a quantity (`_vwap_for_target_qty` in app/execution/reality_quote.py).

  function Worth(units: real, price: real): real {
    units * price
  }

  /** USD moved by trading `units` against the book, best price first. */
  function UnitCost(levels: seq<Level>, units: real): real {
    if levels == [] || units <= 0.0 then 0.0
    else
      var take := Min(units, levels[0].quantity);
      Worth(take, levels[0].price) + UnitCost(levels[1..], units - take)
  }

  function UnitsFilled(levels: seq<Level>, units: real): real {
    if levels == [] || units <= 0.0 then 0.0
    else
      var take := Min(units, levels[0].quantity);
      take + UnitsFilled(levels[1..], units - take)
  }

  function TotalUnits(levels: seq<Level>): real {
    if levels == [] then 0.0 else levels[0].quantity + TotalUnits(levels[1..])
  }

  /** The loop, with its early break, computes the specified walk. */
  method VwapForTargetQty(levels: seq<Level>, target: real) returns (average: real, filled: real)
    ensures filled == UnitsFilled(levels, target)
    ensures average == if filled == 0.0 then 0.0 else UnitCost(levels, target) / filled
  {
    var remaining, cost := target, 0.0;
    filled := 0.0;
    var i := 0;
    assert levels[0..] == levels;
    while i < |levels| && 0.0 < remaining
      invariant 0 <= i <= |levels|
      invariant cost + UnitCost(levels[i..], remaining) == UnitCost(levels, target)
      invariant filled + UnitsFilled(levels[i..], remaining) == UnitsFilled(levels, target)
    {
      hide Worth;
      var level := levels[i];
      assert levels[i..][0] == level && levels[i..][1..] == levels[i + 1..];
      var take := Min(remaining, level.quantity);
      cost := cost + Worth(take, level.price);
      filled := filled + take;
      remaining := remaining - take;
      i := i + 1;
    }
    average := if filled == 0.0 then 0.0 else cost / filled;
  }

  lemma {:induction false} UnitsFilledIsMin(levels: seq<Level>, units: real)
    requires ValidBook(levels) && 0.0 <= units
    ensures 0.0 <= TotalUnits(levels) && UnitsFilled(levels, units) == Min(units, TotalUnits(levels))
  {
    if levels != [] {
      UnitsFilledIsMin(levels[1..], units - Min(units, levels[0].quantity));
    }
  }

  /**
   The two walks undo each other: trading `units` moves more than `t` USD exactly
   when `t` USD is within the depth and takes fewer units.
   */
  lemma {:induction false} WalksAgree(levels: seq<Level>, t: real, units: real)
    requires ValidBook(levels) && 0.0 <= t && 0.0 <= units
    ensures t < UnitCost(levels, units) <==> t < Depth(levels) && Quantity(levels, t) < units
  {
    hide Filled, Quantity, Depth, UnitCost, LevelUsd, UnitsFor, Worth;
    QuantitySign(levels, t);
    UnitCostNonNegative(levels, units);
    if levels == [] {
      EmptyBook(levels);
    } else if units > 0.0 {
      var level, rest := levels[0], levels[1..];
      var usd, take := LevelUsd(level), Min(units, level.quantity);
      assert 0.0 < level.price && 0.0 <= level.quantity && ValidBook(rest);
      Unfold(levels, t);
      UnitCostStep(levels, units);
      DepthStep(levels);
      DepthNonNegative(rest);
      NothingForNothing(rest);
      UnitCostNonNegative(rest, units - take);
      WholeFirstLevel(level, units, take);
      if t < usd {
        FirstLevelOnly(level, t, units, take);
      } else {
        QuantitySign(rest, t - usd);
        WalksAgree(rest, t - usd, units - take);
      }
    }
  }

  lemma EmptyBook(levels: seq<Level>)
    requires levels == []
    ensures Depth(levels) == 0.0 && forall units :: UnitCost(levels, units) == 0.0
  {
  }

  lemma UnitCostStep(levels: seq<Level>, units: real)
    requires levels != [] && 0.0 < units
    ensures var take := Min(units, levels[0].quantity);
            UnitCost(levels, units) == Worth(take, levels[0].price) + UnitCost(levels[1..], units - take)
  {
  }

  lemma DepthStep(levels: seq<Level>)
    requires levels != []
    ensures Depth(levels) == LevelUsd(levels[0]) + Depth(levels[1..])
  {
  }

  lemma {:induction false} UnitCostNonNegative(levels: seq<Level>, units: real)
    requires ValidBook(levels) && 0.0 <= units
    ensures 0.0 <= UnitCost(levels, units)
    ensures units <= 0.0 ==> UnitCost(levels, units) == 0.0
  {
    if levels != [] {
      var take := Min(units, levels[0].quantity);
      MulMono(0.0, take, levels[0].price);
      UnitCostNonNegative(levels[1..], units - take);
    }
  }

  lemma FirstLevelOnly(level: Level, t: real, units: real, take: real)
    requires 0.0 < level.price && 0.0 <= t < LevelUsd(level) && take == Min(units, level.quantity)
    ensures t < Worth(take, level.price) <==> UnitsFor(t, level.price) < units
  {
    DivMul(t, level.price);
    QuotientBound(t, level.price, take);
    QuotientBound(t, level.price, level.quantity);
  }

  lemma WholeFirstLevel(level: Level, units: real, take: real)
    requires 0.0 < level.price && 0.0 <= level.quantity && take == Min(units, level.quantity)
    ensures Worth(take, level.price) <= LevelUsd(level)
    ensures level.quantity <= units ==> Worth(take, level.price) == LevelUsd(level)
    ensures UnitsFor(LevelUsd(level), level.price) == level.quantity
  {
    MulMono(take, level.quantity, level.price);
    DivMul(level.quantity, level.price);
  }

  /** On the bids, more proceeds within the depth always take more units. */
  lemma ProceedsNeedUnits(bids: seq<Level>, s: real, t: real)
    requires ValidBook(bids) && SortedBook(bids, false) && 0.0 <= s < t <= Depth(bids)
    ensures Quantity(bids, s) < Quantity(bids, t)
  {
    assert bids != [];
    FilledIsMin(bids, s);
    FilledIsMin(bids, t);
    hide Filled, Quantity, Depth;
    var p := bids[0].price;
    MarginalBound(bids, false, p, s, t);
    ProductSign(p, Gain(bids, s, t));
  }

  lemma ProductSign(p: real, x: real)
    requires 0.0 < p
    ensures 0.0 < Times(p, x) <==> 0.0 < x
  {
  }

  /** No way of trading the same units sells for more, or buys for less. */
  lemma UnitWalkIsBest(levels: seq<Level>, buying: bool, units: real, spend: seq<real>)
    requires ValidBook(levels) && SortedBook(levels, buying) && Allocation(levels, spend) && 0.0 <= units
    requires AtLeastAsGood(!buying, Units(levels, spend), units)
    ensures AtLeastAsGood(buying, UnitCost(levels, units), Sum(spend))
  {
    var total, cost := Sum(spend), UnitCost(levels, units);
    WalkIsBest(levels, buying, spend);
    UnitCostNonNegative(levels, units);
    WalksAgree(levels, total, units);
    WalksAgree(levels, cost, units);
    if !buying && cost < total { ProceedsNeedUnits(levels, cost, total); }
  }

  /** The walk is itself an allocation of the units it fills. */
  lemma {:induction false} UnitWalkIsAnAllocation(levels: seq<Level>, units: real) returns (spend: seq<real>)
    requires ValidBook(levels) && 0.0 <= units
    ensures Allocation(levels, spend)
    ensures Units(levels, spend) == UnitsFilled(levels, units) && Sum(spend) == UnitCost(levels, units)
  {
    if levels == [] {
      spend := [];
    } else {
      hide Worth, LevelUsd, UnitsFor;
      var take := Min(units, levels[0].quantity);
      var tail := UnitWalkIsAnAllocation(levels[1..], units - take);
      spend := [Worth(take, levels[0].price)] + tail;
      assert spend[1..] == tail;
      TakeOfLevel(levels[0], take);
      NothingForNoUnits(levels[1..]);
    }
  }

  lemma TakeOfLevel(level: Level, take: real)
    requires 0.0 < level.price && 0.0 <= take <= level.quantity
    ensures 0.0 <= Worth(take, level.price) <= LevelUsd(level)
    ensures UnitsFor(Worth(take, level.price), level.price) == take
  {
    MulMono(0.0, take, level.price);
    MulMono(take, level.quantity, level.price);
    DivMul(take, level.price);
  }

  lemma NothingForNoUnits(levels: seq<Level>)
    ensures UnitCost(levels, 0.0) == 0.0 && UnitsFilled(levels, 0.0) == 0.0
  {
  }

}
