/**
 Judging a candidate trade, picking one, and remembering rejections
 (app/execution/candidate_selection.py).
 */
module CandidateSelection {
  import opened RealMath
  import opened Fees
  import opened Sizing

  datatype Status =
    | ExecutableNow | InventoryMissing | BelowMinNotional | InsufficientBalance | InsufficientDepth | EdgeTooLow | Other

  datatype Classification = Classification(status: Status, quantity: real)

  datatype Side = Side(price: real, minQuantity: real, minNotional: real, step: real)

  /** `available` is USDT on the buy side and base units on the sell side. */
  datatype Candidate = Candidate(
    quoteExecutable: bool, netProfit: real, quoteQuantity: real, safetyMargin: real,
    buy: Side, sell: Side, buyAvailable: real, sellAvailable: real)

  function Common(c: Candidate): real {
    CommonQuantity(c.quoteQuantity, c.sellAvailable, c.buy.step, c.sell.step)
  }

  function Notional(quantity: real, price: real): real {
    quantity * price
  }

  function Classify(c: Candidate): Classification {
    if !c.quoteExecutable then Classification(InsufficientDepth, 0.0)
    else if c.netProfit <= c.safetyMargin then Classification(EdgeTooLow, 0.0)
    else if c.sellAvailable <= 0.0 then Classification(InventoryMissing, 0.0)
    else if c.quoteQuantity <= 0.0 then Classification(Other, 0.0)
    else
      var quantity := Common(c);
      if quantity <= 0.0 then Classification(InventoryMissing, 0.0)
      else if quantity < c.buy.minQuantity || quantity < c.sell.minQuantity then
        Classification(BelowMinNotional, quantity)
      else if
        || Notional(quantity, c.buy.price) < c.buy.minNotional
        || Notional(quantity, c.sell.price) < c.sell.minNotional
      then
        Classification(BelowMinNotional, quantity)
      else if c.buyAvailable < Notional(quantity, c.buy.price) then Classification(InsufficientBalance, quantity)
      else Classification(ExecutableNow, quantity)
  }

  /** What each exchange asks of an order of this size, and what the buy side can pay. */
  predicate Tradable(c: Candidate, quantity: real) {
    && 0.0 < quantity && c.buy.minQuantity <= quantity && c.sell.minQuantity <= quantity
    && c.buy.minNotional <= Notional(quantity, c.buy.price) && c.sell.minNotional <= Notional(quantity, c.sell.price)
    && Notional(quantity, c.buy.price) <= c.buyAvailable
  }

  /** A lot of the coarser step that both the quote and the holding cover, within tolerance. */
  ghost predicate CommonLotOf(c: Candidate, quantity: real) {
    var step := Max(c.buy.step, c.sell.step);
    && OnLot(quantity, step)
    && quantity <= Tolerated(c.quoteQuantity, step) && quantity <= Tolerated(c.sellAvailable, step)
  }

  /** An EXECUTABLE_NOW quantity is the greatest lot both legs support, and both exchanges take it. */
  lemma ExecutableNowIsSound(c: Candidate)
    requires Classify(c).status == ExecutableNow
    ensures var q := Classify(c).quantity;
            && c.quoteExecutable && c.safetyMargin < c.netProfit && Tradable(c, q)
            && CommonLotOf(c, q) && (forall m :: CommonLotOf(c, m) ==> m <= q)
            && (OnLot(Max(c.buy.step, c.sell.step), Min(c.buy.step, c.sell.step)) ==>
                  FitsBoth(q, c.buy.step, c.sell.step))
  {
    hide CommonQuantity, OnLot, Tolerated, Notional, FitsBoth;
    CommonQuantityIsGreatest(c.quoteQuantity, c.sellAvailable, c.buy.step, c.sell.step);
    if OnLot(Max(c.buy.step, c.sell.step), Min(c.buy.step, c.sell.step)) {
      CommonFits(c.quoteQuantity, c.sellAvailable, c.buy.step, c.sell.step);
    }
  }

  /** Nothing tradable is missed for want of size: a larger common lot fails only for want of buy-side USDT. */
  lemma NotExecutableMeans(c: Candidate, quantity: real)
    requires 0.0 <= c.buy.price && 0.0 <= c.sell.price
    requires c.quoteExecutable && c.safetyMargin < c.netProfit && 0.0 < c.sellAvailable && 0.0 < c.quoteQuantity
    requires CommonLotOf(c, quantity) && Tradable(c, quantity)
    ensures Classify(c).status == ExecutableNow || Classify(c).status == InsufficientBalance
  {
    hide CommonQuantity, OnLot, Tolerated, Notional;
    CommonQuantityIsGreatest(c.quoteQuantity, c.sellAvailable, c.buy.step, c.sell.step);
    NotionalMono(quantity, Common(c), c.buy.price);
    NotionalMono(quantity, Common(c), c.sell.price);
  }

  lemma NotionalMono(x: real, y: real, price: real)
    requires x <= y && 0.0 <= price
    ensures Notional(x, price) <= Notional(y, price)
  {
    MulMono(x, y, price);
  }

  /** Some positive lot of the coarser step fits both the quote and the holding. */
  ghost predicate SomeLotFits(c: Candidate) {
    exists m :: 0.0 < m && CommonLotOf(c, m)
  }

  lemma LotFitsIff(c: Candidate)
    requires 0.0 < c.quoteQuantity && 0.0 < c.sellAvailable
    ensures 0.0 < Common(c) <==> SomeLotFits(c)
  {
    hide OnLot, CommonQuantity, Tolerated;
    CommonQuantityIsGreatest(c.quoteQuantity, c.sellAvailable, c.buy.step, c.sell.step);
    assert CommonLotOf(c, Common(c));
  }

  /** The quote is executable and profitable beyond the margin, and some lot of it can be sold. */
  ghost predicate Sellable(c: Candidate) {
    && c.quoteExecutable && c.safetyMargin < c.netProfit
    && 0.0 < c.sellAvailable && 0.0 < c.quoteQuantity && SomeLotFits(c)
  }

  /** Both exchanges' minimum quantity and notional. */
  predicate MeetsMinimums(c: Candidate, quantity: real) {
    && c.buy.minQuantity <= quantity && c.sell.minQuantity <= quantity
    && c.buy.minNotional <= quantity * c.buy.price && c.sell.minNotional <= quantity * c.sell.price
  }

  /** Each status exactly: the first obstacle in the order the checks are made, or none. */
  lemma StatusMeans(c: Candidate)
    ensures var s, q := Classify(c).status, Classify(c).quantity;
            var priced := c.quoteExecutable && c.safetyMargin < c.netProfit;
            && (s == InsufficientDepth <==> !c.quoteExecutable)
            && (s == EdgeTooLow <==> c.quoteExecutable && c.netProfit <= c.safetyMargin)
            && (s == Other <==> priced && 0.0 < c.sellAvailable && c.quoteQuantity <= 0.0)
            && (s == InventoryMissing <==>
                  priced && (c.sellAvailable <= 0.0 || (0.0 < c.quoteQuantity && !SomeLotFits(c))))
            && (s == BelowMinNotional <==> Sellable(c) && !MeetsMinimums(c, Common(c)))
            && (s == InsufficientBalance <==>
                  Sellable(c) && MeetsMinimums(c, Common(c)) && c.buyAvailable < Common(c) * c.buy.price)
            && (s == ExecutableNow <==>
                  Sellable(c) && MeetsMinimums(c, Common(c)) && Common(c) * c.buy.price <= c.buyAvailable)
            && q == (if Sellable(c) then Common(c) else 0.0)
  {
    if 0.0 < c.sellAvailable && 0.0 < c.quoteQuantity { LotFitsIff(c); }
    hide Common, SomeLotFits;
  }

  predicate Selectable(c: Classification) {
    c.status == ExecutableNow || c.status == InventoryMissing
  }

  /** First selectable candidate in the caller's order. */
  method SelectBestCandidate(ranked: seq<Classification>) returns (best: Option<nat>)
    ensures best.None? <==> forall c <- ranked :: c.status != ExecutableNow && c.status != InventoryMissing
    ensures best.Some? ==> best.value < |ranked| && Selectable(ranked[best.value])
                           && forall j :: 0 <= j < best.value ==> !Selectable(ranked[j])
  {
    for i := 0 to |ranked|
      invariant forall j :: 0 <= j < i ==> !Selectable(ranked[j])
    {
      if Selectable(ranked[i]) {
        assert ranked[i] in ranked;
        return Some(i);
      }
    }
    return None;
  }

  // ----- The rejection cache.

  datatype Key = Key(symbol: string, direction: string, reason: string)

  datatype Entry<S> = Entry(signature: S, rejectedAt: real)

  datatype LogEvent<S> = Recorded(key: Key, entry: Entry<S>) | Cleared(symbol: string, direction: string)

  predicate Concerns<S>(e: LogEvent<S>, k: Key) {
    match e
    case Recorded(key, _) => key == k
    case Cleared(symbol, direction) => k.symbol == symbol && k.direction == direction
  }

  /** What the history says about a key: its last record, unless a clear came after. */
  function Latest<S>(log: seq<LogEvent<S>>, k: Key): Option<Entry<S>> {
    if log == [] then None
    else
      var e := log[|log| - 1];
      if !Concerns(e, k) then Latest(log[..|log| - 1], k)
      else if e.Recorded? then Some(e.entry) else None
  }

  /** Event `i` recorded the entry, and no later event concerns the key. */
  ghost predicate LastWord<S>(log: seq<LogEvent<S>>, k: Key, entry: Entry<S>, i: int) {
    && 0 <= i < |log| && log[i] == Recorded(k, entry)
    && forall j :: i < j < |log| ==> !Concerns(log[j], k)
  }

  lemma {:induction false} LatestHasAnIndex<S>(log: seq<LogEvent<S>>, k: Key) returns (i: int)
    requires Latest(log, k).Some?
    ensures LastWord(log, k, Latest(log, k).value, i)
  {
    var n := |log| - 1;
    if Concerns(log[n], k) {
      i := n;
    } else {
      i := LatestHasAnIndex(log[..n], k);
    }
  }

  lemma {:induction false} IndexIsLatest<S>(log: seq<LogEvent<S>>, k: Key, entry: Entry<S>, i: int)
    requires LastWord(log, k, entry, i)
    ensures Latest(log, k) == Some(entry)
  {
    var n := |log| - 1;
    if i < n {
      IndexIsLatest(log[..n], k, entry, i);
    }
  }

  /** `Latest` read off the history: the record that no later event of that key follows. */
  lemma LatestIsLastWord<S>(log: seq<LogEvent<S>>, k: Key, entry: Entry<S>)
    ensures Latest(log, k) == Some(entry) <==> exists i :: LastWord(log, k, entry, i)
  {
    if Latest(log, k) == Some(entry) {
      var i := LatestHasAnIndex(log, k);
    }
    if i :| LastWord(log, k, entry, i) {
      IndexIsLatest(log, k, entry, i);
    }
  }

  class CandidateRejectionCache<S(==)> {
    const ttlSeconds: real
    var entries: map<Key, Entry<S>>
    /** Everything recorded and cleared so far. */
    ghost var log: seq<LogEvent<S>>

    /** The dictionary answers for every key what the history says. */
    ghost predicate Valid()
      reads this
    {
      forall k: Key :: (if k in entries then Some(entries[k]) else None) == Latest(log, k)
    }

    constructor (ttlSeconds: real)
      ensures Valid() && log == [] && this.ttlSeconds == ttlSeconds
    {
      this.ttlSeconds := ttlSeconds;
      entries := map[];
      log := [];
    }

    /** Valid exactly when the last word on the key is an unexpired record with the same signature. */
    method IsStillValidRejection(k: Key, signature: S, now: real) returns (valid: bool)
      requires Valid()
      ensures valid <==>
                exists e :: Latest(log, k) == Some(e) && e.signature == signature && now - e.rejectedAt <= ttlSeconds
    {
      if k !in entries { return false; }
      assert Latest(log, k) == Some(entries[k]);
      if now - entries[k].rejectedAt > ttlSeconds { return false; }
      return entries[k].signature == signature;
    }

    method RecordRejection(k: Key, signature: S, now: real)
      requires Valid()
      modifies this
      ensures Valid() && log == old(log) + [Recorded(k, Entry(signature, now))]
    {
      entries := entries[k := Entry(signature, now)];
      log := log + [Recorded(k, Entry(signature, now))];
      assert log[..|log| - 1] == old(log);
    }

    /** Drops, one by one, every entry of the symbol and direction. */
    method Clear(symbol: string, direction: string)
      requires Valid()
      modifies this
      ensures Valid() && log == old(log) + [Cleared(symbol, direction)]
    {
      var doomed := set k | k in entries && k.symbol == symbol && k.direction == direction;
      while doomed != {}
        invariant log == old(log)
        invariant forall k :: k in entries ==> k in old(entries) && entries[k] == old(entries)[k]
        invariant forall k :: k in old(entries) && k !in entries ==> k.symbol == symbol && k.direction == direction
        invariant forall k :: k in doomed <==> k in entries && k.symbol == symbol && k.direction == direction
        decreases |doomed|
      {
        var k :| k in doomed;
        entries := map x | x in entries && x != k :: entries[x];
        doomed := doomed - {k};
      }
      log := log + [Cleared(symbol, direction)];
      assert log[..|log| - 1] == old(log);
    }
  }
}
