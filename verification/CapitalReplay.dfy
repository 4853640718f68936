/**
 The reserve check and the replay that exercises it
 (app/execution/capital_rebalancer.py). A replay walks a list of spending
 events over two exchanges, selling held inventory first when a spend would
 leave the exchange under its reserve floor.
 */
module CapitalReplay {
  import opened RealMath
  import opened Fees

  datatype Exchange = Binance | Bybit

  datatype Impact = Impact(wouldBreach: bool, postTrade: real, shortfall: real)

  function EvaluateReserveImpact(current: real, floor: real, notional: real): Impact {
    var post := current - notional;
    Impact(post < floor, post, Max(0.0, floor - post))
  }

  /** The shortfall is exactly what keeps the floor, or nothing; a breach is a positive one. */
  lemma ImpactMeans(current: real, floor: real, notional: real)
    ensures var i := EvaluateReserveImpact(current, floor, notional);
            && i.postTrade == current - notional && (i.wouldBreach <==> 0.0 < i.shortfall)
            && 0.0 <= i.shortfall && floor <= i.postTrade + i.shortfall
            && (0.0 < i.shortfall ==> floor == i.postTrade + i.shortfall)
  {
  }

  datatype Decision = Allow | DoNotTrade | RebalanceFirst | PreferOppositeDirection

  function Decide(current: real, floor: real, notional: real, oppositeProfitable: bool, reconvertible: real): Decision {
    var impact := EvaluateReserveImpact(current, floor, notional);
    if !impact.wouldBreach then Allow
    else if oppositeProfitable then PreferOppositeDirection
    else if reconvertible >= impact.shortfall > 0.0 then RebalanceFirst
    else DoNotTrade
  }

  /**
   What each decision means: allowed when the floor holds as it is, rebalanced
   when selling the inventory could restore it, skipped when not even that
   could; a profitable opposite trade comes first.
   */
  lemma DecisionMeans(current: real, floor: real, notional: real, opposite: bool, reconvertible: real)
    ensures var d := Decide(current, floor, notional, opposite, reconvertible);
            && (d == Allow <==> floor <= current - notional)
            && (d == PreferOppositeDirection <==> current - notional < floor && opposite)
            && (d == RebalanceFirst <==> current - notional < floor <= current + reconvertible - notional && !opposite)
            && (d == DoNotTrade <==>
                  current - notional < floor && current + reconvertible - notional < floor && !opposite)
  {
  }

  datatype Event = Event(
    asset: string, spendAt: Exchange, receiveAt: Option<Exchange>, spend: real, receive: real, price: real,
    quantityReceived: real, quantitySold: real)

  datatype Params = Params(floors: map<Exchange, real>, feeRate: real)
  {
    predicate Valid() {
      forall e: Exchange :: e in floors
    }
  }

  /** USDT per exchange and base inventory per exchange and asset; an absent asset counts as zero. */
  datatype State = State(usdt: map<Exchange, real>, base: map<(Exchange, string), real>)
  {
    predicate Valid() {
      forall e: Exchange :: e in usdt
    }

    function Held(e: Exchange, asset: string): real {
      if (e, asset) in base then base[(e, asset)] else 0.0
    }
  }

  lemma EveryExchange(m: map<Exchange, real>)
    requires Binance in m && Bybit in m
    ensures forall e: Exchange :: e in m
  {
    forall e: Exchange ensures e in m {
      match e case Binance => case Bybit =>
    }
  }

  function Start(binance: real, bybit: real): (s: State)
    ensures s.Valid()
  {
    EveryExchange(map[Binance := binance, Bybit := bybit]);
    State(map[Binance := binance, Bybit := bybit], map[])
  }

  // ----- One event.

  function ValueOf(quantity: real, price: real): real {
    quantity * price
  }

  /** USDT from selling `quantity`, less the taker fee. */
  function Proceeds(quantity: real, price: real, feeRate: real): real {
    quantity * price * (1.0 - feeRate)
  }

  function DecisionFor(p: Params, s: State, ev: Event): Decision
    requires p.Valid() && s.Valid()
  {
    Decide(s.usdt[ev.spendAt], p.floors[ev.spendAt], ev.spend, false, ValueOf(s.Held(ev.spendAt, ev.asset), ev.price))
  }

  function Shortfall(p: Params, s: State, ev: Event): real
    requires p.Valid() && s.Valid()
  {
    EvaluateReserveImpact(s.usdt[ev.spendAt], p.floors[ev.spendAt], ev.spend).shortfall
  }

  /** Units sold back before the spend. */
  function Reconverted(p: Params, s: State, ev: Event): real
    requires p.Valid() && s.Valid()
  {
    if DecisionFor(p, s, ev) == RebalanceFirst then
      Min(if ev.price != 0.0 then Shortfall(p, s, ev) / ev.price else 0.0, s.Held(ev.spendAt, ev.asset))
    else 0.0
  }

  predicate Executed(p: Params, s: State, ev: Event)
    requires p.Valid() && s.Valid()
  {
    DecisionFor(p, s, ev) != DoNotTrade
  }

  function Rebalance(p: Params, s: State, ev: Event): (r: State)
    requires p.Valid() && s.Valid()
    ensures r.Valid()
  {
    if DecisionFor(p, s, ev) != RebalanceFirst then s
    else
      var sold := Reconverted(p, s, ev);
      s.(usdt := s.usdt[ev.spendAt := s.usdt[ev.spendAt] + Proceeds(sold, ev.price, p.feeRate)],
         base := s.base[(ev.spendAt, ev.asset) := s.Held(ev.spendAt, ev.asset) - sold])
  }

  function Spend(s: State, ev: Event): (r: State)
    requires s.Valid()
    ensures r.Valid()
  {
    s.(usdt := s.usdt[ev.spendAt := s.usdt[ev.spendAt] - ev.spend],
       base := s.base[(ev.spendAt, ev.asset) := s.Held(ev.spendAt, ev.asset) + ev.quantityReceived])
  }

  function Receive(s: State, ev: Event): (r: State)
    requires s.Valid()
    ensures r.Valid()
  {
    match ev.receiveAt
    case None => s
    case Some(e) =>
      s.(usdt := s.usdt[e := s.usdt[e] + ev.receive],
         base := s.base[(e, ev.asset) := s.Held(e, ev.asset) - ev.quantitySold])
  }

  function Step(p: Params, s: State, ev: Event): (r: State)
    requires p.Valid() && s.Valid()
    ensures r.Valid()
  {
    if Executed(p, s, ev) then Receive(Spend(Rebalance(p, s, ev), ev), ev) else s
  }

  /** What the event pays into exchange `e`. */
  function CreditAt(ev: Event, e: Exchange): real {
    if ev.receiveAt == Some(e) then ev.receive else 0.0
  }

  // ----- Whole runs.

  function Run(p: Params, s: State, events: seq<Event>): (r: State)
    requires p.Valid() && s.Valid()
    ensures r.Valid()
    decreases |events|
  {
    if events == [] then s else Step(p, Run(p, s, events[..|events| - 1]), events[|events| - 1])
  }

  function Before(p: Params, s: State, events: seq<Event>): State
    requires p.Valid() && s.Valid() && events != []
  {
    Run(p, s, events[..|events| - 1])
  }

  datatype StepResult = StepResult(event: Event, decision: Decision, binanceAfter: real, bybitAfter: real)

  datatype ReplayResult = ReplayResult(
    steps: seq<StepResult>, minBinance: real, minBybit: real, endBinance: real, endBybit: real, interventions: nat)

  function StepOf(p: Params, s: State, ev: Event): StepResult
    requires p.Valid() && s.Valid()
  {
    var after := Step(p, s, ev);
    StepResult(ev, DecisionFor(p, s, ev), after.usdt[Binance], after.usdt[Bybit])
  }

  function Trace(p: Params, s: State, events: seq<Event>): (steps: seq<StepResult>)
    requires p.Valid() && s.Valid()
    ensures |steps| == |events|
    decreases |events|
  {
    if events == [] then []
    else Trace(p, s, events[..|events| - 1]) + [StepOf(p, Before(p, s, events), events[|events| - 1])]
  }

  function Lowest(p: Params, s: State, events: seq<Event>, e: Exchange): real
    requires p.Valid() && s.Valid()
    decreases |events|
  {
    if events == [] then s.usdt[e]
    else Min(Lowest(p, s, events[..|events| - 1], e), Run(p, s, events).usdt[e])
  }

  function Interventions(steps: seq<StepResult>): nat {
    if steps == [] then 0
    else Interventions(steps[..|steps| - 1]) + if steps[|steps| - 1].decision != Allow then 1 else 0
  }

  function Replay(p: Params, s: State, events: seq<Event>): ReplayResult
    requires p.Valid() && s.Valid()
  {
    var end, steps := Run(p, s, events), Trace(p, s, events);
    ReplayResult(steps, Lowest(p, s, events, Binance), Lowest(p, s, events, Bybit),
                 end.usdt[Binance], end.usdt[Bybit], Interventions(steps))
  }

  /** The replay loop, with its two dictionaries, reports the run. */
  method SimulateEventSequence(events: seq<Event>, startBinance: real, startBybit: real, p: Params)
    returns (r: ReplayResult)
    requires p.Valid()
    ensures r == Replay(p, Start(startBinance, startBybit), events)
    ensures Reports(p, Start(startBinance, startBybit), events, r)
  {
    hide Step, DecisionFor, Run, Trace, Lowest, Interventions, Start;
    ghost var start := Start(startBinance, startBybit);
    var usdt := map[Binance := startBinance, Bybit := startBybit];
    var base: map<(Exchange, string), real> := map[];
    var steps := [];
    var minBinance, minBybit := startBinance, startBybit;
    var interventions := 0;
    StartIs(startBinance, startBybit);
    NothingReplayed(p, start);
    for i := 0 to |events|
      invariant State(usdt, base).Valid() && State(usdt, base) == Run(p, start, events[..i])
      invariant steps == Trace(p, start, events[..i])
      invariant minBinance == Lowest(p, start, events[..i], Binance)
      invariant minBybit == Lowest(p, start, events[..i], Bybit)
      invariant interventions == Interventions(steps)
    {
      assert events[..i + 1] == events[..i] + [events[i]];
      OneMoreReplayed(p, start, events[..i], events[i]);
      var decision;
      usdt, base, decision := ReplayEvent(p, usdt, base, events[i]);
      if decision != Allow {
        interventions := interventions + 1;
      }
      OneMoreIntervention(steps, StepResult(events[i], decision, usdt[Binance], usdt[Bybit]));
      steps := steps + [StepResult(events[i], decision, usdt[Binance], usdt[Bybit])];
      minBinance := Min(minBinance, usdt[Binance]);
      minBybit := Min(minBybit, usdt[Bybit]);
    }
    assert events[..|events|] == events;
    r := ReplayResult(steps, minBinance, minBybit, usdt[Binance], usdt[Bybit], interventions);
    ReplayReports(p, start, events);
  }

  lemma StartIs(binance: real, bybit: real)
    ensures Start(binance, bybit) == State(map[Binance := binance, Bybit := bybit], map[])
  {
  }

  lemma NothingReplayed(p: Params, s: State)
    requires p.Valid() && s.Valid()
    ensures Run(p, s, []) == s && Trace(p, s, []) == [] && Interventions([]) == 0
    ensures forall e :: Lowest(p, s, [], e) == s.usdt[e]
  {
  }

  lemma RunOneMore(p: Params, s: State, events: seq<Event>, ev: Event)
    requires p.Valid() && s.Valid()
    ensures Run(p, s, events + [ev]) == Step(p, Run(p, s, events), ev)
  {
    hide Step;
    var all := events + [ev];
    assert all != [] && all[..|all| - 1] == events && all[|all| - 1] == ev;
  }

  /** One iteration of the replay against the specification. */
  lemma OneMoreReplayed(p: Params, s: State, events: seq<Event>, ev: Event)
    requires p.Valid() && s.Valid()
    ensures var before, all := Run(p, s, events), events + [ev];
            && Run(p, s, all) == Step(p, before, ev)
            && Trace(p, s, all) == Trace(p, s, events) + [StepOf(p, before, ev)]
            && (forall e :: Lowest(p, s, all, e) == Min(Lowest(p, s, events, e), Step(p, before, ev).usdt[e]))
  {
    hide Step, StepOf;
    var all := events + [ev];
    assert all != [] && all[..|all| - 1] == events && all[|all| - 1] == ev;
  }

  lemma OneMoreIntervention(steps: seq<StepResult>, last: StepResult)
    ensures Interventions(steps + [last]) == Interventions(steps) + if last.decision != Allow then 1 else 0
  {
    var all := steps + [last];
    assert all != [] && all[..|all| - 1] == steps && all[|all| - 1] == last;
  }

  /** The loop body: decide, sell back if needed, spend, receive. */
  method ReplayEvent(p: Params, usdt: map<Exchange, real>, base: map<(Exchange, string), real>, ev: Event)
    returns (usdt': map<Exchange, real>, base': map<(Exchange, string), real>, decision: Decision)
    requires p.Valid() && State(usdt, base).Valid()
    ensures decision == DecisionFor(p, State(usdt, base), ev)
    ensures State(usdt', base') == Step(p, State(usdt, base), ev)
  {
    usdt', base' := usdt, base;
    var at := (ev.spendAt, ev.asset);
    var held := if at in base then base[at] else 0.0;
    decision := Decide(usdt[ev.spendAt], p.floors[ev.spendAt], ev.spend, false, ValueOf(held, ev.price));
    if decision == DoNotTrade { return; }

    if decision == RebalanceFirst {
      var shortfall := EvaluateReserveImpact(usdt[ev.spendAt], p.floors[ev.spendAt], ev.spend).shortfall;
      var sold := Min(if ev.price != 0.0 then shortfall / ev.price else 0.0, held);
      base' := base'[at := held - sold];
      usdt' := usdt'[ev.spendAt := usdt'[ev.spendAt] + Proceeds(sold, ev.price, p.feeRate)];
    }
    assert State(usdt', base') == Rebalance(p, State(usdt, base), ev);
    hide Decide, EvaluateReserveImpact, Rebalance, Proceeds, ValueOf;

    usdt' := usdt'[ev.spendAt := usdt'[ev.spendAt] - ev.spend];
    base' := base'[at := (if at in base' then base'[at] else 0.0) + ev.quantityReceived];
    if ev.receiveAt.Some? {
      var to := (ev.receiveAt.value, ev.asset);
      base' := base'[to := (if to in base' then base'[to] else 0.0) - ev.quantitySold];
      usdt' := usdt'[to.0 := usdt'[to.0] + ev.receive];
    }
  }

  lemma {:induction false} LowestIsTheMinimum(p: Params, s: State, events: seq<Event>, e: Exchange)
    requires p.Valid() && s.Valid()
    ensures forall k :: 0 <= k <= |events| ==> Lowest(p, s, events, e) <= Run(p, s, events[..k]).usdt[e]
    ensures exists k :: 0 <= k <= |events| && Lowest(p, s, events, e) == Run(p, s, events[..k]).usdt[e]
    decreases |events|
  {
    hide Step;
    assert events[..|events|] == events;
    if events != [] {
      var prefix := events[..|events| - 1];
      LowestIsTheMinimum(p, s, prefix, e);
      assert forall k :: 0 <= k <= |prefix| ==> prefix[..k] == events[..k];
    } else {
      assert Lowest(p, s, events, e) == Run(p, s, events[..0]).usdt[e];
    }
  }

  // ----- What a replay reports, read off the run.

  /** `low` is the least balance of `e` over the run, its start included. */
  ghost predicate IsMinimum(p: Params, s: State, events: seq<Event>, e: Exchange, low: real)
    requires p.Valid() && s.Valid()
  {
    && (forall k :: 0 <= k <= |events| ==> low <= Run(p, s, events[..k]).usdt[e])
    && exists k :: 0 <= k <= |events| && low == Run(p, s, events[..k]).usdt[e]
  }

  /** How far the spend would leave its exchange under the floor. */
  function Gap(p: Params, s: State, ev: Event): real
    requires p.Valid() && s.Valid()
  {
    p.floors[ev.spendAt] - (s.usdt[ev.spendAt] - ev.spend)
  }

  /** Allowed when the floor is kept, rebalanced when the stock is worth the gap, skipped when it is not. */
  predicate DecidedOn(p: Params, s: State, ev: Event, d: Decision)
    requires p.Valid() && s.Valid()
  {
    var worth := s.Held(ev.spendAt, ev.asset) * ev.price;
    d == if Gap(p, s, ev) <= 0.0 then Allow else if Gap(p, s, ev) <= worth then RebalanceFirst else DoNotTrade
  }

  /** Step `k` shows event `k`, the decision on the state before it and both balances after it. */
  ghost predicate StepReports(p: Params, s: State, events: seq<Event>, steps: seq<StepResult>, k: nat)
    requires p.Valid() && s.Valid() && k < |events| == |steps|
  {
    var after := Run(p, s, events[..k + 1]);
    && steps[k].event == events[k] && DecidedOn(p, Run(p, s, events[..k]), events[k], steps[k].decision)
    && steps[k].binanceAfter == after.usdt[Binance] && steps[k].bybitAfter == after.usdt[Bybit]
  }

  /** Events whose spend the floor does not plainly allow. */
  ghost function Tight(p: Params, s: State, events: seq<Event>): set<int>
    requires p.Valid() && s.Valid()
  {
    set k | 0 <= k < |events| && 0.0 < Gap(p, Run(p, s, events[..k]), events[k])
  }

  ghost predicate Reports(p: Params, s: State, events: seq<Event>, r: ReplayResult)
    requires p.Valid() && s.Valid()
  {
    var end := Run(p, s, events);
    && IsMinimum(p, s, events, Binance, r.minBinance) && IsMinimum(p, s, events, Bybit, r.minBybit)
    && r.endBinance == end.usdt[Binance] && r.endBybit == end.usdt[Bybit]
    && |r.steps| == |events| && (forall k: nat | k < |events| :: StepReports(p, s, events, r.steps, k))
    && r.interventions == |Tight(p, s, events)|
  }

  lemma {:induction false} TraceAt(p: Params, s: State, events: seq<Event>, k: nat)
    requires p.Valid() && s.Valid() && k < |events|
    ensures Trace(p, s, events)[k] == StepOf(p, Run(p, s, events[..k]), events[k])
    ensures Run(p, s, events[..k + 1]) == Step(p, Run(p, s, events[..k]), events[k])
  {
    hide Step, StepOf;
    var n := |events| - 1;
    assert events[..n + 1] == events;
    if k < n {
      TraceAt(p, s, events[..n], k);
      assert events[..n][..k] == events[..k] && events[..n][..k + 1] == events[..k + 1];
    }
  }

  lemma DecisionIsDecided(p: Params, s: State, ev: Event)
    requires p.Valid() && s.Valid()
    ensures DecidedOn(p, s, ev, DecisionFor(p, s, ev))
  {
  }

  lemma ReplayReports(p: Params, s: State, events: seq<Event>)
    requires p.Valid() && s.Valid()
    ensures Reports(p, s, events, Replay(p, s, events))
  {
    hide Run, Lowest, Trace, Interventions, DecisionFor, DecidedOn, Step;
    LowestIsTheMinimum(p, s, events, Binance);
    LowestIsTheMinimum(p, s, events, Bybit);
    var steps := Trace(p, s, events);
    forall k: nat | k < |events|
      ensures StepReports(p, s, events, steps, k)
      ensures steps[k].decision != Allow <==> 0.0 < Gap(p, Run(p, s, events[..k]), events[k])
    {
      TraceAt(p, s, events, k);
      DecisionIsDecided(p, Run(p, s, events[..k]), events[k]);
      AllowedIff(p, Run(p, s, events[..k]), events[k], steps[k].decision);
    }
    InterventionsAreTheNonAllowed(steps);
    assert Intervened(steps) == Tight(p, s, events);
  }

  lemma AllowedIff(p: Params, s: State, ev: Event, d: Decision)
    requires p.Valid() && s.Valid() && DecidedOn(p, s, ev, d)
    ensures d != Allow <==> 0.0 < Gap(p, s, ev)
  {
  }

  /** Indices of the steps that were not plainly allowed. */
  ghost function Intervened(steps: seq<StepResult>): set<int> {
    set k | 0 <= k < |steps| && steps[k].decision != Allow
  }

  lemma {:induction false} InterventionsAreTheNonAllowed(steps: seq<StepResult>)
    ensures Interventions(steps) == |Intervened(steps)|
  {
    if steps != [] {
      var n := |steps| - 1;
      InterventionsAreTheNonAllowed(steps[..n]);
      assert forall k :: 0 <= k < n ==> steps[..n][k] == steps[k];
      assert n !in Intervened(steps[..n]);
      assert Intervened(steps) == Intervened(steps[..n]) + (if steps[n].decision != Allow then {n} else {});
    }
  }

  // ----- What one event does to the balances.

  /** A rebalance sells exactly the shortfall's worth, never more than is held. */
  lemma RebalanceSellsTheShortfall(p: Params, s: State, ev: Event)
    requires p.Valid() && s.Valid() && 0.0 <= ev.price && DecisionFor(p, s, ev) == RebalanceFirst
    ensures 0.0 < Reconverted(p, s, ev) <= s.Held(ev.spendAt, ev.asset)
    ensures ValueOf(Reconverted(p, s, ev), ev.price) == Shortfall(p, s, ev)
    ensures Proceeds(Reconverted(p, s, ev), ev.price, p.feeRate) == Kept(Shortfall(p, s, ev), p.feeRate)
  {
    var held, gap := s.Held(ev.spendAt, ev.asset), Shortfall(p, s, ev);
    assert ev.price != 0.0;
    DivMul(gap, ev.price);
    DivSign(gap, ev.price);
    QuotientBound(gap, ev.price, held);
  }

  /** `usd` less the fee. */
  function Kept(usd: real, feeRate: real): real {
    usd * (1.0 - feeRate)
  }

  /** Balances after one event, on both exchanges. */
  lemma CashAfter(p: Params, s: State, ev: Event, e: Exchange)
    requires p.Valid() && s.Valid() && 0.0 <= ev.price
    ensures Step(p, s, ev).usdt[e] ==
              if !Executed(p, s, ev) then s.usdt[e]
              else s.usdt[e] + CreditAt(ev, e)
                   + (if e != ev.spendAt then 0.0
                      else (if DecisionFor(p, s, ev) == RebalanceFirst
                            then Kept(Shortfall(p, s, ev), p.feeRate) else 0.0) - ev.spend)
    ensures Executed(p, s, ev) ==>
              if DecisionFor(p, s, ev) == RebalanceFirst
              then 0.0 < Shortfall(p, s, ev) == p.floors[ev.spendAt] - s.usdt[ev.spendAt] + ev.spend
              else p.floors[ev.spendAt] <= s.usdt[ev.spendAt] - ev.spend
  {
    hide Proceeds, ValueOf, Kept;
    if DecisionFor(p, s, ev) == RebalanceFirst {
      RebalanceSellsTheShortfall(p, s, ev);
    }
  }

  /** Fee lost on reconverting `usd`. */
  function FeeOn(usd: real, feeRate: real): real {
    usd * feeRate
  }

  lemma KeptIsRest(usd: real, feeRate: real)
    ensures Kept(usd, feeRate) == usd - FeeOn(usd, feeRate)
  {
  }

  /**
   "Never breach the floor" holds for an event exactly when it is not a
   rebalance, or its own credit covers the fee that reconverting the shortfall
   costs.
   */
  lemma FloorKeptIff(p: Params, s: State, ev: Event)
    requires p.Valid() && s.Valid() && 0.0 <= ev.price && 0.0 <= ev.receive
    requires p.floors[ev.spendAt] <= s.usdt[ev.spendAt]
    ensures p.floors[ev.spendAt] <= Step(p, s, ev).usdt[ev.spendAt] <==>
              DecisionFor(p, s, ev) != RebalanceFirst
              || FeeOn(Shortfall(p, s, ev), p.feeRate) <= CreditAt(ev, ev.spendAt)
  {
    hide Step, DecisionFor, FeeOn, Kept, Shortfall;
    CashAfter(p, s, ev, ev.spendAt);
    KeptIsRest(Shortfall(p, s, ev), p.feeRate);
  }

  /** Starting at the floor, a spend of ten that sells ten of stock first ends a cent under it. */
  lemma FloorBreachExample(p: Params, s: State, ev: Event)
    requires p.Valid() && p.floors[Binance] == 100.0 && p.feeRate == 0.001
    requires s.Valid() && s.usdt[Binance] == 100.0 && s.Held(Binance, "RVN") == 50.0
    requires ev == Event("RVN", Binance, None, 10.0, 0.0, 1.0, 10.0, 0.0)
    ensures DecisionFor(p, s, ev) == RebalanceFirst && Step(p, s, ev).usdt[Binance] == 99.99
  {
    CashAfter(p, s, ev, Binance);
  }

  // ----- The drift bound over whole runs.

  /** Where repeated rebalances settle below the floor: f*N + f^2*N + f^3*N + ... */
  function DriftLimit(feeRate: real, spend: real): real
    requires feeRate < 1.0
  {
    feeRate * spend / (1.0 - feeRate)
  }

  predicate Ordinary(ev: Event, maxSpend: real) {
    0.0 <= ev.spend <= maxSpend && 0.0 <= ev.receive && 0.0 <= ev.price
  }

  lemma FeeOnSum(x: real, y: real, f: real)
    ensures FeeOn(x + y, f) == FeeOn(x, f) + FeeOn(y, f) && FeeOn(x - y, f) == FeeOn(x, f) - FeeOn(y, f)
  {
  }

  /** The limit is where a rebalanced spend loses exactly what it started with. */
  lemma DriftLimitIsFixed(f: real, n: real)
    requires 0.0 <= f < 1.0 && 0.0 <= n
    ensures FeeOn(DriftLimit(f, n) + n, f) == DriftLimit(f, n) && 0.0 <= DriftLimit(f, n)
  {
    var d := DriftLimit(f, n);
    MulMono(0.0, n, f);
    DivSign(f * n, 1.0 - f);
    hide DriftLimit, Times;
    assert Times(d, 1.0 - f) == FeeOn(n, f) by { DriftLimitTimes(f, n); }
    TimesSum(d, 1.0, f);
    TimesZero(d);
    FeeOnSum(d, n, f);
    assert FeeOn(d, f) == Times(d, f) by { FeeOnTimes(d, f); }
  }

  lemma FeeOnTimes(usd: real, f: real)
    ensures FeeOn(usd, f) == Times(usd, f)
  {
  }

  lemma DriftLimitTimes(f: real, n: real)
    requires f < 1.0
    ensures Times(DriftLimit(f, n), 1.0 - f) == FeeOn(n, f)
  {
    DivMul(f * n, 1.0 - f);
  }

  /** A fee below one takes no more than there is. */
  lemma FeeOnPart(usd: real, f: real)
    requires 0.0 <= usd && 0.0 <= f <= 1.0
    ensures 0.0 <= FeeOn(usd, f) <= usd
  {
    FeeOnTimes(usd, f);
    hide Times, FeeOn;
    TimesMono(0.0, usd, f);
    TimesMono(f, 1.0, usd);
    TimesZero(f);
    TimesZero(usd);
  }

  lemma DriftLimitAlgebra(f: real, n: real, gap: real)
    requires 0.0 <= f < 1.0 && 0.0 <= n && DriftLimit(f, n) <= gap
    ensures 0.0 <= DriftLimit(f, n) && FeeOn(gap + n, f) <= gap
  {
    hide DriftLimit, FeeOn;
    var d := DriftLimit(f, n);
    DriftLimitIsFixed(f, n);
    FeeOnSum(d + n, gap - d, f);
    FeeOnPart(gap - d, f);
    assert gap + n == (d + n) + (gap - d);
  }

  lemma FeeOnMono(x: real, y: real, f: real)
    requires x <= y && 0.0 <= f
    ensures FeeOn(x, f) <= FeeOn(y, f)
  {
    MulMono(x, y, f);
  }

  /** No event takes an exchange below `low` once `low` is the drift limit under the floor or lower. */
  lemma StepStaysAbove(p: Params, s: State, ev: Event, e: Exchange, maxSpend: real, low: real)
    requires p.Valid() && s.Valid() && 0.0 <= p.feeRate < 1.0 && 0.0 <= maxSpend && Ordinary(ev, maxSpend)
    requires low <= s.usdt[e] && low <= p.floors[e] - DriftLimit(p.feeRate, maxSpend)
    ensures low <= Step(p, s, ev).usdt[e]
  {
    hide Step, DecisionFor, FeeOn, Kept, Shortfall, DriftLimit;
    CashAfter(p, s, ev, e);
    var gap := p.floors[e] - low;
    DriftLimitAlgebra(p.feeRate, maxSpend, gap);
    if e == ev.spendAt && DecisionFor(p, s, ev) == RebalanceFirst {
      KeptIsRest(Shortfall(p, s, ev), p.feeRate);
      FeeOnMono(Shortfall(p, s, ev), gap + maxSpend, p.feeRate);
    }
  }

  /** Over any run, no balance falls below the lower of its start and the drift limit under its floor. */
  lemma {:induction false} NeverBelowDriftLimit(p: Params, s: State, events: seq<Event>, e: Exchange, maxSpend: real)
    requires p.Valid() && s.Valid() && 0.0 <= p.feeRate < 1.0 && 0.0 <= maxSpend
    requires forall ev <- events :: Ordinary(ev, maxSpend)
    ensures Min(s.usdt[e], p.floors[e] - DriftLimit(p.feeRate, maxSpend)) <= Lowest(p, s, events, e)
    ensures Min(s.usdt[e], p.floors[e] - DriftLimit(p.feeRate, maxSpend)) <= Run(p, s, events).usdt[e]
    decreases |events|
  {
    hide Step, DriftLimit;
    if events != [] {
      var prefix, ev := events[..|events| - 1], events[|events| - 1];
      assert ev in events && forall x <- prefix :: x in events;
      NeverBelowDriftLimit(p, s, prefix, e, maxSpend);
      var low := Min(s.usdt[e], p.floors[e] - DriftLimit(p.feeRate, maxSpend));
      StepStaysAbove(p, Run(p, s, prefix), ev, e, maxSpend, low);
    }
  }

  // ----- The bound is the best possible.

  function Pow(f: real, k: nat): real {
    if k == 0 then 1.0 else f * Pow(f, k - 1)
  }

  /** Distance below the floor after `k` rebalanced spends of `n` from the floor. */
  function Drift(f: real, n: real, k: nat): real {
    if k == 0 then 0.0 else FeeOn(Drift(f, n, k - 1) + n, f)
  }

  /** Distance from the limit left after `k` rebalanced spends. */
  function DriftLeft(f: real, n: real, k: nat): real
    requires f < 1.0
  {
    Pow(f, k) * DriftLimit(f, n)
  }

  /** Each rebalanced spend closes the remaining distance to the limit by the factor f. */
  lemma {:induction false} DriftApproachesLimit(f: real, n: real, k: nat)
    requires 0.0 <= f < 1.0 && 0.0 <= n
    ensures DriftLimit(f, n) - Drift(f, n, k) == DriftLeft(f, n, k)
    ensures 0.0 <= Drift(f, n, k) <= DriftLimit(f, n)
  {
    DriftLimitAlgebra(f, n, DriftLimit(f, n));
    if k > 0 {
      hide DriftLimit, FeeOn, DriftLeft, Pow;
      DriftApproachesLimit(f, n, k - 1);
      DriftStep(f, n, Drift(f, n, k - 1));
      LeftShrinks(f, n, k);
    }
  }

  lemma DriftStep(f: real, n: real, drift: real)
    requires 0.0 <= f < 1.0 && 0.0 <= n && 0.0 <= drift <= DriftLimit(f, n)
    ensures DriftLimit(f, n) - FeeOn(drift + n, f) == FeeOn(DriftLimit(f, n) - drift, f)
    ensures 0.0 <= FeeOn(drift + n, f) <= DriftLimit(f, n)
  {
    hide DriftLimit, FeeOn;
    var d := DriftLimit(f, n);
    DriftLimitIsFixed(f, n);
    FeeOnSum(d + n, d - drift, f);
    FeeOnPart(d - drift, f);
    FeeOnPart(drift + n, f);
    assert drift + n == (d + n) - (d - drift);
  }

  lemma LeftShrinks(f: real, n: real, k: nat)
    requires f < 1.0 && 0 < k
    ensures DriftLeft(f, n, k) == FeeOn(DriftLeft(f, n, k - 1), f)
  {
    hide DriftLimit;
    assert f * Pow(f, k - 1) * DriftLimit(f, n) == (Pow(f, k - 1) * DriftLimit(f, n)) * f;
  }

  /** Spend `n`, receive inventory worth at least any later shortfall, credit nobody. */
  function Drain(n: real, stock: real): Event {
    Event("RVN", Binance, None, n, 0.0, 1.0, stock, 0.0)
  }

  /** A free delivery of inventory, then `k` drains. */
  function DrainRun(n: real, stock: real, k: nat): (events: seq<Event>)
    ensures |events| == k + 1
  {
    if k == 0 then [Drain(0.0, stock)] else DrainRun(n, stock, k - 1) + [Drain(n, stock)]
  }

  /** From the floor, `k` drains end exactly `Drift(f, n, k)` below it. */
  lemma {:induction false} DrainReachesDrift(p: Params, other: real, n: real, stock: real, k: nat)
    requires p.Valid() && 0.0 <= p.feeRate < 1.0 && 0.0 < n && stock == DriftLimit(p.feeRate, n) + n
    ensures var end := Run(p, Start(p.floors[Binance], other), DrainRun(n, stock, k));
            end.usdt[Binance] == p.floors[Binance] - Drift(p.feeRate, n, k) && stock <= end.Held(Binance, "RVN")
  {
    hide Step, Run, DriftLimit, DriftLeft, Pow, FeeOn, Start, Drain, State.Held;
    if k == 0 {
      FirstDelivery(p, other, n, stock);
    } else {
      DrainReachesDrift(p, other, n, stock, k - 1);
      DriftApproachesLimit(p.feeRate, n, k - 1);
      var before := Run(p, Start(p.floors[Binance], other), DrainRun(n, stock, k - 1));
      RunOneMore(p, Start(p.floors[Binance], other), DrainRun(n, stock, k - 1), Drain(n, stock));
      hide Drift, DrainRun;
      DrainStep(p, before, n, stock, Drift(p.feeRate, n, k - 1));
      DriftUnfolds(p.feeRate, n, k);
      DrainRunUnfolds(n, stock, k);
    }
  }

  lemma DriftUnfolds(f: real, n: real, k: nat)
    requires 0 < k
    ensures Drift(f, n, k) == FeeOn(Drift(f, n, k - 1) + n, f)
  {
  }

  lemma DrainRunUnfolds(n: real, stock: real, k: nat)
    requires 0 < k
    ensures DrainRun(n, stock, k) == DrainRun(n, stock, k - 1) + [Drain(n, stock)]
  {
  }

  lemma FirstDelivery(p: Params, other: real, n: real, stock: real)
    requires p.Valid() && 0.0 <= p.feeRate < 1.0
    ensures var end := Run(p, Start(p.floors[Binance], other), DrainRun(n, stock, 0));
            end.usdt[Binance] == p.floors[Binance] && end.Held(Binance, "RVN") == stock
  {
    var s, events := Start(p.floors[Binance], other), DrainRun(n, stock, 0);
    assert events[..0] == [];
    assert Run(p, s, events) == Step(p, s, Drain(0.0, stock));
  }

  lemma {:induction false} DrainsAreOrdinary(n: real, stock: real, k: nat)
    requires 0.0 <= n
    ensures forall ev <- DrainRun(n, stock, k) :: Ordinary(ev, n)
  {
    if k > 0 { DrainsAreOrdinary(n, stock, k - 1); }
  }

  lemma DrainStep(p: Params, s: State, n: real, stock: real, drift: real)
    requires p.Valid() && s.Valid() && 0.0 <= p.feeRate < 1.0 && 0.0 < n && stock == DriftLimit(p.feeRate, n) + n
    requires s.usdt[Binance] == p.floors[Binance] - drift && 0.0 <= drift <= DriftLimit(p.feeRate, n)
    requires stock <= s.Held(Binance, "RVN")
    ensures Step(p, s, Drain(n, stock)).usdt[Binance] == p.floors[Binance] - FeeOn(drift + n, p.feeRate)
    ensures stock <= Step(p, s, Drain(n, stock)).Held(Binance, "RVN")
  {
    hide DriftLimit, FeeOn, Kept, Proceeds;
    var ev := Drain(n, stock);
    assert ValueOf(s.Held(Binance, "RVN"), 1.0) == s.Held(Binance, "RVN");
    assert DecisionFor(p, s, ev) == RebalanceFirst;
    RebalanceSellsTheShortfall(p, s, ev);
    CashAfter(p, s, ev, Binance);
    KeptIsRest(drift + n, p.feeRate);
  }

  lemma {:induction false} BernoulliBound(f: real, k: nat)
    requires 0.0 < f < 1.0
    ensures 0.0 <= Pow(f, k) <= 1.0
    ensures Pow(f, k) * (1.0 + k as real * ((1.0 - f) / f)) <= 1.0
  {
    if k > 0 {
      BernoulliBound(f, k - 1);
      BernoulliStep(f, (1.0 - f) / f, Pow(f, k - 1), (k - 1) as real);
    }
  }

  lemma BernoulliStep(f: real, c: real, a: real, j: real)
    requires 0.0 < f < 1.0 && c == (1.0 - f) / f && 0.0 <= a <= 1.0 && a * (1.0 + j * c) <= 1.0
    ensures 0.0 <= f * a <= 1.0 && f * a * (1.0 + (j + 1.0) * c) <= 1.0
  {
    DivMul(1.0 - f, f);
    DivSign(1.0 - f, f);
    MulMono(a * (1.0 + j * c), 1.0, f);
    MulMono(a, 1.0, f);
    MulMono(a, 1.0, f * c);
    assert f * a * (1.0 + (j + 1.0) * c) == f * (a * (1.0 + j * c)) + (f * c) * a;
  }

  /** Powers of f get as small as desired. */
  lemma PowVanishes(f: real, eps: real) returns (k: nat)
    requires 0.0 < f < 1.0 && 0.0 < eps
    ensures Pow(f, k) < eps
  {
    var c := (1.0 - f) / f;
    DivSign(1.0 - f, f);
    var need := 1.0 / (eps * c);
    MulStrict(0.0, eps, c);
    DivSign(1.0, eps * c);
    k := need.Floor + 1;
    BernoulliBound(f, k);
    if eps <= Pow(f, k) {
      DivMul(1.0, eps * c);
      SmallAlgebra(Pow(f, k), eps, c, k as real, need);
    }
  }

  lemma SmallAlgebra(a: real, eps: real, c: real, k: real, need: real)
    requires 0.0 < eps <= a && 0.0 < c && 0.0 < need < k && need * (eps * c) == 1.0
    ensures 1.0 < a * (1.0 + k * c)
  {
    MulStrict(0.0, eps, c);
    DivSign(1.0, eps * c);
    QuotientBound(1.0, eps * c, need);
    MulStrict(need, k, eps * c);
    MulMono(eps, a, c);
    MulMono(eps * c, a * c, k);
    assert a * (1.0 + k * c) == a + (a * c) * k;
  }

  /** Any level above the drift limit is undercut by some run of ordinary events that starts at the floor. */
  lemma DriftLimitIsSharp(p: Params, other: real, n: real, level: real) returns (events: seq<Event>)
    requires p.Valid() && 0.0 < p.feeRate < 1.0 && 0.0 < n
    requires p.floors[Binance] - DriftLimit(p.feeRate, n) < level
    ensures forall ev <- events :: Ordinary(ev, n)
    ensures Run(p, Start(p.floors[Binance], other), events).usdt[Binance] < level
  {
    hide DriftLimit, DriftLeft, Drift, Run, Start, Ordinary;
    var limit := DriftLimit(p.feeRate, n);
    var k := LeftGetsSmall(p.feeRate, n, level - (p.floors[Binance] - limit));
    DriftApproachesLimit(p.feeRate, n, k);
    events := DrainRun(n, limit + n, k);
    DrainReachesDrift(p, other, n, limit + n, k);
    DrainsAreOrdinary(n, limit + n, k);
  }

  lemma LeftGetsSmall(f: real, n: real, room: real) returns (k: nat)
    requires 0.0 < f < 1.0 && 0.0 < n && 0.0 < room
    ensures DriftLeft(f, n, k) < room
  {
    var d := DriftLimit(f, n);
    MulStrict(0.0, n, f);
    DivSign(f * n, 1.0 - f);
    DivSign(room, d);
    k := PowVanishes(f, room / d);
    hide Pow, DriftLimit;
    DivMul(room, d);
    MulStrict(Pow(f, k), room / d, d);
  }

  // ----- Conservation.

  /** What the executed events of a run moved, in USDT. */
  datatype Totals = Totals(spent: real, received: real, reconverted: real)

  function TotalsOf(p: Params, s: State, events: seq<Event>): Totals
    requires p.Valid() && s.Valid()
    decreases |events|
  {
    if events == [] then Totals(0.0, 0.0, 0.0)
    else
      var t, before, ev := TotalsOf(p, s, events[..|events| - 1]), Before(p, s, events), events[|events| - 1];
      if !Executed(p, before, ev) then t
      else Totals(t.spent + ev.spend,
                  t.received + (if ev.receiveAt.Some? then ev.receive else 0.0),
                  t.reconverted
                  + if DecisionFor(p, before, ev) == RebalanceFirst then Shortfall(p, before, ev) else 0.0)
  }

  function TotalUsdt(s: State): real
    requires s.Valid()
  {
    s.usdt[Binance] + s.usdt[Bybit]
  }

  /** No USDT appears or vanishes: the end is the start, less spends, plus receipts, plus reconversions after fees. */
  lemma {:induction false} UsdtIsConserved(p: Params, s: State, events: seq<Event>)
    requires p.Valid() && s.Valid() && forall ev <- events :: 0.0 <= ev.price
    ensures var t := TotalsOf(p, s, events);
            TotalUsdt(Run(p, s, events)) == TotalUsdt(s) - t.spent + t.received + Kept(t.reconverted, p.feeRate)
    decreases |events|
  {
    if events == [] {
      assert Kept(0.0, p.feeRate) == 0.0;
    } else {
      var prefix, ev := events[..|events| - 1], events[|events| - 1];
      assert ev in events && forall x <- prefix :: x in events;
      UsdtIsConserved(p, s, prefix);
      var before := Run(p, s, prefix);
      hide Step, DecisionFor, Kept, Shortfall, TotalUsdt;
      TotalAfter(p, before, ev);
      KeptAdds(TotalsOf(p, s, prefix).reconverted, Shortfall(p, before, ev), p.feeRate);
    }
  }

  lemma TotalAfter(p: Params, s: State, ev: Event)
    requires p.Valid() && s.Valid() && 0.0 <= ev.price
    ensures TotalUsdt(Step(p, s, ev)) ==
              if !Executed(p, s, ev) then TotalUsdt(s)
              else TotalUsdt(s) - ev.spend + (if ev.receiveAt.Some? then ev.receive else 0.0)
                   + (if DecisionFor(p, s, ev) == RebalanceFirst then Kept(Shortfall(p, s, ev), p.feeRate) else 0.0)
  {
    hide Step, DecisionFor, Kept, Shortfall;
    CashAfter(p, s, ev, Binance);
    CashAfter(p, s, ev, Bybit);
    match ev.spendAt { case Binance => case Bybit => }
    if ev.receiveAt.Some? {
      match ev.receiveAt.value { case Binance => case Bybit => }
    }
  }

  lemma KeptAdds(x: real, y: real, feeRate: real)
    ensures Kept(x + y, feeRate) == Kept(x, feeRate) + Kept(y, feeRate)
  {
  }

  /** Units of an asset over both exchanges. */
  function Units(s: State, asset: string): real {
    s.Held(Binance, asset) + s.Held(Bybit, asset)
  }

  /** Net units the executed events of a run brought in: received, less sold, less reconverted. */
  function NetUnits(p: Params, s: State, events: seq<Event>, asset: string): real
    requires p.Valid() && s.Valid()
    decreases |events|
  {
    if events == [] then 0.0
    else
      var before, ev := Before(p, s, events), events[|events| - 1];
      NetUnits(p, s, events[..|events| - 1], asset)
      + if Executed(p, before, ev) && ev.asset == asset
        then ev.quantityReceived - (if ev.receiveAt.Some? then ev.quantitySold else 0.0) - Reconverted(p, before, ev)
        else 0.0
  }

  lemma {:induction false} UnitsAreConserved(p: Params, s: State, events: seq<Event>, asset: string)
    requires p.Valid() && s.Valid()
    ensures Units(Run(p, s, events), asset) == Units(s, asset) + NetUnits(p, s, events, asset)
    decreases |events|
  {
    if events != [] {
      var prefix, ev := events[..|events| - 1], events[|events| - 1];
      UnitsAreConserved(p, s, prefix, asset);
      UnitsAfter(p, Run(p, s, prefix), ev, asset);
    }
  }

  /** Inventory of one asset on one exchange after an event. */
  lemma HeldAfter(p: Params, s: State, ev: Event, e: Exchange, asset: string)
    requires p.Valid() && s.Valid()
    ensures Step(p, s, ev).Held(e, asset) == s.Held(e, asset)
              + if !Executed(p, s, ev) || ev.asset != asset then 0.0
                else (if e == ev.spendAt then ev.quantityReceived - Reconverted(p, s, ev) else 0.0)
                     - (if ev.receiveAt == Some(e) then ev.quantitySold else 0.0)
  {
    hide DecisionFor, Proceeds;
    assert Reconverted(p, s, ev) == 0.0 || DecisionFor(p, s, ev) == RebalanceFirst;
  }

  lemma UnitsAfter(p: Params, s: State, ev: Event, asset: string)
    requires p.Valid() && s.Valid()
    ensures Units(Step(p, s, ev), asset) == Units(s, asset)
              + if Executed(p, s, ev) && ev.asset == asset
                then ev.quantityReceived - (if ev.receiveAt.Some? then ev.quantitySold else 0.0) - Reconverted(p, s, ev)
                else 0.0
  {
    hide Step, DecisionFor, Reconverted, State.Held;
    HeldAfter(p, s, ev, Binance, asset);
    HeldAfter(p, s, ev, Bybit, asset);
    match ev.spendAt { case Binance => case Bybit => }
    if ev.receiveAt.Some? {
      match ev.receiveAt.value { case Binance => case Bybit => }
    }
  }

  ghost predicate NonNegativeStock(s: State) {
    forall k <- s.base :: 0.0 <= s.base[k]
  }

  /** Units of the event's asset on the receiving exchange when its sale is booked. */
  function AvailableToSell(p: Params, s: State, ev: Event): real
    requires p.Valid() && s.Valid() && ev.receiveAt.Some?
  {
    s.Held(ev.receiveAt.value, ev.asset)
    + if ev.receiveAt == Some(ev.spendAt) then ev.quantityReceived - Reconverted(p, s, ev) else 0.0
  }

  /**
   The replay does not check the receiving exchange's inventory: it stays
   non-negative exactly when the event is skipped, sells nothing elsewhere, or
   sells no more than is available there.
   */
  lemma StockStaysNonNegativeIff(p: Params, s: State, ev: Event)
    requires p.Valid() && s.Valid() && NonNegativeStock(s) && 0.0 <= ev.price && 0.0 <= ev.quantityReceived
    ensures NonNegativeStock(Step(p, s, ev)) <==>
              !Executed(p, s, ev) || ev.receiveAt.None? || ev.quantitySold <= AvailableToSell(p, s, ev)
  {
    if DecisionFor(p, s, ev) == RebalanceFirst {
      RebalanceSellsTheShortfall(p, s, ev);
    }
    hide DecisionFor, Proceeds, ValueOf, Kept, Shortfall;
    if Executed(p, s, ev) {
      var a, b := Rebalance(p, s, ev), Spend(Rebalance(p, s, ev), ev);
      assert 0.0 <= a.Held(ev.spendAt, ev.asset);
      assert NonNegativeStock(b);
      if ev.receiveAt.Some? {
        var k := (ev.receiveAt.value, ev.asset);
        assert Step(p, s, ev).base[k] == AvailableToSell(p, s, ev) - ev.quantitySold;
      }
    }
  }

  /** Selling a unit on an exchange that holds none leaves minus one there. */
  lemma NegativeStockExample(p: Params)
    requires p.Valid() && p.floors[Binance] == 0.0
    ensures var s, ev := Start(1.0, 0.0), Event("RVN", Binance, Some(Bybit), 1.0, 1.0, 1.0, 1.0, 1.0);
            Executed(p, s, ev) && Step(p, s, ev).Held(Bybit, "RVN") == -1.0
  {
    HeldAfter(p, Start(1.0, 0.0), Event("RVN", Binance, Some(Bybit), 1.0, 1.0, 1.0, 1.0, 1.0), Bybit, "RVN");
  }
}
