/**
 Many purchases at once: attempts, exchange replies and operators' kill-switch
 actions interleave at every await of
 app/execution/inventory_constitution_executor.py, around one shared guard
 (app/execution/inventory_guard.py).

 A run is any sequence of events. An event that does not fit the state it meets
 changes nothing, so every statement over sequences is one over all schedules.
 */
module ConstitutionProtocol {
  import opened Fees
  import opened RealMath
  import opened InventoryGuard
  import opened ConstitutionAttempt
  import Sizing

  type Id = nat

  datatype Event =
    | Started(id: Id, request: Request)
    | QuoteArrived(id: Id, quote: Option<FreshQuote>)
    | SubmissionReturned(id: Id, raised: bool, now: real)
    | PollingEnded(id: Id, polls: seq<Poll>, now: real)
    | RequoteArrived(id: Id, quote: Option<FreshQuote>)
    | TaskCancelled(id: Id)
    | OperatorEngages(reason: string, now: real)
    | OperatorDisengages

  /** `orders` lists the orders handed to an exchange; `engagedBy` the attempts that threw the switch. */
  datatype System = System(guard: Guard, attempts: map<Id, Attempt>, orders: seq<Id>, engagedBy: set<Id>)

  function Initial(enabled: bool, maxUsdt: real, maxConcurrent: int): System {
    System(NewGuard(enabled, maxUsdt, maxConcurrent), map[], [], {})
  }

  predicate In(s: System, id: Id, phase: Phase) {
    id in s.attempts && s.attempts[id].phase == phase
  }

  function Put(s: System, id: Id, result: (Guard, Attempt)): System {
    s.(guard := result.0, attempts := s.attempts[id := result.1])
  }

  function Step(s: System, e: Event): System {
    match e
    case Started(id, r) =>
      if id in s.attempts || !ValidExchanges(r) then s else Put(s, id, Begin(s.guard, r))
    case QuoteArrived(id, q) =>
      if !In(s, id, Quoting) then s
      else
        var after := Put(s, id, OnQuote(s.guard, s.attempts[id], q));
        if In(after, id, Submitting) then after.(orders := s.orders + [id]) else after
    case SubmissionReturned(id, raised, now) =>
      if !In(s, id, Submitting) then s
      else
        var after := Put(s, id, OnSubmitted(s.guard, s.attempts[id], raised, now));
        if In(after, id, Ended(Unknown)) then after.(engagedBy := s.engagedBy + {id}) else after
    case PollingEnded(id, polls, now) =>
      if !In(s, id, Polling) then s
      else
        var after := Put(s, id, OnPolled(s.guard, s.attempts[id], polls, now));
        if In(after, id, Ended(Unknown)) then after.(engagedBy := s.engagedBy + {id}) else after
    case RequoteArrived(id, q) =>
      if !In(s, id, Requoting) then s else Put(s, id, OnRequoted(s.guard, s.attempts[id], q))
    case TaskCancelled(id) =>
      if id !in s.attempts || !s.attempts[id].Registered() then s
      else Put(s, id, OnCancelled(s.guard, s.attempts[id]))
    case OperatorEngages(reason, now) => s.(guard := Engage(s.guard, reason, now))
    case OperatorDisengages => s.(guard := Disengage(s.guard))
  }

  function Run(s: System, events: seq<Event>): System
    decreases |events|
  {
    if events == [] then s else Step(Run(s, events[..|events| - 1]), events[|events| - 1])
  }

  // ----- The invariant.

  function RegisteredIds(s: System): set<Id> {
    set id <- s.attempts | s.attempts[id].Registered()
  }

  function QuotingIds(s: System): set<Id> {
    set id <- s.attempts | s.attempts[id].phase == Quoting
  }

  function Limit(g: Guard): int {
    if g.maxConcurrent < 0 then 0 else g.maxConcurrent
  }

  ghost predicate Unique(ids: seq<Id>) {
    forall i, j :: 0 <= i < j < |ids| ==> ids[i] != ids[j]
  }

  /** Nothing was bought, sized or reported yet. */
  predicate Blank(a: Attempt) {
    a.grossQuantity == a.netQuantity == a.maxSafeNotional == 0.0 && !a.ready
  }

  /** Nothing was sized or reported yet. */
  predicate Unsized(a: Attempt) {
    a.maxSafeNotional == 0.0 && !a.ready
  }

  /** Each phase knows whether an order was handed over, and what was recorded of it. */
  predicate PhaseAgrees(a: Attempt) {
    match a.phase
    case Quoting => !a.submitted && Blank(a)
    case Submitting => a.submitted && Blank(a)
    case Polling => a.submitted && Blank(a)
    case Requoting => a.submitted && 0.0 < a.grossQuantity && Unsized(a)
    case Cancelled => Unsized(a)
    case Raised => a.submitted && 0.0 < a.grossQuantity && Unsized(a)
    case Ended(Refused(_)) => !a.submitted && Blank(a)
    case Ended(EdgeInsufficient) => !a.submitted && Blank(a)
    case Ended(NoFill) => a.submitted && a.grossQuantity <= 0.0 && Unsized(a)
    case Ended(Filled) => a.submitted && 0.0 < a.grossQuantity
    case Ended(Unknown) => a.submitted && Blank(a)
  }

  /** The counter is the number of registered attempts, within the limit. */
  ghost predicate CountInv(s: System) {
    s.guard.inFlight == |RegisteredIds(s)| <= Limit(s.guard)
  }

  /** The order log holds each submitted attempt once. */
  ghost predicate OrderInv(s: System) {
    && Unique(s.orders)
    && (forall id :: id in s.orders <==> id in s.attempts && s.attempts[id].submitted)
  }

  /** What each attempt's phase says, and that everything admitted was within the cap. */
  ghost predicate AttemptInv(s: System) {
    && (forall id <- s.attempts :: PhaseAgrees(s.attempts[id]))
    && (forall id :: id in s.engagedBy <==> In(s, id, Ended(Unknown)))
    && (forall id <- s.attempts | s.attempts[id].Registered() || s.attempts[id].submitted ::
          0.0 < s.attempts[id].request.notional <= s.guard.maxUsdtPerAsset)
  }

  ghost predicate Inv(s: System) {
    CountInv(s) && OrderInv(s) && AttemptInv(s)
  }

  predicate SameConfig(s: System, t: System) {
    && t.guard.enabled == s.guard.enabled && t.guard.maxUsdtPerAsset == s.guard.maxUsdtPerAsset
    && t.guard.maxConcurrent == s.guard.maxConcurrent
  }

  /** The step left the attempts and the logs alone. */
  predicate Quiet(s: System, t: System) {
    && SameConfig(s, t) && t.guard.inFlight == s.guard.inFlight
    && t.attempts == s.attempts && t.orders == s.orders && t.engagedBy == s.engagedBy
  }

  /** The step replaced one attempt's record, counted it in or out, and logged what it did. */
  predicate Touches(s: System, t: System, id: Id) {
    && SameConfig(s, t)
    && id in t.attempts && t.attempts == s.attempts[id := t.attempts[id]]
    && (id in s.attempts ==> s.attempts[id].Registered() && s.attempts[id].request == t.attempts[id].request)
    && PhaseAgrees(t.attempts[id])
    && t.guard.inFlight == s.guard.inFlight
                           + (if id !in s.attempts && t.attempts[id].Registered() then 1 else 0)
                           - (if id in s.attempts && !t.attempts[id].Registered() then 1 else 0)
    && (id !in s.attempts && t.attempts[id].Registered() ==>
          s.guard.inFlight < s.guard.maxConcurrent && 0.0 < t.attempts[id].request.notional <= s.guard.maxUsdtPerAsset)
    && (id !in s.attempts ==> !t.attempts[id].submitted)
    && (id in s.attempts && s.attempts[id].submitted ==> t.attempts[id].submitted)
    && t.orders == (if id in s.attempts && !s.attempts[id].submitted && t.attempts[id].submitted
                    then s.orders + [id] else s.orders)
    && t.engagedBy == (if t.attempts[id].phase == Ended(Unknown) then s.engagedBy + {id} else s.engagedBy)
  }

  function Target(e: Event): Option<Id> {
    match e
    case OperatorEngages(_, _) => None
    case OperatorDisengages => None
    case _ => Some(e.id)
  }

  /** A registered attempt is counted, so ending an operation never meets the counter's floor at zero. */
  lemma RegisteredIsCounted(s: System, id: Id)
    requires CountInv(s) && id in s.attempts && s.attempts[id].Registered()
    ensures 1 <= s.guard.inFlight
  {
    assert RegisteredIds(s) == (RegisteredIds(s) - {id}) + {id};
  }

  lemma QuoteIsLocal(s: System, id: Id, q: Option<FreshQuote>)
    requires Inv(s) && In(s, id, Quoting)
    ensures Touches(s, Step(s, QuoteArrived(id, q)), id)
  {
    RegisteredIsCounted(s, id);
    assert PhaseAgrees(s.attempts[id]);
    hide Inv, CountInv, OrderInv, AttemptInv;
  }

  lemma SubmissionIsLocal(s: System, id: Id, raised: bool, now: real)
    requires Inv(s) && In(s, id, Submitting)
    ensures Touches(s, Step(s, SubmissionReturned(id, raised, now)), id)
  {
    RegisteredIsCounted(s, id);
    assert PhaseAgrees(s.attempts[id]);
    hide Inv, CountInv, OrderInv, AttemptInv;
  }

  lemma PollingIsLocal(s: System, id: Id, polls: seq<Poll>, now: real)
    requires Inv(s) && In(s, id, Polling)
    ensures Touches(s, Step(s, PollingEnded(id, polls, now)), id)
  {
    RegisteredIsCounted(s, id);
    assert PhaseAgrees(s.attempts[id]);
    hide Inv, CountInv, OrderInv, AttemptInv, FirstTerminal, Sizing.NetBaseQuantityAfterFee;
  }

  lemma RequoteIsLocal(s: System, id: Id, q: Option<FreshQuote>)
    requires Inv(s) && In(s, id, Requoting)
    ensures Touches(s, Step(s, RequoteArrived(id, q)), id)
  {
    RegisteredIsCounted(s, id);
    assert PhaseAgrees(s.attempts[id]);
    hide Inv, CountInv, OrderInv, AttemptInv, Sizing.ComputeMaxSafeNotional;
  }

  lemma CancelIsLocal(s: System, id: Id)
    requires Inv(s) && id in s.attempts && s.attempts[id].Registered()
    ensures Touches(s, Step(s, TaskCancelled(id)), id)
  {
    RegisteredIsCounted(s, id);
    assert PhaseAgrees(s.attempts[id]);
    hide Inv, CountInv, OrderInv, AttemptInv;
  }

  lemma StartIsLocal(s: System, id: Id, r: Request)
    requires id !in s.attempts && ValidExchanges(r)
    ensures Touches(s, Step(s, Started(id, r)), id)
  {
  }

  lemma StepIsLocal(s: System, e: Event)
    requires Inv(s)
    ensures Quiet(s, Step(s, e)) || (Target(e).Some? && Touches(s, Step(s, e), Target(e).value))
  {
    hide Touches, Inv, Put, OnQuote, OnSubmitted, OnPolled, OnRequoted, OnCancelled, Begin;
    match e
    case Started(id, r) => if id !in s.attempts && ValidExchanges(r) { StartIsLocal(s, id, r); }
    case QuoteArrived(id, q) => if In(s, id, Quoting) { QuoteIsLocal(s, id, q); }
    case SubmissionReturned(id, raised, now) => if In(s, id, Submitting) { SubmissionIsLocal(s, id, raised, now); }
    case PollingEnded(id, polls, now) => if In(s, id, Polling) { PollingIsLocal(s, id, polls, now); }
    case RequoteArrived(id, q) => if In(s, id, Requoting) { RequoteIsLocal(s, id, q); }
    case TaskCancelled(id) => if id in s.attempts && s.attempts[id].Registered() { CancelIsLocal(s, id); }
    case OperatorEngages(_, _) =>
    case OperatorDisengages =>
  }

  lemma InitialInv(enabled: bool, maxUsdt: real, maxConcurrent: int)
    ensures Inv(Initial(enabled, maxUsdt, maxConcurrent))
  {
    assert RegisteredIds(Initial(enabled, maxUsdt, maxConcurrent)) == {};
  }

  lemma TouchKeepsCount(s: System, t: System, id: Id)
    requires CountInv(s) && Touches(s, t, id)
    ensures CountInv(t)
  {
    RegisteredAfter(s, t, id);
    hide RegisteredIds;
    CountAfter(RegisteredIds(s), id);
    assert Limit(t.guard) == Limit(s.guard);
  }

  lemma RegisteredAfter(s: System, t: System, id: Id)
    requires Touches(s, t, id)
    ensures RegisteredIds(t) == if t.attempts[id].Registered() then RegisteredIds(s) + {id} else RegisteredIds(s) - {id}
    ensures id in s.attempts <==> id in RegisteredIds(s)
  {
  }

  lemma CountAfter(ids: set<Id>, id: Id)
    ensures |ids + {id}| == |ids| + if id in ids then 0 else 1
    ensures |ids - {id}| == |ids| - if id in ids then 1 else 0
  {
    assert id in ids ==> ids + {id} == ids && ids == (ids - {id}) + {id};
    assert id !in ids ==> ids - {id} == ids;
  }

  lemma TouchKeepsOrders(s: System, t: System, id: Id)
    requires OrderInv(s) && Touches(s, t, id)
    ensures OrderInv(t)
  {
    assert forall x :: x in t.orders <==>
             x in s.orders || (x == id && id in s.attempts && !s.attempts[id].submitted && t.attempts[id].submitted);
  }

  lemma TouchKeepsAttempts(s: System, t: System, id: Id)
    requires OrderInv(s) && AttemptInv(s) && Touches(s, t, id)
    ensures AttemptInv(t)
  {
    assert id in s.attempts ==>
        s.attempts[id].Registered() && 0.0 < s.attempts[id].request.notional <= s.guard.maxUsdtPerAsset;
  }

  lemma StepKeepsInv(s: System, e: Event)
    requires Inv(s)
    ensures Inv(Step(s, e)) && SameConfig(s, Step(s, e))
  {
    StepIsLocal(s, e);
    hide Step, CountInv, OrderInv, AttemptInv;
    var t := Step(s, e);
    if Quiet(s, t) {
      QuietKeepsInv(s, t);
    } else {
      TouchKeepsCount(s, t, Target(e).value);
      TouchKeepsOrders(s, t, Target(e).value);
      TouchKeepsAttempts(s, t, Target(e).value);
    }
  }

  lemma QuietKeepsInv(s: System, t: System)
    requires Inv(s) && Quiet(s, t)
    ensures Inv(t)
  {
    assert RegisteredIds(t) == RegisteredIds(s);
  }

  // ----- Over every run.

  lemma {:induction false} RunKeepsInv(s: System, events: seq<Event>)
    requires Inv(s)
    ensures Inv(Run(s, events)) && SameConfig(s, Run(s, events))
    decreases |events|
  {
    if events != [] {
      hide Step, Inv;
      RunKeepsInv(s, events[..|events| - 1]);
      StepKeepsInv(Run(s, events[..|events| - 1]), events[|events| - 1]);
    }
  }

  /** In every run the counter is exact and bounded, and each attempt hands over at most one order. */
  lemma EveryRunIsSafe(enabled: bool, maxUsdt: real, maxConcurrent: int, events: seq<Event>)
    ensures var s := Run(Initial(enabled, maxUsdt, maxConcurrent), events);
            && s.guard.inFlight == |RegisteredIds(s)|
            && s.guard.inFlight <= (if maxConcurrent < 0 then 0 else maxConcurrent)
            && Unique(s.orders)
            && (forall id :: id in s.orders <==> id in s.attempts && s.attempts[id].submitted)
            && (forall id <- s.orders :: 0.0 < s.attempts[id].request.notional <= maxUsdt)
  {
    hide Step;
    InitialInv(enabled, maxUsdt, maxConcurrent);
    RunKeepsInv(Initial(enabled, maxUsdt, maxConcurrent), events);
  }

  /** Once every attempt has ended the counter is back at zero: no slot leaks. */
  lemma NoSlotLeaks(enabled: bool, maxUsdt: real, maxConcurrent: int, events: seq<Event>)
    ensures var s := Run(Initial(enabled, maxUsdt, maxConcurrent), events);
            s.guard.inFlight == 0 <==> forall id <- s.attempts :: !s.attempts[id].Registered()
  {
    var s := Run(Initial(enabled, maxUsdt, maxConcurrent), events);
    EveryRunIsSafe(enabled, maxUsdt, maxConcurrent, events);
    hide Step, Run;
    assert forall id <- s.attempts :: s.attempts[id].Registered() <==> id in RegisteredIds(s);
    assert RegisteredIds(s) == {} <==> forall id <- s.attempts :: id !in RegisteredIds(s);
  }

  /** An attempt that has ended is never touched again. */
  lemma {:induction false} OutcomesAreFinal(s: System, events: seq<Event>, id: Id)
    requires Inv(s) && id in s.attempts && !s.attempts[id].Registered()
    ensures id in Run(s, events).attempts && Run(s, events).attempts[id] == s.attempts[id]
    decreases |events|
  {
    if events != [] {
      hide Step, Inv;
      var prefix := events[..|events| - 1];
      OutcomesAreFinal(s, prefix, id);
      RunKeepsInv(s, prefix);
      StepIsLocal(Run(s, prefix), events[|events| - 1]);
    }
  }

  // ----- After the kill switch is thrown.

  predicate NoDisengage(events: seq<Event>) {
    forall e <- events :: e != OperatorDisengages
  }

  /** Orders of `t` that `s` did not have yet. */
  function NewOrders(s: System, t: System): seq<Id> {
    if |s.orders| <= |t.orders| then t.orders[|s.orders|..] else []
  }

  lemma EngagedStep(s: System, e: Event)
    requires s.guard.engaged && e != OperatorDisengages
    ensures var t := Step(s, e);
            && t.guard.engaged && QuotingIds(t) <= QuotingIds(s)
            && (t.orders == s.orders || exists id <- QuotingIds(s) :: t.orders == s.orders + [id])
  {
    hide Sizing.ComputeMaxSafeNotional, Sizing.NetBaseQuantityAfterFee, FirstTerminal, Inv;
  }

  /** While the switch stays engaged, only attempts already past the guard and still quoting can order. */
  lemma {:induction false} EngagedRun(s: System, events: seq<Event>)
    requires Inv(s) && s.guard.engaged && NoDisengage(events)
    ensures var t := Run(s, events);
            && t.guard.engaged && Inv(t) && QuotingIds(t) <= QuotingIds(s)
            && s.orders <= t.orders
            && forall id <- NewOrders(s, t) :: id in QuotingIds(s)
    decreases |events|
  {
    if events != [] {
      hide Step, Inv, QuotingIds, NewOrders;
      var prefix, e := events[..|events| - 1], events[|events| - 1];
      assert e in events && forall x <- prefix :: x in events;
      EngagedRun(s, prefix);
      var u := Run(s, prefix);
      EngagedStep(u, e);
      StepKeepsInv(u, e);
      OneMoreOrder(s, u, Step(u, e), QuotingIds(s));
    } else {
      assert NewOrders(s, s) == [];
    }
  }

  lemma OneMoreOrder(s: System, u: System, t: System, pool: set<Id>)
    requires s.orders <= u.orders && forall id <- NewOrders(s, u) :: id in pool
    requires t.orders == u.orders || exists id <- pool :: t.orders == u.orders + [id]
    ensures s.orders <= t.orders && forall id <- NewOrders(s, t) :: id in pool
  {
    if t.orders != u.orders {
      var id :| id in pool && t.orders == u.orders + [id];
      assert NewOrders(s, t) == NewOrders(s, u) + [id];
    }
  }

  lemma {:induction false} UniqueWithin(ids: seq<Id>, pool: set<Id>)
    requires Unique(ids) && forall id <- ids :: id in pool
    ensures |ids| <= |pool|
  {
    if ids != [] {
      assert ids[0] !in ids[1..];
      UniqueWithin(ids[1..], pool - {ids[0]});
    }
  }

  /** USD behind a list of orders. */
  ghost function Ordered(s: System, ids: seq<Id>): real
    requires forall id <- ids :: id in s.attempts
  {
    if ids == [] then 0.0 else s.attempts[ids[0]].request.notional + Ordered(s, ids[1..])
  }

  lemma {:induction false} OrderedBound(s: System, ids: seq<Id>, cap: real)
    requires forall id <- ids :: id in s.attempts && s.attempts[id].request.notional <= cap
    ensures Ordered(s, ids) <= Spread(cap, |ids|)
  {
    SpreadStep(cap, if ids == [] then 0 else |ids| - 1);
    if ids != [] {
      hide Spread;
      assert ids[0] in ids && forall id <- ids[1..] :: id in ids;
      OrderedBound(s, ids[1..], cap);
    }
  }

  /** `n` orders at the cap. */
  function Spread(cap: real, n: nat): real {
    cap * n as real
  }

  lemma SpreadStep(cap: real, n: nat)
    ensures Spread(cap, 0) == 0.0 && Spread(cap, n + 1) == Spread(cap, n) + cap
  {
    assert (n + 1) as real == n as real + 1.0;
  }

  /** At most the attempts still quoting when the switch was thrown can place an order before it is released. */
  lemma OrdersAfterEngagement(s: System, events: seq<Event>)
    requires Inv(s) && s.guard.engaged && NoDisengage(events)
    ensures var t := Run(s, events);
            var later := NewOrders(s, t);
            && s.orders <= t.orders && t.guard.engaged
            && |later| <= |QuotingIds(s)|
            && (forall id <- later :: id in QuotingIds(s) && id in t.attempts)
            && Ordered(t, later) <= Spread(s.guard.maxUsdtPerAsset, |later|)
  {
    hide Step;
    EngagedRun(s, events);
    RunKeepsInv(s, events);
    hide Run, QuotingIds;
    var t := Run(s, events);
    LaterOrders(s, t);
    hide Inv, NewOrders, Spread;
    UniqueWithin(NewOrders(s, t), QuotingIds(s));
    OrderedBound(t, NewOrders(s, t), s.guard.maxUsdtPerAsset);
  }

  lemma LaterOrders(s: System, t: System)
    requires OrderInv(t) && AttemptInv(t)
    ensures Unique(NewOrders(s, t))
    ensures forall id <- NewOrders(s, t) ::
              id in t.attempts && t.attempts[id].request.notional <= t.guard.maxUsdtPerAsset
  {
  }

  lemma {:induction false} RunPrepends(s: System, e: Event, events: seq<Event>)
    ensures Run(s, [e] + events) == Run(Step(s, e), events)
    decreases |events|
  {
    hide Step;
    var all := [e] + events;
    if events == [] {
      assert all == [e] && all[..0] == [];
      assert Run(s, [e]) == Step(Run(s, []), e);
    } else {
      assert all[..|all| - 1] == [e] + events[..|events| - 1];
      RunPrepends(s, e, events[..|events| - 1]);
    }
  }

  /** The bound is attained: some schedule under the engaged switch lets each quoting attempt place its order. */
  lemma EveryQuotingAttemptCanOrder(s: System) returns (events: seq<Event>)
    ensures NoDisengage(events)
    ensures var t := Run(s, events);
            t.guard == s.guard && s.orders <= t.orders && |t.orders| - |s.orders| == |QuotingIds(s)|
    decreases QuotingIds(s)
  {
    events := [];
    if QuotingIds(s) != {} {
      var id :| id in QuotingIds(s);
      var e := QuoteArrived(id, Some(FreshQuote(true, 1.0, 1.0, None, 0.0)));
      var u := Step(s, e);
      QuoteTakesOrder(s, e, id);
      hide Step, Run, QuotingIds;
      var rest := EveryQuotingAttemptCanOrder(u);
      events := [e] + rest;
      RunPrepends(s, e, rest);
    }
  }

  lemma QuoteTakesOrder(s: System, e: Event, id: Id)
    requires id in QuotingIds(s) && e.QuoteArrived? && e.id == id && Worthwhile(e.quote)
    ensures Step(s, e).guard == s.guard && Step(s, e).orders == s.orders + [id]
    ensures QuotingIds(Step(s, e)) == QuotingIds(s) - {id}
  {
  }

  /**
   When an attempt itself throws the switch, fewer than the concurrency limit
   can still order; with the default limit of one, none can.
   */
  lemma OrdersAfterUnknown(s: System, e: Event, id: Id, events: seq<Event>)
    requires Inv(s) && !In(s, id, Ended(Unknown)) && In(Step(s, e), id, Ended(Unknown)) && NoDisengage(events)
    ensures var u, t := Step(s, e), Run(Step(s, e), events);
            && u.orders <= t.orders && t.guard.engaged
            && |t.orders| - |u.orders| <= s.guard.maxConcurrent - 1
            && (s.guard.maxConcurrent == 1 ==> t.orders == u.orders)
  {
    hide Run;
    UnknownEngages(s, e, id);
    StepKeepsInv(s, e);
    StepIsLocal(s, e);
    hide Step;
    var u := Step(s, e);
    OrdersAfterEngagement(u, events);
    QuotingWithout(s, u, id);
  }

  lemma QuotingWithout(s: System, u: System, id: Id)
    requires CountInv(s) && id in s.attempts && s.attempts[id].Registered() && s.attempts[id].phase != Quoting
    requires Touches(s, u, id) && In(u, id, Ended(Unknown))
    ensures |QuotingIds(u)| <= s.guard.maxConcurrent - 1
  {
    assert id in RegisteredIds(s);
    assert QuotingIds(u) <= RegisteredIds(s) - {id};
    CardinalityMonotone(QuotingIds(u), RegisteredIds(s) - {id});
  }

  lemma {:induction false} CardinalityMonotone(a: set<Id>, b: set<Id>)
    requires a <= b
    ensures |a| <= |b|
  {
    assert b == a + (b - a);
  }

  /** The step that ends an attempt as unknown leaves the switch engaged. */
  lemma UnknownEngages(s: System, e: Event, id: Id)
    requires Inv(s) && !In(s, id, Ended(Unknown)) && In(Step(s, e), id, Ended(Unknown))
    ensures Step(s, e).guard.engaged
    ensures id in s.attempts && s.attempts[id].Registered() && s.attempts[id].phase != Quoting
  {
    hide Inv;
    StepIsLocal(s, e);
    hide Sizing.ComputeMaxSafeNotional, Sizing.NetBaseQuantityAfterFee;
  }

  // ----- The fate of an order, read off the schedule.

  /** The event cancels the task while its order is with the exchange or being settled. */
  predicate Cancels(s: System, e: Event, id: Id) {
    e == TaskCancelled(id) && (In(s, id, Submitting) || In(s, id, Polling) || In(s, id, Requoting))
  }

  /** The event is a post-fill quote without a sell minimum, with something bought and a bid to sell at. */
  predicate Raises(s: System, e: Event, id: Id) {
    && e.RequoteArrived? && e.id == id && In(s, id, Requoting)
    && e.quote.Some? && e.quote.value.sellMinNotional.None? && 0.0 < e.quote.value.sellBid
    && 0.0 < s.attempts[id].netQuantity
  }

  /** The event is a poll that reaches a terminal status, and `a` carries the quantities it reports. */
  predicate Records(s: System, e: Event, id: Id, a: Attempt) {
    && e.PollingEnded? && e.id == id && In(s, id, Polling) && FirstTerminal(e.polls).Some?
    && var f := FirstTerminal(e.polls).value;
    && a.grossQuantity == f.grossQuantity
    && a.netQuantity == if f.feeAsset != Some(a.request.baseAsset) then f.grossQuantity
                        else Max(0.0, f.grossQuantity - f.feeAmount)
  }

  /** The event leaves the order's status unknown: the submission raised, or polling timed out. */
  predicate LosesTrack(s: System, e: Event, id: Id) {
    || (e.SubmissionReturned? && e.id == id && In(s, id, Submitting) && e.raised)
    || (e.PollingEnded? && e.id == id && In(s, id, Polling) && FirstTerminal(e.polls).None?)
  }

  /** The system after the first `k` events. */
  function StateAt(s: System, events: seq<Event>, k: nat): System
    requires k <= |events|
  {
    Run(s, events[..k])
  }

  predicate LostAt(s: System, events: seq<Event>, id: Id, k: nat) {
    k < |events| && (Cancels(StateAt(s, events, k), events[k], id) || Raises(StateAt(s, events, k), events[k], id))
  }

  predicate RecordedAt(s: System, events: seq<Event>, id: Id, a: Attempt, k: nat) {
    k < |events| && Records(StateAt(s, events, k), events[k], id, a)
  }

  predicate LosesTrackAt(s: System, events: seq<Event>, id: Id, k: nat) {
    k < |events| && LosesTrack(StateAt(s, events, k), events[k], id)
  }

  /** The switch is engaged from event `k` on, until an operator releases it. */
  ghost predicate AlarmFrom(s: System, events: seq<Event>, k: nat) {
    forall m: nat :: k < m <= |events| && NoDisengage(events[k + 1..m]) ==> StateAt(s, events, m).guard.engaged
  }

  /** The attempt ended with the outcome and the quantities of the status that a poll recorded. */
  ghost predicate Settled(s: System, events: seq<Event>, id: Id) {
    var t := Run(s, events);
    && id in t.attempts
    && t.attempts[id].phase == Ended(if t.attempts[id].grossQuantity <= 0.0 then NoFill else Filled)
    && exists k: nat :: RecordedAt(s, events, id, t.attempts[id], k)
  }

  /** The status was lost, and the kill switch was thrown over it. */
  ghost predicate Alarmed(s: System, events: seq<Event>, id: Id) {
    exists k: nat :: LosesTrackAt(s, events, id, k) && AlarmFrom(s, events, k)
  }

  /** The attempt is still open, or its order is accounted for. */
  ghost predicate Explained(s: System, events: seq<Event>, id: Id) {
    || (id in Run(s, events).attempts && Run(s, events).attempts[id].Registered())
    || Settled(s, events, id)
    || Alarmed(s, events, id)
  }

  /** The attempt changed; these are the ways an order can have got where it is. */
  predicate FateChange(u: System, t: System, e: Event, id: Id)
    requires id in t.attempts
  {
    var a := t.attempts[id];
    && (a.submitted && (a.phase == Cancelled || a.phase == Raised) ==> Cancels(u, e, id) || Raises(u, e, id))
    && (a.phase == Requoting || a.phase == Ended(NoFill) ==> Records(u, e, id, a))
    && (a.phase == Ended(Filled) ==>
          In(u, id, Requoting) && u.attempts[id].grossQuantity == a.grossQuantity
          && u.attempts[id].netQuantity == a.netQuantity && u.attempts[id].request == a.request)
    && (a.phase == Ended(Unknown) ==> LosesTrack(u, e, id))
  }

  /** What one event tells about one attempt. */
  predicate FateTold(u: System, t: System, e: Event, id: Id) {
    && (Cancels(u, e, id) ==> In(t, id, Cancelled))
    && (Raises(u, e, id) ==> In(t, id, Raised))
    && (LosesTrack(u, e, id) ==> In(t, id, Ended(Unknown)) && t.guard.engaged)
    && (id in t.attempts ==>
          (id in u.attempts && t.attempts[id] == u.attempts[id]) || FateChange(u, t, e, id))
  }

  lemma FateStep(u: System, e: Event, id: Id)
    requires Inv(u)
    ensures FateTold(u, Step(u, e), e, id)
  {
    if id in u.attempts { assert PhaseAgrees(u.attempts[id]); }
    hide Inv, FateTold, Step;
    match e
    case PollingEnded(_, polls, now) => PollFate(u, e, id);
    case RequoteArrived(_, q) => RequoteFate(u, e, id);
    case SubmissionReturned(_, raised, now) => SubmissionFate(u, e, id);
    case TaskCancelled(_) => CancelFate(u, e, id);
    case _ => OtherFate(u, e, id);
  }

  lemma PollFate(u: System, e: Event, id: Id)
    requires e.PollingEnded?
    ensures FateTold(u, Step(u, e), e, id)
  {
    hide FirstTerminal;
  }

  lemma RequoteFate(u: System, e: Event, id: Id)
    requires e.RequoteArrived?
    ensures FateTold(u, Step(u, e), e, id)
  {
  }

  lemma SubmissionFate(u: System, e: Event, id: Id)
    requires e.SubmissionReturned?
    ensures FateTold(u, Step(u, e), e, id)
  {
  }

  lemma CancelFate(u: System, e: Event, id: Id)
    requires e.TaskCancelled? && (In(u, id, Quoting) ==> !u.attempts[id].submitted)
    ensures FateTold(u, Step(u, e), e, id)
  {
  }

  lemma OtherFate(u: System, e: Event, id: Id)
    requires e.Started? || e.QuoteArrived? || e.OperatorEngages? || e.OperatorDisengages?
    ensures FateTold(u, Step(u, e), e, id)
  {
  }

  /** The attempt was lost exactly when some event lost it. */
  ghost predicate LostKnown(s: System, events: seq<Event>, id: Id, t: System) {
    && (forall k: nat :: LostAt(s, events, id, k) ==> In(t, id, Cancelled) || In(t, id, Raised))
    && (id in t.attempts && t.attempts[id].submitted && (In(t, id, Cancelled) || In(t, id, Raised)) ==>
          exists k: nat :: LostAt(s, events, id, k))
  }

  /** The attempt ended as unknown exactly when some event lost track of its order. */
  ghost predicate TrackKnown(s: System, events: seq<Event>, id: Id, t: System) {
    In(t, id, Ended(Unknown)) <==> exists k: nat :: LosesTrackAt(s, events, id, k)
  }

  /** An attempt past its polls carries what a terminal poll reported. */
  ghost predicate RecordKnown(s: System, events: seq<Event>, id: Id, t: System) {
    In(t, id, Requoting) || In(t, id, Ended(NoFill)) || In(t, id, Ended(Filled)) ==>
      exists k: nat :: RecordedAt(s, events, id, t.attempts[id], k)
  }

  /** Events of a prefix meet the same states in the longer run. */
  lemma PrefixStates(s: System, events: seq<Event>, id: Id)
    requires events != []
    ensures var prefix := events[..|events| - 1];
            && StateAt(s, events, |prefix|) == Run(s, prefix)
            && (forall k: nat :: k < |prefix| ==> StateAt(s, events, k) == StateAt(s, prefix, k))
            && (forall k: nat :: k < |prefix| ==> (LostAt(s, events, id, k) <==> LostAt(s, prefix, id, k)))
            && (forall k: nat :: k < |prefix| ==> (LosesTrackAt(s, events, id, k) <==> LosesTrackAt(s, prefix, id, k)))
            && (forall a, k: nat ::
                  k < |prefix| ==> (RecordedAt(s, events, id, a, k) <==> RecordedAt(s, prefix, id, a, k)))
  {
    var prefix := events[..|events| - 1];
    hide Run, Cancels, Raises, Records, LosesTrack;
    assert forall k: nat :: k <= |prefix| ==> events[..k] == prefix[..k];
    assert prefix[..|prefix|] == prefix;
  }

  lemma {:induction false} FateOf(s: System, events: seq<Event>, id: Id)
    requires Inv(s) && id !in s.attempts
    ensures LostKnown(s, events, id, Run(s, events)) && TrackKnown(s, events, id, Run(s, events))
    ensures RecordKnown(s, events, id, Run(s, events))
    decreases |events|
  {
    if events != [] {
      var n := |events| - 1;
      var prefix, e := events[..n], events[n];
      var u := Run(s, prefix);
      FateOf(s, prefix, id);
      RunKeepsInv(s, prefix);
      FateStep(u, e, id);
      if id in u.attempts && !u.attempts[id].Registered() { EndedStays(u, e, id); }
      PrefixStates(s, events, id);
      hide Step, Run, Inv, StateAt, FateChange, Cancels, Raises, Records, LosesTrack;
      hide LostKnown, TrackKnown, RecordKnown;
      LostKept(s, events, id, u, Step(u, e));
      TrackKept(s, events, id, u, Step(u, e));
      RecordKept(s, events, id, u, Step(u, e));
    }
  }

  lemma EndedStays(u: System, e: Event, id: Id)
    requires Inv(u) && id in u.attempts && !u.attempts[id].Registered()
    ensures id in Step(u, e).attempts && Step(u, e).attempts[id] == u.attempts[id]
  {
    StepIsLocal(u, e);
    hide Step, Inv;
  }

  /** The last event leaves an ended attempt alone, and otherwise keeps or changes it. */
  ghost predicate LastStep(s: System, events: seq<Event>, id: Id, u: System, t: System) {
    && events != [] && u == StateAt(s, events, |events| - 1)
    && (id in u.attempts && !u.attempts[id].Registered() ==> id in t.attempts && t.attempts[id] == u.attempts[id])
    && (id in t.attempts ==>
          || (id in u.attempts && t.attempts[id] == u.attempts[id])
          || FateChange(u, t, events[|events| - 1], id))
  }

  lemma LostKept(s: System, events: seq<Event>, id: Id, u: System, t: System)
    requires LastStep(s, events, id, u, t) && LostKnown(s, events[..|events| - 1], id, u)
    requires forall k: nat :: k < |events| - 1 ==>
               (LostAt(s, events, id, k) <==> LostAt(s, events[..|events| - 1], id, k))
    requires Cancels(u, events[|events| - 1], id) ==> In(t, id, Cancelled)
    requires Raises(u, events[|events| - 1], id) ==> In(t, id, Raised)
    ensures LostKnown(s, events, id, t)
  {
    hide Run, StateAt, Cancels, Raises, Records, LosesTrack;
    var n, prefix := |events| - 1, events[..|events| - 1];
    forall k: nat | LostAt(s, events, id, k) ensures In(t, id, Cancelled) || In(t, id, Raised) {
      if k < n { assert LostAt(s, prefix, id, k); }
    }
    if id in t.attempts && t.attempts[id].submitted && (In(t, id, Cancelled) || In(t, id, Raised)) {
      if id in u.attempts && u.attempts[id] == t.attempts[id] {
        var k: nat :| LostAt(s, prefix, id, k);
        assert LostAt(s, events, id, k);
      } else {
        assert LostAt(s, events, id, n);
      }
    }
  }

  lemma TrackKept(s: System, events: seq<Event>, id: Id, u: System, t: System)
    requires LastStep(s, events, id, u, t) && TrackKnown(s, events[..|events| - 1], id, u)
    requires forall k: nat :: k < |events| - 1 ==>
               (LosesTrackAt(s, events, id, k) <==> LosesTrackAt(s, events[..|events| - 1], id, k))
    requires LosesTrack(u, events[|events| - 1], id) ==> In(t, id, Ended(Unknown))
    ensures TrackKnown(s, events, id, t)
  {
    hide Run, StateAt, Cancels, Raises, Records, LosesTrack;
    var n, prefix := |events| - 1, events[..|events| - 1];
    if k: nat :| LosesTrackAt(s, events, id, k) {
      if k < n { assert LosesTrackAt(s, prefix, id, k); }
    }
    if In(t, id, Ended(Unknown)) {
      if id in u.attempts && u.attempts[id] == t.attempts[id] {
        var k: nat :| LosesTrackAt(s, prefix, id, k);
        assert LosesTrackAt(s, events, id, k);
      } else {
        assert LosesTrackAt(s, events, id, n);
      }
    }
  }

  lemma RecordKept(s: System, events: seq<Event>, id: Id, u: System, t: System)
    requires LastStep(s, events, id, u, t) && RecordKnown(s, events[..|events| - 1], id, u)
    requires forall a, k: nat :: k < |events| - 1 ==>
               (RecordedAt(s, events, id, a, k) <==> RecordedAt(s, events[..|events| - 1], id, a, k))
    ensures RecordKnown(s, events, id, t)
  {
    hide Run, StateAt, Cancels, Raises, Records, LosesTrack;
    var n, prefix := |events| - 1, events[..|events| - 1];
    if In(t, id, Requoting) || In(t, id, Ended(NoFill)) || In(t, id, Ended(Filled)) {
      var a := t.attempts[id];
      if id in u.attempts && (u.attempts[id] == a || a.phase == Ended(Filled)) {
        var b := u.attempts[id];
        var k: nat :| RecordedAt(s, prefix, id, b, k);
        assert RecordedAt(s, events, id, b, k);
        SameRecord(s, events, id, a, b, k);
      } else {
        assert RecordedAt(s, events, id, a, n);
      }
    }
  }

  lemma SameRecord(s: System, events: seq<Event>, id: Id, a: Attempt, b: Attempt, k: nat)
    requires RecordedAt(s, events, id, b, k)
    requires a.grossQuantity == b.grossQuantity && a.netQuantity == b.netQuantity && a.request == b.request
    ensures RecordedAt(s, events, id, a, k)
  {
    hide Run, Sizing.NetBaseQuantityAfterFee;
  }

  /** While no operator releases it, an engaged switch stays engaged. */
  lemma {:induction false} StaysEngaged(s: System, events: seq<Event>, i: nat, m: nat)
    requires i <= m <= |events| && StateAt(s, events, i).guard.engaged && NoDisengage(events[i..m])
    ensures StateAt(s, events, m).guard.engaged
    decreases m
  {
    if i < m {
      assert events[i..m] == events[i..m - 1] + [events[m - 1]];
      NoDisengageSplits(events[i..m - 1], events[m - 1]);
      StaysEngaged(s, events, i, m - 1);
      OneMoreEvent(s, events, m - 1);
      EngagedStep(StateAt(s, events, m - 1), events[m - 1]);
    }
  }

  lemma NoDisengageSplits(events: seq<Event>, e: Event)
    requires NoDisengage(events + [e])
    ensures NoDisengage(events) && e != OperatorDisengages
  {
    var all := events + [e];
    assert all[|events|] == e && e in all;
    assert forall x <- events :: x in events + [e];
  }

  lemma OneMoreEvent(s: System, events: seq<Event>, k: nat)
    requires k < |events|
    ensures StateAt(s, events, k + 1) == Step(StateAt(s, events, k), events[k])
  {
    assert events[..k + 1][..k] == events[..k];
    hide Step;
  }

  /** Losing track of an order throws the switch, which then stays until an operator releases it. */
  lemma LostTrackAlarms(s: System, events: seq<Event>, id: Id, k: nat)
    requires Inv(s) && LosesTrackAt(s, events, id, k)
    ensures AlarmFrom(s, events, k)
  {
    RunKeepsInv(s, events[..k]);
    FateStep(StateAt(s, events, k), events[k], id);
    OneMoreEvent(s, events, k);
    hide Step, Run, Inv, LosesTrack, StateAt;
    forall m: nat | k < m <= |events| && NoDisengage(events[k + 1..m])
      ensures StateAt(s, events, m).guard.engaged
    {
      StaysEngaged(s, events, k + 1, m);
    }
  }

  /**
   In every run, a submitted order goes without explanation exactly when the
   schedule cancels its task in flight, or brings a post-fill quote that raises.
   Otherwise its attempt is open, settled with the recorded fill, or ended by
   throwing a switch that holds until an operator releases it.
   */
  lemma OrderFateIff(enabled: bool, maxUsdt: real, maxConcurrent: int, events: seq<Event>, id: Id)
    requires id in Run(Initial(enabled, maxUsdt, maxConcurrent), events).orders
    ensures var s := Initial(enabled, maxUsdt, maxConcurrent);
            (exists k: nat :: LostAt(s, events, id, k)) <==> !Explained(s, events, id)
  {
    hide Step, Run;
    var s := Initial(enabled, maxUsdt, maxConcurrent);
    InitialInv(enabled, maxUsdt, maxConcurrent);
    RunKeepsInv(s, events);
    FateOf(s, events, id);
    var t := Run(s, events);
    assert PhaseAgrees(t.attempts[id]) && t.attempts[id].submitted;
    hide Inv, LostAt, RecordedAt, LosesTrackAt, AlarmFrom, Initial;
    if t.attempts[id].phase == Ended(Unknown) {
      var k: nat :| LosesTrackAt(s, events, id, k);
      LostTrackAlarms(s, events, id, k);
      assert Alarmed(s, events, id);
    }
  }

  // ----- Which events bring an attempt where it ends.

  /** A start of a new attempt on two different known exchanges. */
  predicate Begins(s: System, e: Event, id: Id) {
    && e.Started? && e.id == id && id !in s.attempts
    && e.request.buyExchange in {"binance", "bybit"} && e.request.sellExchange in {"binance", "bybit"}
    && e.request.buyExchange != e.request.sellExchange
  }

  /** The guard, as the start finds it, lets the purchase through. */
  predicate LetsIn(g: Guard, notional: real) {
    !g.engaged && g.enabled && 0.0 < notional <= g.maxUsdtPerAsset && g.inFlight < g.maxConcurrent
  }

  predicate Admits(s: System, e: Event, id: Id) {
    Begins(s, e, id) && LetsIn(s.guard, e.request.notional)
  }

  /** An executable quote with a strictly positive net profit meets the attempt while it waits for one. */
  predicate Orders(s: System, e: Event, id: Id) {
    && e.QuoteArrived? && e.id == id && In(s, id, Quoting)
    && e.quote.Some? && e.quote.value.executable && 0.0 < e.quote.value.netProfit
  }

  /** No quote, one that is not executable, or one without a strictly positive net profit. */
  predicate Declines(s: System, e: Event, id: Id) {
    && e.QuoteArrived? && e.id == id && In(s, id, Quoting)
    && (e.quote.None? || !e.quote.value.executable || e.quote.value.netProfit <= 0.0)
  }

  /** A terminal status without a fill. */
  predicate FillsNothing(s: System, e: Event, id: Id) {
    && e.PollingEnded? && e.id == id && In(s, id, Polling)
    && FirstTerminal(e.polls).Some? && FirstTerminal(e.polls).value.grossQuantity <= 0.0
  }

  /** A post-fill quote that does not raise, and the final record `a` it leaves. */
  predicate Concludes(s: System, e: Event, id: Id, a: Attempt) {
    && e.RequoteArrived? && e.id == id && In(s, id, Requoting) && !Raises(s, e, id)
    && var b := s.attempts[id];
    && a.request == b.request && a.submitted == b.submitted && a.phase == Ended(Filled)
    && a.grossQuantity == b.grossQuantity && a.netQuantity == b.netQuantity
    && a.maxSafeNotional == (if e.quote.Some? then SafeNotional(b, e.quote.value).GetOr(0.0) else 0.0)
    && (a.ready <==>
          && e.quote.Some? && e.quote.value.executable && 0.0 < e.quote.value.netProfit
          && 0.0 < a.maxSafeNotional)
  }

  predicate CancelsLive(s: System, e: Event, id: Id) {
    e == TaskCancelled(id) && id in s.attempts && s.attempts[id].Registered()
  }

  /** Stations of an attempt; none is ever left again. `Concluded` carries the final record. */
  datatype Station =
    | Known | Asked(request: Request) | TurnedAway | Placed | Declined | Unfilled | Stopped | Concluded(record: Attempt)

  predicate Reached(s: System, id: Id, m: Station) {
    match m
    case Known => id in s.attempts
    case Asked(r) => id in s.attempts && s.attempts[id].request == r
    case TurnedAway => id in s.attempts && s.attempts[id].phase.Ended? && s.attempts[id].phase.outcome.Refused?
    case Placed => id in s.orders
    case Declined => In(s, id, Ended(EdgeInsufficient))
    case Unfilled => In(s, id, Ended(NoFill))
    case Stopped => In(s, id, Cancelled)
    case Concluded(a) => In(s, id, Ended(Filled)) && s.attempts[id] == a
  }

  /** The event that leads there. */
  predicate Reaches(s: System, e: Event, id: Id, m: Station) {
    match m
    case Known => Begins(s, e, id)
    case Asked(r) => Begins(s, e, id) && e.request == r
    case TurnedAway => Begins(s, e, id) && !LetsIn(s.guard, e.request.notional)
    case Placed => Orders(s, e, id)
    case Declined => Declines(s, e, id)
    case Unfilled => FillsNothing(s, e, id)
    case Stopped => CancelsLive(s, e, id)
    case Concluded(a) => Concludes(s, e, id, a)
  }

  lemma StationStep(u: System, e: Event, id: Id, m: Station)
    ensures Reached(Step(u, e), id, m) <==> Reached(u, id, m) || Reaches(u, e, id, m)
  {
    hide Step, Reached, Reaches;
    match e
    case Started(_, _) => StationOnStart(u, e, id, m);
    case QuoteArrived(_, _) => StationOnQuote(u, e, id, m);
    case SubmissionReturned(_, _, _) => StationOnSubmission(u, e, id, m);
    case PollingEnded(_, _, _) => StationOnPoll(u, e, id, m);
    case RequoteArrived(_, _) => StationOnRequote(u, e, id, m);
    case TaskCancelled(_) => StationOnCancel(u, e, id, m);
    case _ => StationOnOperator(u, e, id, m);
  }

  lemma StationOnStart(u: System, e: Event, id: Id, m: Station)
    requires e.Started?
    ensures Reached(Step(u, e), id, m) <==> Reached(u, id, m) || Reaches(u, e, id, m)
  {
  }

  lemma StationOnQuote(u: System, e: Event, id: Id, m: Station)
    requires e.QuoteArrived?
    ensures Reached(Step(u, e), id, m) <==> Reached(u, id, m) || Reaches(u, e, id, m)
  {
  }

  lemma StationOnSubmission(u: System, e: Event, id: Id, m: Station)
    requires e.SubmissionReturned?
    ensures Reached(Step(u, e), id, m) <==> Reached(u, id, m) || Reaches(u, e, id, m)
  {
  }

  lemma StationOnPoll(u: System, e: Event, id: Id, m: Station)
    requires e.PollingEnded?
    ensures Reached(Step(u, e), id, m) <==> Reached(u, id, m) || Reaches(u, e, id, m)
  {
    hide FirstTerminal, Sizing.NetBaseQuantityAfterFee;
  }

  lemma StationOnRequote(u: System, e: Event, id: Id, m: Station)
    requires e.RequoteArrived?
    ensures Reached(Step(u, e), id, m) <==> Reached(u, id, m) || Reaches(u, e, id, m)
  {
    if In(u, e.id, Requoting) { RequoteRaisesIff(u.guard, u.attempts[e.id], e.quote); }
    hide SafeNotional;
  }

  lemma StationOnCancel(u: System, e: Event, id: Id, m: Station)
    requires e.TaskCancelled?
    ensures Reached(Step(u, e), id, m) <==> Reached(u, id, m) || Reaches(u, e, id, m)
  {
  }

  lemma StationOnOperator(u: System, e: Event, id: Id, m: Station)
    requires e.OperatorEngages? || e.OperatorDisengages?
    ensures Reached(Step(u, e), id, m) <==> Reached(u, id, m) || Reaches(u, e, id, m)
  {
  }

  predicate ReachesAt(s: System, events: seq<Event>, id: Id, m: Station, k: nat) {
    k < |events| && Reaches(StateAt(s, events, k), events[k], id, m)
  }

  /** After a run an attempt is at a station exactly when some event of the schedule led there. */
  lemma {:induction false} ReachedIff(s: System, events: seq<Event>, id: Id, m: Station)
    requires !Reached(s, id, m)
    ensures Reached(Run(s, events), id, m) <==> exists k: nat :: ReachesAt(s, events, id, m, k)
    decreases |events|
  {
    hide Step, Run, StateAt, Reached, Reaches;
    if events == [] {
      NoEvents(s);
    } else {
      var n := |events| - 1;
      var prefix := events[..n];
      ReachedIff(s, prefix, id, m);
      LastEvent(s, events);
      StationStep(Run(s, prefix), events[n], id, m);
      if k: nat :| ReachesAt(s, prefix, id, m, k) { assert ReachesAt(s, events, id, m, k); }
      if Reaches(Run(s, prefix), events[n], id, m) { assert ReachesAt(s, events, id, m, n); }
      if k: nat :| ReachesAt(s, events, id, m, k) {
        if k < n { assert ReachesAt(s, prefix, id, m, k); }
      }
    }
  }

  lemma NoEvents(s: System)
    ensures Run(s, []) == s
  {
  }

  lemma LastEvent(s: System, events: seq<Event>)
    requires events != []
    ensures var n := |events| - 1;
            && Run(s, events) == Step(Run(s, events[..n]), events[n]) && StateAt(s, events, n) == Run(s, events[..n])
            && forall k: nat :: k < n ==> StateAt(s, events, k) == StateAt(s, events[..n], k)
  {
    hide Step;
    var n := |events| - 1;
    forall k: nat | k < n ensures StateAt(s, events, k) == StateAt(s, events[..n], k) {
      assert events[..k] == events[..n][..k];
    }
  }

  /**
   In every run an order is placed exactly when an executable quote with a
   strictly positive net profit meets the attempt while it waits for one.
   */
  lemma OrderedIff(enabled: bool, maxUsdt: real, maxConcurrent: int, events: seq<Event>, id: Id)
    ensures var s := Initial(enabled, maxUsdt, maxConcurrent);
            id in Run(s, events).orders
            <==> exists k: nat :: k < |events| && Orders(StateAt(s, events, k), events[k], id)
  {
    hide Step, Run, StateAt, Orders;
    var s := Initial(enabled, maxUsdt, maxConcurrent);
    ReachedIff(s, events, id, Placed);
    assert forall k: nat :: ReachesAt(s, events, id, Placed, k)
                            <==> k < |events| && Orders(StateAt(s, events, k), events[k], id);
  }

  /** In every run an attempt is admitted exactly when a valid start of it meets a guard that lets it in. */
  lemma AdmittedIff(enabled: bool, maxUsdt: real, maxConcurrent: int, events: seq<Event>, id: Id)
    ensures var s := Initial(enabled, maxUsdt, maxConcurrent);
            Reached(Run(s, events), id, Known) && !Reached(Run(s, events), id, TurnedAway)
            <==> exists k: nat :: k < |events| && Admits(StateAt(s, events, k), events[k], id)
  {
    hide Step, Run, StateAt, Reached, Reaches, Admits;
    var s := Initial(enabled, maxUsdt, maxConcurrent);
    assert !Reached(s, id, Known) && !Reached(s, id, TurnedAway) by { NothingReached(s, id); }
    ReachedIff(s, events, id, Known);
    ReachedIff(s, events, id, TurnedAway);
    forall j: nat, k: nat | ReachesAt(s, events, id, Known, j) && ReachesAt(s, events, id, Known, k) ensures j == k {
      BeginsOnce(s, events, id, j, k);
    }
    forall k: nat | k < |events|
      ensures Admits(StateAt(s, events, k), events[k], id)
              <==> ReachesAt(s, events, id, Known, k) && !ReachesAt(s, events, id, TurnedAway, k)
      ensures ReachesAt(s, events, id, TurnedAway, k) ==> ReachesAt(s, events, id, Known, k)
    {
      AdmitsIs(StateAt(s, events, k), events[k], id);
    }
  }

  lemma AdmitsIs(s: System, e: Event, id: Id)
    ensures Admits(s, e, id) <==> Reaches(s, e, id, Known) && !Reaches(s, e, id, TurnedAway)
    ensures Reaches(s, e, id, TurnedAway) ==> Reaches(s, e, id, Known)
  {
  }

  lemma NothingReached(s: System, id: Id)
    requires s.attempts == map[] && s.orders == []
    ensures forall m :: !Reached(s, id, m)
  {
  }

  /** An attempt is begun at most once. */
  lemma BeginsOnce(s: System, events: seq<Event>, id: Id, j: nat, k: nat)
    requires ReachesAt(s, events, id, Known, j) && ReachesAt(s, events, id, Known, k)
    ensures j == k
  {
    if j < k { StaysKnown(s, events, id, j, k); }
    if k < j { StaysKnown(s, events, id, k, j); }
  }

  lemma {:induction false} StaysKnown(s: System, events: seq<Event>, id: Id, j: nat, k: nat)
    requires j < k <= |events| && ReachesAt(s, events, id, Known, j)
    ensures id in StateAt(s, events, k).attempts
    decreases k
  {
    hide Step, Run, StateAt, Begins;
    OneMoreEvent(s, events, k - 1);
    StationStep(StateAt(s, events, k - 1), events[k - 1], id, Known);
    if j < k - 1 { StaysKnown(s, events, id, j, k - 1); }
  }

  /** A cancelled task can leave an order behind with the switch open. */
  lemma CancelledOrderExample(r: Request)
    requires ValidExchanges(r) && 0.0 < r.notional
    ensures var s, events := Initial(true, r.notional, 1),
              [Started(0, r), QuoteArrived(0, Some(FreshQuote(true, 1.0, 1.0, None, 1.0))), TaskCancelled(0)];
            Run(s, events).orders == [0] && !Run(s, events).guard.engaged && !Explained(s, events, 0)
  {
    var e0, e1, e2 := Started(0, r), QuoteArrived(0, Some(FreshQuote(true, 1.0, 1.0, None, 1.0))), TaskCancelled(0);
    var s := Initial(true, r.notional, 1);
    var s1 := Step(s, e0);
    var s2 := Step(s1, e1);
    var events := [e0, e1, e2];
    assert Run(s, [e0]) == s1 by { assert [e0][..0] == []; }
    assert Run(s, [e0, e1]) == s2 by { assert [e0, e1][..1] == [e0]; }
    assert events[..2] == [e0, e1];
    assert LostAt(s, events, 0, 2);
    assert Run(s, events).orders == [0];
    OrderFateIff(true, r.notional, 1, events, 0);
  }

  lemma ThreeSteps(s: System, e0: Event, e1: Event, e2: Event)
    ensures Run(s, [e0, e1, e2]) == Step(Step(Step(s, e0), e1), e2)
  {
    hide Step;
    assert [e0][..0] == [] && [e0, e1][..1] == [e0] && [e0, e1, e2][..2] == [e0, e1];
    assert Run(s, [e0]) == Step(s, e0);
    assert Run(s, [e0, e1]) == Step(Step(s, e0), e1);
  }

  lemma FilledAttempt(s: System, e0: Event, e1: Event, e2: Event, r: Request, q: Option<FreshQuote>)
    requires ValidExchanges(r) && 0.0 < r.notional && s == Initial(true, r.notional, 1) && Worthwhile(q)
    requires e0 == Started(0, r) && e1 == QuoteArrived(0, q) && e2 == SubmissionReturned(0, false, 0.0)
    ensures var u := Step(Step(Step(s, e0), e1), e2);
            In(u, 0, Polling) && u.orders == [0] && !u.guard.engaged
  {
  }

  lemma PolledAttempt(u: System, e3: Event, e4: Event, fill: Fill)
    requires In(u, 0, Polling) && u.orders == [0] && !u.guard.engaged
    requires 0.0 < fill.grossQuantity && fill.feeAsset.None?
    requires e3 == PollingEnded(0, [Polled(OrderStatus(true, fill))], 0.0)
    requires e4 == RequoteArrived(0, Some(FreshQuote(true, 1.0, 1.0, None, 1.0)))
    ensures Raises(Step(u, e3), e4, 0)
    ensures Step(Step(u, e3), e4).orders == [0] && !Step(Step(u, e3), e4).guard.engaged
  {
    assert FirstTerminal(e3.polls) == Some(fill);
  }

  /** So can a fill on a sell market that publishes no minimum notional: sizing what was bought raises. */
  lemma RaisedOrderExample(r: Request, fill: Fill)
    requires ValidExchanges(r) && 0.0 < r.notional && 0.0 < fill.grossQuantity && fill.feeAsset.None?
    ensures var q := Some(FreshQuote(true, 1.0, 1.0, None, 1.0));
            var s, events := Initial(true, r.notional, 1),
              [Started(0, r), QuoteArrived(0, q), SubmissionReturned(0, false, 0.0),
               PollingEnded(0, [Polled(OrderStatus(true, fill))], 0.0), RequoteArrived(0, q)];
            Run(s, events).orders == [0] && !Run(s, events).guard.engaged && !Explained(s, events, 0)
  {
    var q := Some(FreshQuote(true, 1.0, 1.0, None, 1.0));
    var e0, e1, e2, e3, e4 := Started(0, r), QuoteArrived(0, q), SubmissionReturned(0, false, 0.0),
      PollingEnded(0, [Polled(OrderStatus(true, fill))], 0.0), RequoteArrived(0, q);
    var s, events := Initial(true, r.notional, 1), [e0, e1, e2, e3, e4];
    var u := Step(Step(Step(s, e0), e1), e2);
    FilledAttempt(s, e0, e1, e2, r, q);
    ThreeSteps(s, e0, e1, e2);
    var w := Step(u, e3);
    assert Run(s, [e0, e1, e2, e3]) == w by { assert [e0, e1, e2, e3][..3] == [e0, e1, e2]; }
    assert events[..4] == [e0, e1, e2, e3];
    assert StateAt(s, events, 4) == w;
    PolledAttempt(u, e3, e4, fill);
    assert Run(s, events) == Step(w, e4);
    hide Step, Run, StateAt;
    assert LostAt(s, events, 0, 4);
    OrderFateIff(true, r.notional, 1, events, 0);
  }
}
