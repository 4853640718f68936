/**
 One inventory purchase (`constitute_inventory` in
 app/execution/inventory_constitution_executor.py), cut at its await points.

 Between two awaits nothing else runs, so each segment is one atomic step on
 the attempt and the shared guard. The functions specify the segments; the
 class performs them in place.
 */
module ConstitutionAttempt {
  import opened Fees
  import opened RealMath
  import opened InventoryGuard
  import Sizing

  datatype Request = Request(baseAsset: string, buyExchange: string, sellExchange: string, notional: real)

  /** Terminal status fields the executor reads. */
  datatype Fill = Fill(grossQuantity: real, feeAsset: Option<string>, feeAmount: real)

  datatype OrderStatus = OrderStatus(terminal: bool, fill: Fill)

  /** One poll: it raised, found no order, or returned a status. */
  datatype Poll = PollRaised | NoOrder | Polled(status: OrderStatus)

  /** A fresh arbitrage quote with the sell market it was computed from. */
  datatype FreshQuote = FreshQuote(
    executable: bool, netProfit: real, sellBid: real, sellMinNotional: Option<real>, sellStep: real)

  datatype Outcome = Refused(refusal: Refusal) | EdgeInsufficient | NoFill | Filled | Unknown

  /**
   Where the attempt is suspended, or how it ended. `Cancelled` is a task
   cancelled at an await, `Raised` one that an exception left after the fill.
   */
  datatype Phase = Quoting | Submitting | Polling | Requoting | Ended(outcome: Outcome) | Cancelled | Raised

  datatype Attempt = Attempt(
    request: Request, phase: Phase, submitted: bool,
    grossQuantity: real, netQuantity: real, maxSafeNotional: real, ready: bool)
  {
    /** Between register_operation_start and register_operation_end. */
    predicate Registered() {
      !phase.Ended? && !phase.Cancelled? && !phase.Raised?
    }
  }

  predicate ValidExchanges(r: Request) {
    r.buyExchange in EXCHANGES && r.sellExchange in EXCHANGES && r.buyExchange != r.sellExchange
  }

  function NewAttempt(r: Request, phase: Phase): Attempt {
    Attempt(r, phase, false, 0.0, 0.0, 0.0, false)
  }

  // ----- The segments.

  /** Up to the first await: guard check and registration, with nothing in between. */
  function Begin(g: Guard, r: Request): (Guard, Attempt) {
    match Admission(g, r.sellExchange, r.notional)
    case Some(refusal) => (g, NewAttempt(r, Ended(Refused(refusal))))
    case None => (RegisterStart(g), NewAttempt(r, Quoting))
  }

  predicate Worthwhile(q: Option<FreshQuote>) {
    q.Some? && q.value.executable && 0.0 < q.value.netProfit
  }

  /** The pre-purchase quote arrived: give up, or hand the order to the exchange. */
  function OnQuote(g: Guard, a: Attempt, q: Option<FreshQuote>): (Guard, Attempt) {
    if !Worthwhile(q) then (RegisterEnd(g), a.(phase := Ended(EdgeInsufficient)))
    else (g, a.(phase := Submitting, submitted := true))
  }

  /** The submission call returned or raised. */
  function OnSubmitted(g: Guard, a: Attempt, raised: bool, now: real): (Guard, Attempt) {
    if raised then (RegisterEnd(Engage(g, "submission raised an ambiguous error", now)), a.(phase := Ended(Unknown)))
    else (g, a.(phase := Polling))
  }

  /** First terminal status among the polls made before the deadline. */
  function FirstTerminal(polls: seq<Poll>): Option<Fill> {
    if polls == [] then None
    else if polls[0].Polled? && polls[0].status.terminal then Some(polls[0].status.fill)
    else FirstTerminal(polls[1..])
  }

  /** Poll `i` reports this fill as terminal, and none before it is terminal. */
  predicate FirstTerminalAt(polls: seq<Poll>, f: Fill, i: nat) {
    && i < |polls| && polls[i].Polled? && polls[i].status.terminal && polls[i].status.fill == f
    && forall j: nat | j < i :: !(polls[j].Polled? && polls[j].status.terminal)
  }

  lemma {:induction false} FirstTerminalIsFirst(polls: seq<Poll>, f: Fill)
    ensures FirstTerminal(polls) == Some(f) <==> exists i: nat :: FirstTerminalAt(polls, f, i)
  {
    if polls != [] {
      FirstTerminalIsFirst(polls[1..], f);
      if polls[0].Polled? && polls[0].status.terminal {
        if FirstTerminal(polls) == Some(f) { assert FirstTerminalAt(polls, f, 0); }
      } else {
        if i: nat :| FirstTerminalAt(polls[1..], f, i) { assert FirstTerminalAt(polls, f, i + 1); }
        if i: nat :| FirstTerminalAt(polls, f, i) {
          assert polls[1..][i - 1] == polls[i];
          assert forall j: nat | j < i - 1 :: polls[1..][j] == polls[j + 1];
          assert FirstTerminalAt(polls[1..], f, i - 1);
        }
      }
    }
  }

  /** Polling ended: timeout, zero fill, or a fill that is quoted again. */
  function OnPolled(g: Guard, a: Attempt, polls: seq<Poll>, now: real): (Guard, Attempt) {
    match FirstTerminal(polls)
    case None => (RegisterEnd(Engage(g, "status unknown after timeout", now)), a.(phase := Ended(Unknown)))
    case Some(f) =>
      var net := Sizing.NetBaseQuantityAfterFee(f.grossQuantity, f.feeAsset, f.feeAmount, a.request.baseAsset);
      var recorded := a.(grossQuantity := f.grossQuantity, netQuantity := net);
      if f.grossQuantity <= 0.0 then (RegisterEnd(g), recorded.(phase := Ended(NoFill)))
      else (g, recorded.(phase := Requoting))
  }

  /** Notional that the net holding supports on the sell market of the quote; None where sizing it raises. */
  function SafeNotional(a: Attempt, f: FreshQuote): Option<real> {
    Sizing.ComputeMaxSafeNotional(a.netQuantity, f.sellBid, a.request.notional, f.sellMinNotional, f.sellStep)
  }

  /** The post-fill quote arrived: size what the holding supports and report readiness. */
  function OnRequoted(g: Guard, a: Attempt, q: Option<FreshQuote>): (Guard, Attempt) {
    var safe := if q.Some? then SafeNotional(a, q.value) else Some(0.0);
    if safe.None? then (RegisterEnd(g), a.(phase := Raised))
    else
      (RegisterEnd(g),
       a.(phase := Ended(Filled), maxSafeNotional := safe.value, ready := Worthwhile(q) && 0.0 < safe.value))
  }

  /** Cancelled while suspended: only the `finally` clause runs. */
  function OnCancelled(g: Guard, a: Attempt): (Guard, Attempt) {
    (RegisterEnd(g), a.(phase := Cancelled))
  }

  /** `polls` are what the loop observes before its deadline. */
  method AwaitTerminal(polls: seq<Poll>) returns (reached: bool, last: Option<OrderStatus>)
    ensures reached <==> FirstTerminal(polls).Some?
    ensures reached ==> last.Some? && last.value.terminal && FirstTerminal(polls) == Some(last.value.fill)
    ensures reached <==> exists p <- polls :: p.Polled? && p.status.terminal
    ensures !reached && polls != [] ==>
              last == match polls[|polls| - 1] case Polled(s) => Some(s) case _ => None
  {
    last := None;
    for i := 0 to |polls|
      invariant FirstTerminal(polls) == FirstTerminal(polls[i..])
      invariant forall j :: 0 <= j < i ==> !(polls[j].Polled? && polls[j].status.terminal)
      invariant 0 < i ==> last == match polls[i - 1] case Polled(s) => Some(s) case _ => None
    {
      assert polls[i..][0] == polls[i] && polls[i..][1..] == polls[i + 1..];
      match polls[i] {
        case Polled(s) => last := Some(s);
        case _ => last := None;
      }
      if last.Some? && last.value.terminal {
        assert polls[i] in polls;
        return true, last;
      }
    }
    reached := false;
  }

  /** The attempt as the executor runs it: the same segments, on a shared guard object. */
  class InventoryAttempt {
    const guard: InventoryConstitutionGuard
    const request: Request
    var phase: Phase
    var submitted: bool
    var grossQuantity: real
    var netQuantity: real
    var maxSafeNotional: real
    var ready: bool

    function View(): Attempt
      reads this
    {
      Attempt(request, phase, submitted, grossQuantity, netQuantity, maxSafeNotional, ready)
    }

    constructor (guard: InventoryConstitutionGuard, request: Request)
      modifies guard
      ensures this.guard == guard
      ensures (guard.View(), View()) == Begin(old(guard.View()), request)
      ensures this.request == request && !submitted && !ready && grossQuantity == netQuantity == maxSafeNotional == 0.0
      ensures phase == Quoting
              <==> && !old(guard.killSwitchEngaged) && guard.enabled && request.sellExchange in {"binance", "bybit"}
                   && 0.0 < request.notional <= guard.maxUsdtPerAsset
                   && old(guard.inFlightCount) < guard.maxConcurrentOperations
      ensures phase != Quoting ==> phase.Ended? && phase.outcome.Refused?
      ensures guard.inFlightCount == old(guard.inFlightCount) + if phase == Quoting then 1 else 0
      ensures guard.killSwitchEngaged == old(guard.killSwitchEngaged)
    {
      this.guard := guard;
      this.request := request;
      phase := Quoting;
      submitted := false;
      grossQuantity, netQuantity, maxSafeNotional, ready := 0.0, 0.0, 0.0, false;
      new;
      var refusal := guard.AssertInventoryConstitutionAllowed(request.sellExchange, request.notional);
      if refusal.Some? {
        phase := Ended(Refused(refusal.value));
      } else {
        guard.RegisterOperationStart();
      }
    }

    method QuoteArrived(quote: Option<FreshQuote>)
      requires phase == Quoting
      modifies this, guard
      ensures (guard.View(), View()) == OnQuote(old(guard.View()), old(View()), quote)
      ensures phase == if quote.Some? && quote.value.executable && 0.0 < quote.value.netProfit
                       then Submitting else Ended(EdgeInsufficient)
      ensures submitted == (old(submitted) || phase == Submitting)
      ensures guard.killSwitchEngaged == old(guard.killSwitchEngaged)
      ensures phase == Submitting ==> guard.inFlightCount == old(guard.inFlightCount)
    {
      if quote.None? || !quote.value.executable || quote.value.netProfit <= 0.0 {
        phase := Ended(EdgeInsufficient);
        guard.RegisterOperationEnd();
        return;
      }
      submitted := true;
      phase := Submitting;
    }

    method SubmissionReturned(raised: bool, now: real)
      requires phase == Submitting
      modifies this, guard
      ensures (guard.View(), View()) == OnSubmitted(old(guard.View()), old(View()), raised, now)
      ensures phase == (if raised then Ended(Unknown) else Polling) && submitted == old(submitted)
      ensures guard.killSwitchEngaged == (raised || old(guard.killSwitchEngaged))
    {
      if raised {
        guard.EngageKillSwitch("submission raised an ambiguous error", now);
        phase := Ended(Unknown);
        guard.RegisterOperationEnd();
        return;
      }
      phase := Polling;
    }

    method PollingEnded(polls: seq<Poll>, now: real)
      requires phase == Polling
      modifies this, guard
      ensures (guard.View(), View()) == OnPolled(old(guard.View()), old(View()), polls, now)
      ensures forall f, i: nat | FirstTerminalAt(polls, f, i) ::
                && phase == (if f.grossQuantity <= 0.0 then Ended(NoFill) else Requoting)
                && grossQuantity == f.grossQuantity
                && (f.feeAsset != Some(request.baseAsset) ==> netQuantity == f.grossQuantity)
                && guard.killSwitchEngaged == old(guard.killSwitchEngaged)
      ensures (forall i: nat | i < |polls| :: !(polls[i].Polled? && polls[i].status.terminal)) ==>
                phase == Ended(Unknown) && guard.killSwitchEngaged
    {
      var reached, status := AwaitTerminal(polls);
      forall f, i: nat | FirstTerminalAt(polls, f, i) ensures FirstTerminal(polls) == Some(f) {
        FirstTerminalIsFirst(polls, f);
      }
      if !reached || status.None? {
        guard.EngageKillSwitch("status unknown after timeout", now);
        phase := Ended(Unknown);
        guard.RegisterOperationEnd();
        return;
      }
      var f := status.value.fill;
      grossQuantity := f.grossQuantity;
      netQuantity := Sizing.NetBaseQuantityAfterFee(f.grossQuantity, f.feeAsset, f.feeAmount, request.baseAsset);
      if grossQuantity <= 0.0 {
        phase := Ended(NoFill);
        guard.RegisterOperationEnd();
        return;
      }
      phase := Requoting;
    }

    method RequoteArrived(quote: Option<FreshQuote>)
      requires phase == Requoting
      modifies this, guard
      ensures (guard.View(), View()) == OnRequoted(old(guard.View()), old(View()), quote)
      ensures phase == Raised
              <==> quote.Some? && quote.value.sellMinNotional.None? && 0.0 < quote.value.sellBid && 0.0 < netQuantity
      ensures phase != Raised ==> phase == Ended(Filled)
      ensures phase == Ended(Filled) ==>
                (ready <==>
                   && quote.Some? && quote.value.executable && 0.0 < quote.value.netProfit
                   && 0.0 < maxSafeNotional)
      ensures guard.killSwitchEngaged == old(guard.killSwitchEngaged)
    {
      var stillValid, safe := false, Some(0.0);
      if quote.Some? {
        var f := quote.value;
        stillValid := f.executable && 0.0 < f.netProfit;
        safe := SafeNotional(View(), f);
      }
      if safe.None? {
        phase := Raised;
        guard.RegisterOperationEnd();
        return;
      }
      maxSafeNotional := safe.value;
      ready := stillValid && 0.0 < maxSafeNotional;
      phase := Ended(Filled);
      guard.RegisterOperationEnd();
    }

    method Cancel()
      requires View().Registered()
      modifies this, guard
      ensures (guard.View(), View()) == OnCancelled(old(guard.View()), old(View()))
      ensures phase == Cancelled && submitted == old(submitted)
      ensures guard.killSwitchEngaged == old(guard.killSwitchEngaged)
    {
      phase := Cancelled;
      guard.RegisterOperationEnd();
    }
  }

  /** A ready attempt has a live edge and a notional within its cap, the exchange minimum and its net holding. */
  lemma ReadyIsBacked(g: Guard, a: Attempt, q: Option<FreshQuote>)
    requires !a.ready && OnRequoted(g, a, q).1.ready
    ensures q.Some? && q.value.executable && 0.0 < q.value.netProfit
    ensures var safe := OnRequoted(g, a, q).1.maxSafeNotional;
            && q.value.sellMinNotional.Some? && 0.0 < safe
            && q.value.sellMinNotional.value <= safe <= a.request.notional
            && Sizing.RequestedAt(safe, q.value.sellBid) <= Sizing.RoundDownToStep(a.netQuantity, q.value.sellStep)
  {
    var f := q.value;
    Sizing.SafeNotionalIsSafe(a.netQuantity, f.sellBid, a.request.notional, f.sellMinNotional, f.sellStep);
  }

  /** Sizing the holding raises exactly when the sell market publishes no minimum and there is something to sell. */
  lemma RequoteRaisesIff(g: Guard, a: Attempt, q: Option<FreshQuote>)
    requires a.phase == Requoting
    ensures OnRequoted(g, a, q).1.phase == Raised
            <==> q.Some? && q.value.sellMinNotional.None? && 0.0 < q.value.sellBid && 0.0 < a.netQuantity
  {
  }

  /** After the fill an attempt is ready exactly when the edge lives on and some notional fits the net holding. */
  lemma ReadyIff(g: Guard, a: Attempt, q: Option<FreshQuote>)
    requires OnRequoted(g, a, q).1.phase == Ended(Filled)
    ensures OnRequoted(g, a, q).1.ready
            <==> && q.Some? && q.value.executable && 0.0 < q.value.netProfit
                 && 0.0 < a.netQuantity && 0.0 < q.value.sellBid && q.value.sellMinNotional.Some?
                 && Sizing.SomeNotionalFits(a.netQuantity, q.value.sellBid, a.request.notional,
                                            q.value.sellMinNotional.value, q.value.sellStep)
  {
    if q.Some? && 0.0 < a.netQuantity && 0.0 < q.value.sellBid && q.value.sellMinNotional.Some? {
      var f := q.value;
      Sizing.SafeNotionalPositiveIff(
        a.netQuantity, f.sellBid, a.request.notional, f.sellMinNotional.value, f.sellStep);
    }
  }
}
