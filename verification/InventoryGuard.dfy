/**
 The admission guard of app/execution/inventory_guard.py: a kill switch, a
 per-purchase cap and a counter of operations in flight.

 `Guard` is the guard as a value, with one function per operation; the class
 keeps the same fields and updates them in place.
 */
module InventoryGuard {
  import opened Fees

  datatype Guard = Guard(
    enabled: bool, maxUsdtPerAsset: real, maxConcurrent: int,
    inFlight: int, engaged: bool, reason: Option<string>, engagedAt: Option<real>)

  datatype Refusal = KillSwitch(reason: Option<string>) | Disabled | UnknownExchange | NotPositive | AboveCap | TooMany

  const EXCHANGES := {"binance", "bybit"}

  function NewGuard(enabled: bool, maxUsdtPerAsset: real, maxConcurrent: int): Guard {
    Guard(enabled, maxUsdtPerAsset, maxConcurrent, 0, false, None, None)
  }

  function Engage(g: Guard, reason: string, now: real): Guard {
    g.(engaged := true, reason := Some(reason), engagedAt := Some(now))
  }

  function Disengage(g: Guard): Guard {
    g.(engaged := false, reason := None, engagedAt := None)
  }

  /** Why a purchase is refused, in the order the checks are made; none when it may proceed. */
  function Admission(g: Guard, sellExchange: string, requested: real): (r: Option<Refusal>)
    ensures r.None? <==>
              && !g.engaged && g.enabled && sellExchange in EXCHANGES
              && 0.0 < requested <= g.maxUsdtPerAsset && g.inFlight < g.maxConcurrent
    ensures g.engaged <==> r.Some? && r.value.KillSwitch?
    ensures g.engaged ==> r == Some(KillSwitch(g.reason))
    ensures !g.engaged ==> (r == Some(Disabled) <==> !g.enabled)
    ensures !g.engaged && g.enabled ==>
              (r == Some(UnknownExchange) <==> sellExchange != "binance" && sellExchange != "bybit")
    ensures r == Some(NotPositive) ==> requested <= 0.0
    ensures r == Some(AboveCap) ==> 0.0 < requested && g.maxUsdtPerAsset < requested
    ensures r == Some(TooMany) ==> 0.0 < requested <= g.maxUsdtPerAsset && g.maxConcurrent <= g.inFlight
  {
    if g.engaged then Some(KillSwitch(g.reason))
    else if !g.enabled then Some(Disabled)
    else if sellExchange !in EXCHANGES then Some(UnknownExchange)
    else if requested <= 0.0 then Some(NotPositive)
    else if requested > g.maxUsdtPerAsset then Some(AboveCap)
    else if g.inFlight >= g.maxConcurrent then Some(TooMany)
    else None
  }

  function RegisterStart(g: Guard): Guard {
    g.(inFlight := g.inFlight + 1)
  }

  function RegisterEnd(g: Guard): Guard {
    g.(inFlight := if g.inFlight - 1 > 0 then g.inFlight - 1 else 0)
  }

  class InventoryConstitutionGuard {
    const enabled: bool
    const maxUsdtPerAsset: real
    const maxConcurrentOperations: int
    var inFlightCount: int
    var killSwitchEngaged: bool
    var killSwitchReason: Option<string>
    var killSwitchAt: Option<real>

    function View(): Guard
      reads this
    {
      Guard(enabled, maxUsdtPerAsset, maxConcurrentOperations, inFlightCount, killSwitchEngaged, killSwitchReason,
            killSwitchAt)
    }

    constructor (enabled: bool, maxUsdtPerAsset: real, maxConcurrentOperations: int)
      ensures View() == NewGuard(enabled, maxUsdtPerAsset, maxConcurrentOperations)
      ensures this.enabled == enabled && this.maxUsdtPerAsset == maxUsdtPerAsset
      ensures maxConcurrentOperations == this.maxConcurrentOperations && inFlightCount == 0
      ensures !killSwitchEngaged && killSwitchReason == None && killSwitchAt == None
    {
      this.enabled := enabled;
      this.maxUsdtPerAsset := maxUsdtPerAsset;
      this.maxConcurrentOperations := maxConcurrentOperations;
      inFlightCount := 0;
      killSwitchEngaged := false;
      killSwitchReason := None;
      killSwitchAt := None;
    }

    method EngageKillSwitch(reason: string, now: real)
      modifies this
      ensures View() == Engage(old(View()), reason, now)
      ensures killSwitchEngaged && killSwitchReason == Some(reason) && killSwitchAt == Some(now)
      ensures inFlightCount == old(inFlightCount)
    {
      killSwitchEngaged := true;
      killSwitchReason := Some(reason);
      killSwitchAt := Some(now);
    }

    method DisengageKillSwitch()
      modifies this
      ensures View() == Disengage(old(View()))
      ensures !killSwitchEngaged && killSwitchReason == None && killSwitchAt == None
      ensures inFlightCount == old(inFlightCount)
    {
      killSwitchEngaged := false;
      killSwitchReason := None;
      killSwitchAt := None;
    }

    method AssertInventoryConstitutionAllowed(sellExchange: string, requestedUsdt: real)
      returns (refusal: Option<Refusal>)
      ensures refusal == Admission(View(), sellExchange, requestedUsdt)
    {
      if killSwitchEngaged { return Some(KillSwitch(killSwitchReason)); }
      if !enabled { return Some(Disabled); }
      if sellExchange !in EXCHANGES { return Some(UnknownExchange); }
      if requestedUsdt <= 0.0 { return Some(NotPositive); }
      if requestedUsdt > maxUsdtPerAsset { return Some(AboveCap); }
      if inFlightCount >= maxConcurrentOperations { return Some(TooMany); }
      return None;
    }

    method RegisterOperationStart()
      modifies this
      ensures View() == RegisterStart(old(View()))
      ensures inFlightCount == old(inFlightCount) + 1
      ensures unchanged(`killSwitchEngaged, `killSwitchReason, `killSwitchAt)
    {
      inFlightCount := inFlightCount + 1;
    }

    method RegisterOperationEnd()
      modifies this
      ensures View() == RegisterEnd(old(View()))
      ensures 0 < old(inFlightCount) ==> inFlightCount == old(inFlightCount) - 1
      ensures old(inFlightCount) <= 0 ==> inFlightCount == 0
      ensures unchanged(`killSwitchEngaged, `killSwitchReason, `killSwitchAt)
    {
      inFlightCount := if inFlightCount - 1 > 0 then inFlightCount - 1 else 0;
    }
  }
}
