/**
 How many funding payments a position crosses (`funding_events_crossed` in
 app/engines/funding.py).
 */
module Funding {
  import opened RealMath

  const FUNDING_INTERVAL_SECONDS := 28800.0
  const FUNDING_EPSILON := 0.000001

  function FundingEventsCrossed(nextFunding: real, now: real, hold: real): int {
    var toFirst := Max(0.0, nextFunding - now);
    var remaining := hold - toFirst;
    if remaining <= 0.0 then 0
    else 1 + ((remaining - FUNDING_EPSILON) / FUNDING_INTERVAL_SECONDS).Floor
  }

  /** Seconds from now to payment number `k`, counted from zero. */
  function PaymentAt(nextFunding: real, now: real, k: int): real {
    Max(0.0, nextFunding - now) + k as real * FUNDING_INTERVAL_SECONDS
  }

  /** The closed form numbers exactly the payments due an epsilon or more before the end of the hold. */
  lemma CrossedPayments(nextFunding: real, now: real, hold: real, k: nat)
    ensures 0 <= FundingEventsCrossed(nextFunding, now, hold)
    ensures k < FundingEventsCrossed(nextFunding, now, hold)
            <==> PaymentAt(nextFunding, now, k) <= hold - FUNDING_EPSILON
  {
    var toFirst := Max(0.0, nextFunding - now);
    var remaining := hold - toFirst;
    if 0.0 < remaining {
      var x := (remaining - FUNDING_EPSILON) / FUNDING_INTERVAL_SECONDS;
      QuotientBound(remaining - FUNDING_EPSILON, FUNDING_INTERVAL_SECONDS, k as real);
      QuotientBound(remaining - FUNDING_EPSILON, FUNDING_INTERVAL_SECONDS, -1.0);
      assert k < 1 + x.Floor <==> k as real <= x;
    }
  }

  /** Indices below `n` of the payments that fall inside the hold. */
  ghost function Due(nextFunding: real, now: real, hold: real, n: nat): set<int> {
    set k | 0 <= k < n && PaymentAt(nextFunding, now, k) <= hold - FUNDING_EPSILON
  }

  /** As a count: the closed form is how many payments fall inside the hold. */
  lemma {:induction false} CrossedIsACount(nextFunding: real, now: real, hold: real, n: nat)
    ensures var crossed := FundingEventsCrossed(nextFunding, now, hold);
            |Due(nextFunding, now, hold, n)| == if n <= crossed then n else crossed
  {
    CrossedPayments(nextFunding, now, hold, 0);
    if n > 0 {
      CrossedIsACount(nextFunding, now, hold, n - 1);
      CrossedPayments(nextFunding, now, hold, n - 1);
      hide FundingEventsCrossed, PaymentAt;
      assert Due(nextFunding, now, hold, n)
          == Due(nextFunding, now, hold, n - 1)
             + (if n - 1 < FundingEventsCrossed(nextFunding, now, hold) then {n - 1} else {});
    }
  }

  /** "Strictly before the close" is what is counted, except for a payment in the last microsecond. */
  lemma StrictCountIff(nextFunding: real, now: real, hold: real)
    ensures (forall k: nat ::
               k < FundingEventsCrossed(nextFunding, now, hold) <==> PaymentAt(nextFunding, now, k) < hold)
            <==> !exists k: nat :: hold - FUNDING_EPSILON < PaymentAt(nextFunding, now, k) < hold
  {
    forall k: nat
      ensures k < FundingEventsCrossed(nextFunding, now, hold)
              <==> PaymentAt(nextFunding, now, k) <= hold - FUNDING_EPSILON
    {
      CrossedPayments(nextFunding, now, hold, k);
    }
  }

  /** A payment due now is missed by a hold of half a microsecond. */
  lemma LastMicrosecondExample()
    ensures PaymentAt(0.0, 0.0, 0) < 0.0000005 && FundingEventsCrossed(0.0, 0.0, 0.0000005) == 0
  {
    CrossedPayments(0.0, 0.0, 0.0000005, 0);
  }
}
