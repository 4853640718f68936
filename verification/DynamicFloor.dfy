/**
 The dynamic reserve floor (app/execution/dynamic_reserve_floor.py) and what it
 means for the exchanges together.
 */
module DynamicFloor {
  import opened RealMath

  /** One exchange's own figures. */
  datatype Usage = Usage(maxNotional: real, minNotional: real, buys: nat, sells: nat)

  /** Figures shared by every exchange. */
  datatype Policy = Policy(
    safetyMultiplier: real, minMultiple: real, maxShare: real, imbalanceCap: real, totalCapital: real, exchanges: int)

  function AtLeastOne(n: int): int {
    if n < 1 then 1 else n
  }

  function StructuralMinimum(p: Policy, u: Usage): real {
    p.minMultiple * u.minNotional
  }

  function ImbalanceFactor(p: Policy, u: Usage): real {
    Max(1.0, Min(p.imbalanceCap, u.buys as real / AtLeastOne(u.sells) as real))
  }

  function OperatingBuffer(p: Policy, u: Usage): real {
    Times(p.safetyMultiplier * u.maxNotional, ImbalanceFactor(p, u))
  }

  function EqualShareCap(p: Policy): real {
    p.totalCapital / AtLeastOne(p.exchanges) as real * p.maxShare
  }

  function Floor(p: Policy, u: Usage): real {
    var structural, buffer := StructuralMinimum(p, u), OperatingBuffer(p, u);
    Min(Max(structural, buffer), Max(EqualShareCap(p), structural))
  }

  datatype Binding = Structural | Operating | ShareCap

  function BindingComponent(p: Policy, u: Usage): Binding {
    if Floor(p, u) == StructuralMinimum(p, u) && StructuralMinimum(p, u) >= OperatingBuffer(p, u) then Structural
    else if Floor(p, u) < OperatingBuffer(p, u) then ShareCap
    else Operating
  }

  /** The floor is the buffer held between the structural minimum and the cap; the label names the bound that set it. */
  lemma FloorIsClamped(p: Policy, u: Usage)
    ensures var f, s, b, c := Floor(p, u), StructuralMinimum(p, u), OperatingBuffer(p, u), EqualShareCap(p);
            && s <= f <= Max(s, c)
            && (s <= b <= c ==> f == b)
            && match BindingComponent(p, u)
               case Structural => f == s && b <= s
               case ShareCap => f == Max(c, s) < b
               case Operating => f == b && s < b
  {
    hide StructuralMinimum, OperatingBuffer, EqualShareCap;
  }

  /** The two bounds and the buffer in the policy's own numbers. */
  lemma ComponentsAre(p: Policy, u: Usage)
    requires 0 < p.exchanges
    ensures StructuralMinimum(p, u) == p.minMultiple * u.minNotional
    ensures EqualShareCap(p) * p.exchanges as real == p.maxShare * p.totalCapital
    ensures OperatingBuffer(p, u) == p.safetyMultiplier * u.maxNotional * ImbalanceFactor(p, u)
  {
    var x := p.exchanges as real;
    DivMul(p.totalCapital, x);
    var each := p.totalCapital / x;
    assert each * p.maxShare * x == (each * x) * p.maxShare;
    hide ImbalanceFactor;
  }

  /**
   The imbalance is buys per sell, no sells counting as one; it never lowers the
   buffer and never raises it beyond the cap.
   */
  lemma ImbalanceIs(p: Policy, u: Usage)
    ensures var factor, sells := ImbalanceFactor(p, u), if u.sells == 0 then 1.0 else u.sells as real;
            var buys := u.buys as real;
            && (buys <= sells ==> factor == 1.0)
            && (p.imbalanceCap <= 1.0 ==> factor == 1.0)
            && (sells <= buys <= p.imbalanceCap * sells ==> factor * sells == buys)
            && (1.0 <= p.imbalanceCap && p.imbalanceCap * sells <= buys ==> factor == p.imbalanceCap)
  {
    var sells, buys := if u.sells == 0 then 1.0 else u.sells as real, u.buys as real;
    assert AtLeastOne(u.sells) as real == sells;
    DivMul(buys, sells);
    QuotientBound(buys, sells, 1.0);
    QuotientBound(buys, sells, p.imbalanceCap);
  }

  lemma ImbalanceMonotone(p: Policy, u: Usage, w: Usage)
    requires u.buys <= w.buys && w.sells <= u.sells
    ensures ImbalanceFactor(p, u) <= ImbalanceFactor(p, w)
  {
    QuotientMonotone(u.buys as real, AtLeastOne(u.sells) as real, w.buys as real, AtLeastOne(w.sells) as real);
  }

  lemma QuotientsCompare(a: real, b: real, c: real, d: real)
    requires 0.0 < b && 0.0 < d && Times(a, d) <= Times(c, b)
    ensures a / b <= c / d
  {
    DivLeq(a, b, c, d);
  }

  lemma QuotientMonotone(a: real, b: real, c: real, d: real)
    requires 0.0 <= a <= c && 0.0 < d <= b
    ensures a / b <= c / d
  {
    hide Times;
    TimesMono(a, c, d);
    TimesMono(d, b, c);
    TimesComm(c, d);
    QuotientsCompare(a, b, c, d);
  }

  lemma BufferMonotone(p: Policy, u: Usage, w: Usage)
    requires 0.0 <= p.safetyMultiplier && 0.0 <= u.maxNotional == w.maxNotional
    requires ImbalanceFactor(p, u) <= ImbalanceFactor(p, w)
    ensures OperatingBuffer(p, u) <= OperatingBuffer(p, w)
  {
    MulMono(0.0, u.maxNotional, p.safetyMultiplier);
    hide ImbalanceFactor, Times;
    TimesMono(ImbalanceFactor(p, u), ImbalanceFactor(p, w), p.safetyMultiplier * u.maxNotional);
  }

  /** More buying or less selling never lowers an exchange's floor. */
  lemma FloorMonotone(p: Policy, u: Usage, w: Usage)
    requires 0.0 <= p.safetyMultiplier && 0.0 <= u.maxNotional
    requires w.maxNotional == u.maxNotional && w.minNotional == u.minNotional
    requires u.buys <= w.buys && w.sells <= u.sells
    ensures Floor(p, u) <= Floor(p, w)
  {
    ImbalanceMonotone(p, u, w);
    BufferMonotone(p, u, w);
    assert StructuralMinimum(p, u) == StructuralMinimum(p, w);
    hide ImbalanceFactor, OperatingBuffer, EqualShareCap, StructuralMinimum;
  }

  function TotalFloor(p: Policy, us: seq<Usage>): real {
    if us == [] then 0.0 else Floor(p, us[0]) + TotalFloor(p, us[1..])
  }

  /** What structural minimums demand beyond the equal-share cap. */
  function Excess(p: Policy, us: seq<Usage>): real {
    if us == [] then 0.0 else Max(0.0, StructuralMinimum(p, us[0]) - EqualShareCap(p)) + Excess(p, us[1..])
  }

  function Caps(p: Policy, n: nat): real {
    n as real * EqualShareCap(p)
  }

  lemma CapsStep(p: Policy, n: nat)
    ensures Caps(p, n + 1) == Caps(p, n) + EqualShareCap(p) && Caps(p, 0) == 0.0
  {
    hide EqualShareCap;
    assert (n + 1) as real == n as real + 1.0;
  }

  lemma {:induction false} FloorsWithinCaps(p: Policy, us: seq<Usage>)
    ensures TotalFloor(p, us) <= Caps(p, |us|) + Excess(p, us)
  {
    hide Floor, StructuralMinimum, EqualShareCap, Caps, OperatingBuffer;
    CapsStep(p, 0);
    if us != [] {
      FloorsWithinCaps(p, us[1..]);
      FloorIsClamped(p, us[0]);
      CapsStep(p, |us[1..]|);
    }
  }

  lemma CapsAreTheShare(p: Policy, n: nat)
    requires 0 < n && p.exchanges == n
    ensures Caps(p, n) == p.maxShare * p.totalCapital
  {
    var x := n as real;
    DivMul(p.totalCapital, x);
    var each := p.totalCapital / x;
    assert x * (each * p.maxShare) == (each * x) * p.maxShare;
  }

  /** The exchanges' floors together reserve at most the share of total capital, plus what structural minimums force. */
  lemma FloorsShareTotalCapital(p: Policy, us: seq<Usage>)
    requires us != [] && p.exchanges == |us|
    ensures TotalFloor(p, us) <= p.maxShare * p.totalCapital + Excess(p, us)
  {
    hide Floor, StructuralMinimum, EqualShareCap, Caps, TotalFloor, Excess;
    FloorsWithinCaps(p, us);
    CapsAreTheShare(p, |us|);
  }
}
