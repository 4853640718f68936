/**
 Real arithmetic that the models share. Prices, quantities and balances are
 `real`; the lemmas here are the few facts about products and quotients that
 the solver does not find on its own.
 */
module RealMath {

  function Min(x: real, y: real): real {
    if x <= y then x else y
  }

  function Max(x: real, y: real): real {
    if x >= y then x else y
  }

  function Sum(xs: seq<real>): real {
    if xs == [] then 0.0 else xs[0] + Sum(xs[1..])
  }

  lemma {:induction false} SumAppend(xs: seq<real>, ys: seq<real>)
    ensures Sum(xs + ys) == Sum(xs) + Sum(ys)
  {
    if xs == [] {
      assert xs + ys == ys;
    } else {
      assert (xs + ys)[1..] == xs[1..] + ys;
      SumAppend(xs[1..], ys);
    }
  }

  lemma MulMono(x: real, y: real, k: real)
    requires x <= y && 0.0 <= k
    ensures k * x <= k * y && x * k <= y * k
  {
  }

  lemma MulStrict(x: real, y: real, k: real)
    requires x < y && 0.0 < k
    ensures k * x < k * y && x * k < y * k
  {
  }

  /** A quotient is the number that gives the dividend back. */
  lemma DivMul(x: real, y: real)
    requires y != 0.0
    ensures x / y * y == x && y * (x / y) == x
  {
  }

  /** Comparing quotients by cross-multiplication. */
  lemma DivLeq(a: real, b: real, c: real, d: real)
    requires 0.0 < b && 0.0 < d
    ensures a / b <= c / d <==> a * d <= c * b
  {
    var x, y := a / b, c / d;
    DivMul(a, b);
    DivMul(c, d);
    assert a * d == x * b * d == x * (b * d);
    assert c * b == y * d * b == y * (b * d);
    if x <= y {
      MulMono(x, y, b * d);
    } else {
      MulStrict(y, x, b * d);
    }
  }

  lemma DivSign(x: real, y: real)
    requires 0.0 < y
    ensures 0.0 < x <==> 0.0 < x / y
    ensures x == 0.0 <==> x / y == 0.0
  {
    DivMul(x, y);
  }

  lemma Distribute(k: real, x: real, y: real)
    ensures k * (x + y) == k * x + k * y
    ensures k * (x - y) == k * x - k * y
  {
  }

  /** Comparing a quotient with a number. */
  lemma QuotientBound(x: real, y: real, k: real)
    requires 0.0 < y
    ensures k <= x / y <==> k * y <= x
    ensures x / y <= k <==> x <= k * y
  {
    DivMul(x, y);
    var q := x / y;
    if k < q { MulStrict(k, q, y); }
    if q < k { MulStrict(q, k, y); }
  }

  // ----- Products kept folded: the facts a proof needs with `Times` hidden.

  function Times(x: real, y: real): real {
    x * y
  }

  lemma TimesMono(x: real, y: real, k: real)
    requires x <= y && 0.0 <= k
    ensures Times(k, x) <= Times(k, y) && Times(x, k) <= Times(y, k)
  {
  }

  lemma TimesStrict(x: real, y: real, k: real)
    requires x < y && 0.0 < k
    ensures Times(k, x) < Times(k, y) && Times(x, k) < Times(y, k)
  {
  }

  lemma TimesZero(k: real)
    ensures Times(k, 0.0) == Times(0.0, k) == 0.0 && Times(k, 1.0) == Times(1.0, k) == k
  {
  }

  lemma TimesComm(x: real, y: real)
    ensures Times(x, y) == Times(y, x)
  {
  }

  lemma TimesAssoc(x: real, y: real, z: real)
    ensures Times(Times(x, y), z) == Times(x, Times(y, z))
  {
  }

  lemma TimesSum(k: real, x: real, y: real)
    ensures Times(k, x + y) == Times(k, x) + Times(k, y) && Times(x + y, k) == Times(x, k) + Times(y, k)
    ensures Times(k, x - y) == Times(k, x) - Times(k, y) && Times(x - y, k) == Times(x, k) - Times(y, k)
  {
  }

  lemma TimesQuotient(x: real, y: real)
    requires y != 0.0
    ensures Times(x / y, y) == x && Times(y, x / y) == x
  {
    DivMul(x, y);
  }

  /** Comparing a quotient with a number. */
  lemma QuotientTimes(x: real, y: real, k: real)
    requires 0.0 < y
    ensures k <= x / y <==> Times(k, y) <= x
    ensures x / y <= k <==> x <= Times(k, y)
  {
    QuotientBound(x, y, k);
  }

  lemma QuotientsSum(x: real, y: real, d: real)
    requires d != 0.0
    ensures (x + y) / d == x / d + y / d && (x - y) / d == x / d - y / d
  {
  }
}
