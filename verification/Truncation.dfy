/** ToIntegerOrInfinity: truncation of a double towards zero. */
module Truncation {
  import opened Arith
  import opened Doubles

  /** An integer, or an infinity. */
  datatype Integer = Int(n: int) | Infinite(neg: bool)

  /** ToIntegerOrInfinity of a number. */
  function Truncated(d: Double): Integer
  {
    match d
    case NaN => Int(0)
    case Inf(neg) => Infinite(neg)
    case Fin(m, e) =>
      if 0 <= e then Int(m * Pow2(e))
      else Int(TowardsZero(m, Pow2(-e)))
  }

  /** The quotient of C. */
  function TowardsZero(m: int, p: nat): (k: int)
    requires 0 < p
    ensures Abs(k) == Abs(m) / p && (0 < k ==> 0 < m) && (k < 0 ==> m < 0)
  {
    QuotientNotLarger(Abs(m), p);
    if m < 0 then -(Abs(m) / p) else Abs(m) / p
  }

  /** Truncation drops less than one, and only towards zero. */
  lemma {:induction false} TruncatedIsTowardsZero(d: Double)
    requires IsDouble(d) && d.Fin?
    ensures Truncated(d).Int?
    ensures var n := Truncated(d).n;
      && IntUnits(Abs(n)) <= Abs(Units(d)) < IntUnits(Abs(n) + 1)
      && (0 < n ==> 0 < Units(d)) && (n < 0 ==> Units(d) < 0)
  {
    hide Pow2, Abs, TowardsZero;
    if 0 <= d.e {
      Pow2Add(d.e, 0 + 1074);
      WholeUnits(d.m, Pow2(d.e), Pow2(0 + 1074));
    } else {
      Pow2Add(-d.e, d.e + 1074);
      FractionUnits(d.m, Pow2(-d.e), Pow2(d.e + 1074));
    }
  }

  /** n is d with its fraction dropped: between zero and d, and less than one from it. */
  ghost predicate TruncatesTo(d: Double, n: int)
    requires d.Fin? && IsDouble(d)
  {
    if 0 < n then IntUnits(n) <= Units(d) < IntUnits(n + 1)
    else if n < 0 then IntUnits(n - 1) < Units(d) <= IntUnits(n)
    else -IntUnits(1) < Units(d) < IntUnits(1)
  }

  /** The truncation of every double: that integer for a finite one, 0 for NaN, and the infinities as they are. */
  lemma {:induction false} TruncatedIff(d: Double, n: int)
    requires IsDouble(d)
    ensures d.Fin? ==> Truncated(d).Int? && (Truncated(d) == Int(n) <==> TruncatesTo(d, n))
    ensures d.NaN? ==> Truncated(d) == Int(0)
    ensures d == Inf(false) ==> Truncated(d) == Infinite(false)
    ensures d == Inf(true) ==> Truncated(d) == Infinite(true)
  {
    if d.Fin? {
      TruncatedTruncates(d);
      hide Truncated;
      var k := Truncated(d).n;
      if k < n { TruncatesOnce(d, k, n); }
      if n < k { TruncatesOnce(d, n, k); }
    }
  }

  lemma TruncatedTruncates(d: Double)
    requires IsDouble(d) && d.Fin?
    ensures Truncated(d).Int? && TruncatesTo(d, Truncated(d).n)
  {
    TruncatedIsTowardsZero(d);
    hide Truncated, Units, IntUnits;
    var k := Truncated(d).n;
    if k < 0 {
      NegateIntUnits(k);
      NegateIntUnits(k - 1);
    }
  }

  lemma UnitIsPositive()
    ensures IntUnits(0) == 0 < IntUnits(1)
  {
  }

  lemma TruncatesOnce(d: Double, k: int, n: int)
    requires d.Fin? && IsDouble(d) && k < n
    ensures !(TruncatesTo(d, k) && TruncatesTo(d, n))
  {
    hide Units, IntUnits;
    if 0 <= k {
      IntUnitsMono(k + 1, n);
    } else if n <= 0 {
      NegateIntUnits(1);
      IntUnitsMono(k, n - 1);
    } else {
      UnitIsPositive();
      NegateIntUnits(1);
      IntUnitsMono(k, -1);
      IntUnitsMono(1, n);
    }
  }

  lemma WholeUnits(m: int, p: nat, unit: nat)
    requires 0 < unit
    ensures m * (p * unit) == m * p * unit
    ensures Abs(m * p) * unit <= Abs(m * p * unit) < (Abs(m * p) + 1) * unit
    ensures (0 < m * p ==> 0 < m * p * unit) && (m * p < 0 ==> m * p * unit < 0)
  {
    MulAssoc(m, p, unit);
    ProductSize(m * p, unit);
  }

  lemma FractionUnits(m: int, p: nat, q: nat)
    requires 0 < p && 0 < q
    ensures Abs(TowardsZero(m, p)) * (p * q) <= Abs(m * q) < (Abs(TowardsZero(m, p)) + 1) * (p * q)
    ensures (0 < TowardsZero(m, p) ==> 0 < m * q) && (TowardsZero(m, p) < 0 ==> m * q < 0)
  {
    ProductSize(m, q);
    QuotientUnits(Abs(m), p, q);
  }

  lemma ProductSize(n: int, p: nat)
    requires 0 < p
    ensures Abs(n * p) == Abs(n) * p
    ensures (0 < n ==> 0 < n * p) && (n < 0 ==> n * p < 0)
    ensures Abs(n * p) < (Abs(n) + 1) * p
  {
    Arith.AbsProduct(n, p);
  }

  lemma QuotientUnits(m: nat, p: nat, q: nat)
    requires 0 < p && 0 < q
    ensures m / p * (p * q) <= m * q < (m / p + 1) * (p * q)
  {
    var k := m / p;
    assert k * p <= m < (k + 1) * p;
    MulMono(k * p, m, q);
    MulStrict(m, (k + 1) * p, q);
    MulAssoc(k, p, q);
    MulAssoc(k + 1, p, q);
  }
}
