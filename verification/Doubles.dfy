/** Binary64 values and correct rounding of integers onto them (IEEE 754-2019, section 4.3.1). */
module Doubles {
  import opened Arith

  /**
   * A double is NaN, an infinity, or m * 2^e.  The two zeros are one value here: nothing in the
   * modelled code tells them apart.
   */
  datatype Double = NaN | Inf(neg: bool) | Fin(m: int, e: int)

  const MANT := 0x20_0000_0000_0000  // 2^53
  const MIN_EXP := -1074
  const MAX_EXP := 971

  /** The encodings binary64 has: normal numbers, and subnormals at the least exponent. */
  predicate IsDouble(d: Double) {
    d.Fin? ==>
      && MIN_EXP <= d.e <= MAX_EXP
      && Abs(d.m) < MANT
      && (MANT <= 2 * Abs(d.m) || d.e == MIN_EXP)
  }

  /** m * 2^e in units of the least subnormal, 2^-1074: an integer for every finite double. */
  function Scaled(m: int, e: int): int
    requires MIN_EXP <= e
  {
    m * Pow2(e + 1074)
  }

  function Units(d: Double): int
    requires d.Fin? && IsDouble(d)
  {
    Scaled(d.m, d.e)
  }

  function IntUnits(x: int): int { Scaled(x, 0) }

  /** The true order of an integer and a double, infinities at the ends: -1, 0 or 1. */
  ghost function TrueOrder(x: int, d: Double): int
    requires IsDouble(d) && !d.NaN?
  {
    match d
    case Inf(neg) => if neg then 1 else -1
    case Fin(_, _) => Sign(IntUnits(x) - Units(d))
  }

  predicate Less(a: Double, b: Double)
    requires IsDouble(a) && IsDouble(b)
  {
    match (a, b)
    case (NaN, _) => false
    case (_, NaN) => false
    case (Inf(p), Inf(q)) => p && !q
    case (Inf(p), Fin(_, _)) => p
    case (Fin(_, _), Inf(q)) => !q
    case (Fin(_, _), Fin(_, _)) => Units(a) < Units(b)
  }

  function Negate(d: Double): (r: Double)
    ensures IsDouble(d) ==> IsDouble(r)
  {
    match d
    case NaN => NaN
    case Inf(neg) => Inf(!neg)
    case Fin(m, e) => Fin(-m, e)
  }

  /** MAX_EXP, by a choice with one candidate: a literal would make the verifier unfold 2^971. */
  ghost function TopExponent(): (e: nat)
    ensures 970 < e < 972
  {
    var e: nat :| 970 < e < 972;
    e
  }

  /**
   * The integers from which rounding overflows: half a step past the largest double, which is
   * 2^1024 - 2^970.
   */
  ghost function Overflow(): nat { (2 * MANT - 1) * Pow2(TopExponent() - 1) }

  lemma OverflowValue(t: nat)
    requires t == TopExponent() + 53
    ensures Overflow() == Pow2(t) - Pow2(t - 54)
  {
    hide Pow2;
    MantTimes(t - 53);
    DoublePow2(t - 53);
    MulAssoc(MANT, 2, Pow2(t - 54));
  }

  /**
   * d is the integer x rounded to nearest, ties to even: no double is nearer, a double that is
   * as near leaves d the even one, and infinity is the answer exactly from Overflow() upward.
   */
  ghost predicate IsNearestEven(x: int, d: Double) {
    && IsDouble(d)
    && match d
       case NaN => false
       case Inf(neg) => Overflow() <= Abs(x) && (neg <==> x < 0)
       case Fin(_, _) =>
         && Abs(x) < Overflow()
         && forall f: Double :: f.Fin? && IsDouble(f) ==>
              && Abs(IntUnits(x) - Units(d)) <= Abs(IntUnits(x) - Units(f))
              && (Abs(IntUnits(x) - Units(d)) == Abs(IntUnits(x) - Units(f)) && f != d ==> d.m % 2 == 0)
  }

  // ---- the rounding, by quotient and remainder

  /** The number of bits of a positive integer. */
  function BitLength(v: nat): (b: nat)
    ensures v < Pow2(b)
    ensures 0 < v ==> 1 <= b && Pow2(b - 1) <= v
  {
    if v == 0 then 0 else BitLength(v / 2) + 1
  }

  lemma BitLengthUnique(v: nat, b: nat)
    requires 1 <= b && Pow2(b - 1) <= v < Pow2(b)
    ensures BitLength(v) == b
  {
    var c := BitLength(v);
    if c < b { Pow2Mono(c, b - 1); } else if b < c { Pow2Mono(b, c - 1); }
  }

  /** Round a quotient q with remainder r over 2^s to the nearest integer, ties to even. */
  function RoundQuotient(q: nat, r: nat, s: nat): (q': nat)
    requires 1 <= s && r < Pow2(s)
    ensures q <= q' <= q + 1
  {
    var half := Pow2(s - 1);
    if half < r || (r == half && q % 2 == 1) then q + 1 else q
  }

  /** mant * 2^e with mant renormalised after a carry; infinity past the largest exponent. */
  function Pack(mant: nat, e: int): (d: Double)
    requires MANT <= 2 * mant && mant <= MANT && MIN_EXP <= e
    ensures IsDouble(d) && !d.NaN?
  {
    var (m, x) := if mant == MANT then (MANT / 2, e + 1) else (mant, e);
    if x > MAX_EXP then Inf(false) else Fin(m, x)
  }

  function RoundNat(v: nat): (d: Double)
    ensures IsDouble(d) && !d.NaN?
  {
    if v == 0 then Fin(0, MIN_EXP)
    else
      var b := BitLength(v);
      if b <= 53 then
        ShiftUpRange(v, b);
        Fin(v * Pow2(53 - b), b - 53)
      else
        RoundAt(v, b - 53)
  }

  /** The 53 bits of v from bit s up, rounded by the bits below. */
  function RoundAt(v: nat, s: nat): (d: Double)
    requires 1 <= s && Pow2(s + 52) <= v < Pow2(s + 53)
    ensures IsDouble(d) && !d.NaN?
  {
    QuotientRange(v, s + 53);
    Pack(RoundQuotient(v / Pow2(s), v % Pow2(s), s), s)
  }

  function Round(x: int): (d: Double)
    ensures IsDouble(d) && !d.NaN?
  {
    if x < 0 then Negate(RoundNat(-x)) else RoundNat(x)
  }

  lemma MantTimes(n: nat)
    ensures Pow2(n + 52) == MANT / 2 * Pow2(n)
    ensures Pow2(n + 53) == MANT * Pow2(n)
  {
    Pow2Constants();
    Pow2Add(n, 52);
  }

  /** The same with both exponents variable, for m + n == 53. */
  lemma MantSplit(m: nat, n: nat)
    requires m + n == 53
    ensures Pow2(m) * Pow2(n) == MANT
  {
    Pow2Add(m, n);
    MantTimes(m + n - 53);
  }

  lemma ShiftUpRange(v: nat, b: nat)
    requires 1 <= b <= 53 && Pow2(b - 1) <= v < Pow2(b)
    ensures MANT <= 2 * (v * Pow2(53 - b)) && v * Pow2(53 - b) < MANT
  {
    hide Pow2;
    MantSplit(b, 53 - b);
    MulStrict(v, Pow2(b), Pow2(53 - b));
    DoublePow2(b);
    MulMono(Pow2(b), 2 * v, Pow2(53 - b));
    MulAssoc(2, v, Pow2(53 - b));
  }

  lemma DoublePow2(b: nat)
    requires 1 <= b
    ensures Pow2(b) == 2 * Pow2(b - 1)
  {
  }

  lemma QuotientRange(v: nat, b: nat)
    requires 54 <= b && Pow2(b - 1) <= v < Pow2(b)
    ensures var q := v / Pow2(b - 53); MANT <= 2 * q && q < MANT
    ensures v % Pow2(b - 53) < Pow2(b - 53)
  {
    hide Pow2;
    MantTimes(b - 53);
    QuotientBounds(v, Pow2(b - 53));
  }

  lemma QuotientBounds(v: nat, p: nat)
    requires 0 < p && MANT / 2 * p <= v < MANT * p
    ensures MANT <= 2 * (v / p) && v / p < MANT
  {
    var q, r := v / p, v % p;
    assert v == q * p + r;
    if 2 * q < MANT { MulMono(q + 1, MANT / 2, p); }
    if MANT <= q { MulMono(MANT, q, p); }
  }

  // ---- no double lies between consecutive multiples of the binade's step

  /** A double is a multiple of 2^s (s in units), or it is smaller than 2^(53+s-1) in magnitude. */
  lemma StepOrSmall(f: Double, s: nat) returns (k: int)
    requires f.Fin? && IsDouble(f)
    ensures Units(f) == k * Pow2(s) || 2 * Abs(Units(f)) < MANT * Pow2(s)
  {
    var u := f.e + 1074;
    if s <= u {
      Pow2Add(u - s, s);
      k := f.m * Pow2(u - s);
      MulAssoc(f.m, Pow2(u - s), Pow2(s));
    } else {
      k := 0;
      SmallMagnitude(f.m, u, s);
    }
  }

  lemma SmallMagnitude(m: int, u: nat, s: nat)
    requires Abs(m) < MANT && u < s
    ensures 2 * Abs(m * Pow2(u)) < MANT * Pow2(s)
  {
    AbsProduct(m, Pow2(u));
    Pow2Strict(u, s);
    MulStrict(Abs(m), MANT, Pow2(u));
    MulMono(2 * Pow2(u), Pow2(s), MANT);
  }

  /** With 2^52 <= q, no double lies strictly between q * 2^s and (q + 1) * 2^s. */
  lemma NoDoubleBetween(f: Double, q: nat, s: nat)
    requires f.Fin? && IsDouble(f) && MANT <= 2 * q
    ensures Units(f) <= q * Pow2(s) || (q + 1) * Pow2(s) <= Units(f)
  {
    var k := StepOrSmall(f, s);
    OutsideStep(Units(f), k, q, Pow2(s));
  }

  lemma OutsideStep(u: int, k: int, q: nat, p: nat)
    requires u == k * p || 2 * Abs(u) < MANT * p
    requires MANT <= 2 * q
    ensures u <= q * p || (q + 1) * p <= u
  {
    if 2 * Abs(u) < MANT * p {
      MulMono(MANT, 2 * q, p);
    } else if k <= q {
      MulMono(k, q, p);
    } else {
      MulMono(q + 1, k, p);
    }
  }

  /** Two finite doubles of one value are one double. */
  lemma UnitsInjective(a: Double, b: Double)
    requires a.Fin? && b.Fin? && IsDouble(a) && IsDouble(b) && Units(a) == Units(b)
    ensures a == b
  {
    if a.e < b.e {
      UnitsInjectiveOrdered(a, b);
    } else if b.e < a.e {
      UnitsInjectiveOrdered(b, a);
    } else {
      var p := Pow2(a.e + 1074);
      if a.m < b.m { MulStrict(a.m, b.m, p); } else if b.m < a.m { MulStrict(b.m, a.m, p); }
    }
  }

  lemma UnitsInjectiveOrdered(a: Double, b: Double)
    requires a.Fin? && b.Fin? && IsDouble(a) && IsDouble(b) && a.e < b.e
    ensures Units(a) != Units(b)
  {
    hide Pow2;
    var p, q := Pow2(a.e + 1074), Pow2(b.e + 1074);
    AbsProduct(a.m, p);
    AbsProduct(b.m, q);
    Pow2Strict(a.e + 1074, b.e + 1074);
    FinerIsSmaller(Abs(a.m), p, Abs(b.m), q);
  }

  /** Below 2^53 steps of a finer scale lie below 2^52 or more steps of a scale at least twice as coarse. */
  lemma FinerIsSmaller(m: nat, p: nat, n: nat, q: nat)
    requires m < MANT <= 2 * n && 0 < p && 2 * p <= q
    ensures m * p < n * q
  {
    MulStrict(m, MANT, p);
    MulMono(2 * p, q, n);
    MulMono(MANT, 2 * n, p);
    MulAssoc(2, n, p);
    MulAssoc(n, 2, p);
  }

  // ---- RoundNat is the nearest-even rounding

  /** An integer of at most 53 bits is a double. */
  lemma SmallIsExact(v: nat)
    requires v < MANT
    ensures RoundNat(v).Fin? && Units(RoundNat(v)) == IntUnits(v)
  {
    if v != 0 {
      var b := BitLength(v);
      SmallBits(v);
      Pow2Add(53 - b, b + 1021);
      MulAssoc(v, Pow2(53 - b), Pow2(b + 1021));
    }
  }

  /** The double with quotient mant over 2^s, when it does not overflow. */
  lemma PackUnits(mant: nat, s: nat)
    requires MANT <= 2 * mant && mant <= MANT
    ensures var d := Pack(mant, s);
      && (d.Fin? ==> Units(d) == Scaled(mant, s))
      && (d.Fin? && mant % 2 == 0 ==> d.m % 2 == 0)
      && (d.Inf? <==> MAX_EXP < s || (MAX_EXP == s && mant == MANT))
  {
    assert Pow2(s + 1 + 1074) == 2 * Pow2(s + 1074);
  }

  /** Of the multiples of t around x = q * t + rho, the rounded one is nearest, and even on a tie. */
  lemma NearestMultiple(x: int, q: nat, t: nat, rho: nat, q': nat, u: int)
    requires x == q * t + rho && rho < t
    requires q' == if t < 2 * rho || (2 * rho == t && q % 2 == 1) then q + 1 else q
    requires u <= q * t || (q + 1) * t <= u
    ensures Abs(x - q' * t) <= Abs(x - u)
    ensures Abs(x - q' * t) == Abs(x - u) && u != q' * t ==>
              q' % 2 == 0 && u == (2 * q + 1 - q') * t
  {
    assert (q + 1) * t == q * t + t;
  }

  /** Splitting at bit s in the integers is splitting at bit s + 1074 in units. */
  lemma SplitUnits(v: nat, s: nat, q: nat, r: nat)
    requires 1 <= s && v == q * Pow2(s) + r && r < Pow2(s)
    ensures var t := Pow2(s + 1074); var rho := r * Pow2(0 + 1074);
      && IntUnits(v) == q * t + rho
      && rho < t
      && (t < 2 * rho <==> Pow2(s - 1) < r)
      && (2 * rho == t <==> r == Pow2(s - 1))
  {
    Pow2Add(s, 0 + 1074);
    ScaleSplit(v, q, Pow2(s - 1), r, Pow2(0 + 1074));
  }

  lemma ScaleSplit(v: nat, q: nat, half: nat, r: nat, u: nat)
    requires v == q * (2 * half) + r && r < 2 * half && 0 < u
    ensures var t := 2 * half * u;
      && v * u == q * t + r * u
      && r * u < t
      && (t < 2 * (r * u) <==> half < r)
      && (2 * (r * u) == t <==> r == half)
  {
    assert v * u == q * (2 * half) * u + r * u;
    MulAssoc(q, 2 * half, u);
    MulStrict(r, 2 * half, u);
    MulAssoc(2, half, u);
    if r < half { MulStrict(r, half, u); } else if half < r { MulStrict(half, r, u); }
  }

  /** v splits at bit s into a 53-bit quotient q and a remainder r, and d is q rounded. */
  ghost predicate Rounds(v: nat, s: nat, q: nat, r: nat, d: Double) {
    && 1 <= s && v == q * Pow2(s) + r && r < Pow2(s)
    && MANT <= 2 * q && q < MANT
    && d == Pack(RoundQuotient(q, r, s), s)
  }

  lemma RoundAtRounds(v: nat, s: nat)
    requires 1 <= s && Pow2(s + 52) <= v < Pow2(s + 53)
    ensures Rounds(v, s, v / Pow2(s), v % Pow2(s), RoundAt(v, s))
  {
    hide Pow2, Pack, RoundQuotient;
    QuotientRange(v, s + 53);
  }

  lemma OverflowIff(v: nat, s: nat, q: nat, r: nat, d: Double)
    requires Rounds(v, s, q, r, d) && Pow2(s + 52) <= v < Pow2(s + 53)
    ensures d.Inf? <==> Overflow() <= v
  {
    PackUnits(RoundQuotient(q, r, s), s);
    if s == TopExponent() {
      TopBinade(v, q, Pow2(s - 1), r);
    } else {
      hide Pack, Overflow;
      OffTopBinade(v, s);
    }
  }

  lemma OffTopBinade(v: nat, s: nat)
    requires Pow2(s + 52) <= v < Pow2(s + 53) && s != TopExponent()
    ensures Overflow() <= v <==> TopExponent() < s
  {
    hide Pow2, Overflow;
    var e := TopExponent();
    OverflowValue(e + 53);
    if e < s {
      Pow2Mono(e + 53, s + 52);
    } else {
      Pow2Strict(s + 53, e + 53);
      Pow2Mono(e - 1, e + 52);
      Pow2Strict(e - 1, e + 53);
      Pow2Mono(s + 53, e + 52);
      Pow2Strict(e + 52, e + 53);
    }
  }

  lemma TopBinade(v: nat, q: nat, half: nat, r: nat)
    requires v == q * (2 * half) + r && r < 2 * half && q < MANT
    ensures (2 * MANT - 1) * half <= v <==> q == MANT - 1 && half <= r
  {
    assert q * (2 * half) == 2 * (q * half);
    assert (2 * MANT - 1) * half == 2 * ((MANT - 1) * half) + half;
    if q < MANT - 1 {
      MulMono(q + 1, MANT - 1, half);
      assert (q + 1) * half == q * half + half;
    }
  }

  /** A rounded integer of 54 bits or more against any other double. */
  lemma NearestAmong(v: nat, s: nat, q: nat, r: nat, d: Double, f: Double)
    requires Rounds(v, s, q, r, d) && d.Fin? && f.Fin? && IsDouble(f)
    ensures var x := IntUnits(v);
      && Abs(x - Units(d)) <= Abs(x - Units(f))
      && (Abs(x - Units(d)) == Abs(x - Units(f)) && Units(f) != Units(d) ==>
            d.m % 2 == 0 && f.m % 2 == 1)
  {
    hide Units, IntUnits, Scaled, Pow2, Pack, RoundQuotient, Abs, IsDouble;
    var q' := RoundQuotient(q, r, s);
    PackUnits(q', s);
    NearestStep(v, s, q, r, f);
    OddStep(f, 2 * q + 1 - q', s);
  }

  /** The rounded quotient against a double, in units. */
  lemma NearestStep(v: nat, s: nat, q: nat, r: nat, f: Double)
    requires 1 <= s && v == q * Pow2(s) + r && r < Pow2(s) && MANT <= 2 * q
    requires f.Fin? && IsDouble(f)
    ensures var x, q' := IntUnits(v), RoundQuotient(q, r, s);
      && Abs(x - Scaled(q', s)) <= Abs(x - Units(f))
      && (Abs(x - Scaled(q', s)) == Abs(x - Units(f)) && Units(f) != Scaled(q', s) ==>
            q' % 2 == 0 && Units(f) == Scaled(2 * q + 1 - q', s))
  {
    hide Units, IntUnits, Pow2;
    SplitUnits(v, s, q, r);
    NoDoubleBetween(f, q, s + 1074);
    NearestMultiple(IntUnits(v), q, Pow2(s + 1074), r * Pow2(0 + 1074), RoundQuotient(q, r, s), Units(f));
  }

  lemma OddStep(f: Double, other: nat, s: nat)
    requires f.Fin? && IsDouble(f) && MANT <= 2 * other && other <= MANT && s <= MAX_EXP
    ensures Units(f) == Scaled(other, s) && other % 2 == 1 ==> f.m % 2 == 1
  {
    hide Scaled;
    if Units(f) == Scaled(other, s) && other % 2 == 1 {
      UnitsInjective(f, Fin(other, s));
    }
  }

  lemma LargeIsNearest(v: nat, s: nat, q: nat, r: nat, d: Double)
    requires Rounds(v, s, q, r, d) && Pow2(s + 52) <= v < Pow2(s + 53)
    ensures IsNearestEven(v, d)
  {
    hide Units, IntUnits, Pow2, Overflow;
    OverflowIff(v, s, q, r, d);
    if d.Fin? {
      forall f: Double | f.Fin? && IsDouble(f)
        ensures Abs(IntUnits(v) - Units(d)) <= Abs(IntUnits(v) - Units(f))
        ensures Abs(IntUnits(v) - Units(d)) == Abs(IntUnits(v) - Units(f)) && f != d ==> d.m % 2 == 0
      {
        NearestAmong(v, s, q, r, d, f);
        if Units(f) == Units(d) { UnitsInjective(f, d); }
      }
    }
  }

  lemma RoundAtIsNearest(v: nat, s: nat)
    requires 1 <= s && Pow2(s + 52) <= v < Pow2(s + 53)
    ensures IsNearestEven(v, RoundAt(v, s))
  {
    hide IsNearestEven, Pow2, RoundAt, Rounds;
    RoundAtRounds(v, s);
    LargeIsNearest(v, s, v / Pow2(s), v % Pow2(s), RoundAt(v, s));
  }

  lemma SmallIsNearest(v: nat)
    requires v < MANT
    ensures IsNearestEven(v, RoundNat(v))
  {
    hide Units, IntUnits, Pow2, Overflow, RoundNat;
    var d := RoundNat(v);
    SmallIsExact(v);
    SmallBelowOverflow(v);
    forall f: Double | f.Fin? && IsDouble(f) && Units(f) == Units(d) ensures f == d { UnitsInjective(f, d); }
  }

  lemma RoundNatIsNearest(v: nat)
    ensures IsNearestEven(v, RoundNat(v))
  {
    hide IsNearestEven, Pow2, RoundAt, BitLength;
    if v < MANT {
      SmallIsNearest(v);
    } else {
      MantBits(v);
      RoundAtIsNearest(v, BitLength(v) - 53);
    }
  }

  lemma MantBits(v: nat)
    requires MANT <= v
    ensures 54 <= BitLength(v)
  {
    hide Pow2;
    var b := BitLength(v);
    if b < 54 {
      MantSplit(53 - b, b);
      MulGe(Pow2(53 - b), Pow2(b));
    }
  }

  lemma SmallBits(v: nat)
    requires 0 < v < MANT
    ensures BitLength(v) <= 53
  {
    hide Pow2;
    if 53 < BitLength(v) { MantTimes(BitLength(v) - 54); }
  }

  lemma SmallBelowOverflow(v: nat)
    requires v <= MANT
    ensures v < Overflow()
  {
    var p := Pow2(TopExponent() - 1);
    MulGe(p, 2 * MANT - 1);
    assert (2 * MANT - 1) * p == p * (2 * MANT - 1);
  }

  lemma NegateUnits(f: Double)
    requires f.Fin? && IsDouble(f)
    ensures Units(Negate(f)) == -Units(f)
  {
    var p := Pow2(f.e + 1074);
    assert (-f.m) * p == -(f.m * p);
  }

  lemma NegateIntUnits(x: int)
    ensures IntUnits(-x) == -IntUnits(x)
  {
    var p := Pow2(0 + 1074);
    assert (-x) * p == -(x * p);
  }

  lemma NegateNearest(x: int, d: Double)
    requires IsNearestEven(x, d) && x != 0
    ensures IsNearestEven(-x, Negate(d))
  {
    hide Units, IntUnits, Overflow;
    NegateIntUnits(x);
    if d.Fin? {
      NegateUnits(d);
      forall f: Double | f.Fin? && IsDouble(f)
        ensures Abs(IntUnits(-x) - Units(Negate(d))) <= Abs(IntUnits(-x) - Units(f))
        ensures Abs(IntUnits(-x) - Units(Negate(d))) == Abs(IntUnits(-x) - Units(f)) && f != Negate(d)
          ==> Negate(d).m % 2 == 0
      {
        NegateUnits(f);
        assert Negate(Negate(f)) == f;
        assert Abs(IntUnits(x) - Units(d)) <= Abs(IntUnits(x) - Units(Negate(f)));
      }
    }
  }

  /** Round is the nearest-even rounding of every integer. */
  lemma {:induction false} RoundIsNearest(x: int)
    ensures IsNearestEven(x, Round(x))
  {
    if x < 0 {
      RoundNatIsNearest(-x);
      NegateNearest(-x, RoundNat(-x));
    } else {
      RoundNatIsNearest(x);
    }
  }

  /** The standard's description has one answer: any double that fits it is Round(x). */
  lemma {:induction false} NearestEvenUnique(x: int, d: Double)
    requires IsNearestEven(x, d)
    ensures d == Round(x)
  {
    hide *;
    if x < 0 {
      NegateNearest(x, d);
      NearestEvenUniqueNat(-x, Negate(d));
    } else {
      NearestEvenUniqueNat(x, d);
    }
    RoundBySign(x, d);
  }

  lemma RoundBySign(x: int, d: Double)
    ensures Round(x) == if x < 0 then Negate(RoundNat(-x)) else RoundNat(x)
    ensures Negate(Negate(d)) == d
  {
    hide RoundNat;
  }

  lemma NearestEvenUniqueNat(v: nat, d: Double)
    requires IsNearestEven(v, d)
    ensures d == RoundNat(v)
  {
    hide Units, IntUnits, Pow2, Overflow, RoundAt, BitLength;
    var c := RoundNat(v);
    RoundNatIsNearest(v);
    if d.Fin? && c.Fin? && d != c {
      if Units(d) == Units(c) { UnitsInjective(d, c); }
      if v < MANT {
        SmallIsExact(v);
      } else {
        MantBits(v);
        LargeTie(v, BitLength(v) - 53, d);
      }
    }
  }

  /** Of two different doubles equally near, the one not chosen by RoundAt is odd. */
  lemma LargeTie(v: nat, s: nat, f: Double)
    requires 1 <= s && Pow2(s + 52) <= v < Pow2(s + 53)
    requires RoundAt(v, s).Fin? && f.Fin? && IsDouble(f) && Units(f) != Units(RoundAt(v, s))
    ensures Abs(IntUnits(v) - Units(f)) == Abs(IntUnits(v) - Units(RoundAt(v, s))) ==> f.m % 2 == 1
  {
    hide Units, IntUnits, Pow2, RoundAt, Rounds;
    RoundAtRounds(v, s);
    NearestAmong(v, s, v / Pow2(s), v % Pow2(s), RoundAt(v, s), f);
  }

  // ---- order

  /** Every finite double is below the overflow threshold. */
  lemma {:induction false} FiniteBelowOverflow(d: Double)
    requires d.Fin? && IsDouble(d)
    ensures Abs(Units(d)) < IntUnits(Overflow())
  {
    hide Pow2;
    var e := TopExponent();
    var half, u := Pow2(e - 1), Pow2(0 + 1074);
    var p := Pow2(d.e + 1074);
    AbsProduct(d.m, p);
    Pow2Mono(d.e + 1074, e + 1074);
    Pow2Add(e - 1, 1075);
    DoublePow2(0 + 1075);
    BelowHalfPast(Abs(d.m), p, half, u);
  }

  lemma BelowHalfPast(m: nat, p: nat, half: nat, u: nat)
    requires m < MANT && 1 <= p <= half * (2 * u)
    ensures m * p < (2 * MANT - 1) * half * u
  {
    var hu := half * u;
    assert half * (2 * u) == 2 * hu;
    MulMono(m, MANT - 1, p);
    assert m * p <= (MANT - 1) * p;
    assert (2 * MANT - 1) * half * u == (2 * MANT - 1) * hu;
  }

  /** A rounded integer keeps its strict order against every double. */
  lemma {:induction false} RoundOrder(x: int, d: Double)
    requires d.Fin? && IsDouble(d)
    ensures Less(Round(x), d) ==> TrueOrder(x, d) == -1
    ensures Less(d, Round(x)) ==> TrueOrder(x, d) == 1
    ensures !Less(Round(x), d) && !Less(d, Round(x)) ==> Round(x) == d
  {
    hide Units, IntUnits, Overflow, Round;
    RoundIsNearest(x);
    FiniteBelowOverflow(d);
    var c := Round(x);
    if c.Inf? {
      IntUnitsMono(Overflow(), Abs(x));
      if x < 0 { NegateIntUnits(-x); }
    } else if Units(c) == Units(d) {
      UnitsInjective(c, d);
    }
  }

  lemma IntUnitsMono(a: int, b: int)
    requires a <= b
    ensures IntUnits(a) <= IntUnits(b)
  {
    MulMono(a, b, Pow2(0 + 1074));
  }

  /** Rounding is monotone. */
  lemma {:induction false} RoundMonotone(x: int, y: int)
    requires x <= y
    ensures !Less(Round(y), Round(x))
  {
    hide Units, IntUnits, Overflow, Round;
    var f, d := Round(y), Round(x);
    if Less(f, d) {
      IntUnitsMono(x, y);
      RoundIsNearest(x);
      RoundIsNearest(y);
      if f.Fin? { RoundOrder(x, f); }
      if d.Fin? { RoundOrder(y, d); }
      if f.Fin? && d.Fin? { IntUnitsInjective(x, y); }
    }
  }

  lemma IntUnitsInjective(a: int, b: int)
    requires IntUnits(a) == IntUnits(b)
    ensures a == b
  {
    var p := Pow2(0 + 1074);
    if a < b { MulStrict(a, b, p); } else if b < a { MulStrict(b, a, p); }
  }
}
