/** Conversions between BigInt cells and doubles, and their exact comparison: runtime/ejs-bigint.cpp. */
module BigIntDoubles {
  import opened Arith
  import opened Digits
  import opened Doubles
  import opened BigInts

  // ---- 64-bit shifts

  function Shl64(x: Digit, k: nat): Digit { x * Pow2(k) % BASE }

  function Shr64(x: Digit, k: nat): (r: Digit)
  {
    QuotientNotLarger(x, Pow2(k));
    x / Pow2(k)
  }

  lemma BaseSplit(b: nat)
    requires b <= 64
    ensures Pow2(64 - b) * Pow2(b) == BASE
  {
    Pow2Add(64 - b, b);
    RadixIsPow2(b + (64 - b) - 63);
  }

  // ---- the 64-bit window at the top of a magnitude

  /** top holds the 64 most significant bits of v, low the bits under it. */
  ghost predicate Window(v: nat, total: nat, top: nat, low: nat) {
    && 65 <= total && BASE <= 2 * top && top < BASE
    && low < Pow2(total - 64)
    && v == top * Pow2(total - 64) + low
  }

  lemma {:induction false} WindowAligned(ds: seq<Digit>)
    requires 2 <= |ds| && BASE / 2 <= ds[|ds| - 1]
    ensures Window(Val(ds), 64 * |ds|, ds[|ds| - 1], Val(ds[..|ds| - 1]))
  {
    hide Radix, Val, Pow2;
    var n := |ds| - 1;
    ValLast(ds);
    ValBound(ds[..n]);
    RadixIsPow2(n);
    assert 64 * |ds| - 64 == 64 * n;
  }

  /** The word the code builds from the two top digits, and the bits it leaves behind. */
  lemma TopWord(msd: Digit, next: Digit, b: nat)
    requires 1 <= b < 64 && Pow2(b - 1) <= msd < Pow2(b)
    ensures var top := Bitwise(OrOp, Shl64(msd, 64 - b), Shr64(next, b));
      && top == msd * Pow2(64 - b) + next / Pow2(b)
      && BASE <= 2 * top && top < BASE
    ensures Shl64(next, 64 - b) == 0 <==> next % Pow2(b) == 0
  {
    hide Pow2;
    var p, c := Pow2(b), Pow2(64 - b);
    BaseSplit(b);
    DoublePow2(b);
    HighWord(msd, p, c);
    NextWord(next, p, c);
    OrDisjoint(msd, next / p, 64 - b);
  }

  lemma TopTwo(ds: seq<Digit>)
    requires 2 <= |ds|
    ensures var n := |ds| - 2;
      Val(ds) == Val(ds[..n]) + Radix(n) * ds[n] + BASE * Radix(n) * ds[n + 1]
  {
    hide Radix, Val;
    var n := |ds| - 2;
    ValLast(ds);
    assert ds[..n + 1][..n] == ds[..n];
    ValLast(ds[..n + 1]);
    RadixStep(n);
  }

  lemma {:induction false} WindowShifted(ds: seq<Digit>, b: nat)
    requires 2 <= |ds| && 1 <= b < 64 && Pow2(b - 1) <= ds[|ds| - 1] < Pow2(b)
    ensures var msd, next := ds[|ds| - 1], ds[|ds| - 2];
      Window(Val(ds), 64 * (|ds| - 1) + b, Bitwise(OrOp, Shl64(msd, 64 - b), Shr64(next, b)),
             next % Pow2(b) * Radix(|ds| - 2) + Val(ds[..|ds| - 2]))
  {
    hide Radix, Val, Pow2, Bitwise, Shl64, Shr64;
    var n := |ds| - 2;
    TopWord(ds[n + 1], ds[n], b);
    TopTwo(ds);
    ValBound(ds[..n]);
    RadixIsPow2(n);
    Pow2Add(64 * n, b);
    BaseSplit(b);
    assert 64 * (|ds| - 1) + b - 64 == 64 * n + b;
    Splice(Val(ds[..n]), ds[n], ds[n + 1], Pow2(b), Pow2(64 - b), Radix(n));
  }

  /** The top digit moved to the top of a word: nothing is lost, and the top bit is set. */
  lemma HighWord(msd: nat, p: nat, c: nat)
    requires c * p == BASE && msd < p && p <= 2 * msd
    ensures msd * c % BASE == msd * c
    ensures BASE <= 2 * (msd * c) && msd * c + c <= BASE
  {
    MulMono(msd + 1, p, c);
    assert (msd + 1) * c == msd * c + c;
    MulMono(p, 2 * msd, c);
    MulAssoc(2, msd, c);
    assert p * c == c * p;
    if c == 0 { assert false; }
  }

  /** The next digit splits into the bits that enter the window and the bits that do not. */
  lemma NextWord(next: Digit, p: nat, c: nat)
    requires c * p == BASE && 1 <= p && 1 <= c
    ensures next / p < c
    ensures next * c % BASE == next % p * c
    ensures next * c % BASE == 0 <==> next % p == 0
  {
    var q, r := next / p, next % p;
    assert next == q * p + r;
    if c <= q { MulMono(c, q, p); }
    assert next * c == q * (c * p) + r * c;
    MulStrict(r, p, c);
    assert p * c == BASE;
    DivModUnique(next * c, BASE, q, r * c);
    MulGe(c, r);
  }

  lemma Splice(low: nat, next: Digit, msd: nat, p: nat, c: nat, w: nat)
    requires c * p == BASE && 1 <= p && low < w
    ensures next % p * w + low < w * p
    ensures low + w * next + BASE * w * msd == (msd * c + next / p) * (w * p) + (next % p * w + low)
  {
    var q, r := next / p, next % p;
    assert next == q * p + r;
    MulMono(r + 1, p, w);
    assert (r + 1) * w == r * w + w && p * w == w * p;
    calc {
      (msd * c + q) * (w * p) + (r * w + low);
      msd * c * (w * p) + q * (w * p) + r * w + low;
      { assert msd * c * (w * p) == c * p * w * msd; }
      BASE * w * msd + q * (w * p) + r * w + low;
      { assert w * next == w * (q * p) + w * r; }
      BASE * w * msd + w * next + low;
    }
  }

  lemma WindowBits(v: nat, total: nat, top: nat, low: nat)
    requires Window(v, total, top, low)
    ensures BitLength(v) == total
    ensures Pow2(total - 1) <= v < Pow2(total)
  {
    hide Pow2, BitLength;
    var p := Pow2(total - 64);
    BaseTimes(total - 64);
    DoublePow2(total);
    MulMono(BASE, 2 * top, p);
    MulAssoc(2, top, p);
    MulMono(top + 1, BASE, p);
    assert (top + 1) * p == top * p + p;
    BitLengthUnique(v, total);
  }

  lemma BaseTimes(n: nat)
    ensures Pow2(n + 64) == BASE * Pow2(n)
  {
    Pow2Constants();
    Pow2Add(n, 64);
  }

  /** The code's rounding decision on the window: 53 bits kept, 11 bits and a sticky bit rounded away. */
  predicate RoundsUp(top: nat, sticky: bool) {
    var rest := top % 0x800;
    0x400 < rest || (rest == 0x400 && (sticky || top / 0x800 % 2 == 1))
  }

  lemma {:induction false} RoundWindow(v: nat, total: nat, top: nat, low: nat)
    requires Window(v, total, top, low)
    ensures top / 0x800 < MANT
    ensures var mant := top / 0x800 + if RoundsUp(top, low != 0) then 1 else 0;
      && MANT <= 2 * mant && mant <= MANT
      && RoundNat(v) == Pack(mant, total - 53)
  {
    hide Pow2, BitLength, RoundAt, Pack;
    WindowBits(v, total, top, low);
    RoundWindowAt(v, total - 53, top, low, Pow2(total - 64)) by { StepPowers(total - 64); }
  }

  lemma StepPowers(n: nat)
    ensures Pow2(n + 11) == 0x800 * Pow2(n)
    ensures Pow2(n + 10) == 0x400 * Pow2(n)
  {
    Pow2Constants();
    Pow2Add(n, 10);
    Pow2Add(n, 11);
  }

  lemma RoundWindowAt(v: nat, s: nat, top: nat, low: nat, p: nat)
    requires 12 <= s && Pow2(s + 52) <= v < Pow2(s + 53)
    requires Pow2(s) == 0x800 * p && Pow2(s - 1) == 0x400 * p
    requires BASE <= 2 * top && top < BASE && low < p && v == top * p + low
    ensures var mant := top / 0x800 + if RoundsUp(top, low != 0) then 1 else 0;
      && MANT <= 2 * mant && mant <= MANT
      && RoundAt(v, s) == Pack(mant, s)
  {
    hide Pow2, Pack;
    var q, rest := top / 0x800, top % 0x800;
    assert top == q * 0x800 + rest;
    var r := rest * p + low;
    assert v == q * (0x800 * p) + r;
    MulMono(rest + 1, 0x800, p);
    assert (rest + 1) * p == rest * p + p;
    DivModUnique(v, Pow2(s), q, r);
    if rest < 0x400 { MulMono(rest + 1, 0x400, p); }
    if 0x400 < rest { MulMono(0x401, rest, p); }
  }

  // ---- bigint to double

  function ApplySign(neg: bool, d: Double): Double { if neg then Negate(d) else d }

  /** Whether any of the low n digits is nonzero, or something was found before. */
  method AnySet(x: BigInt, n: nat, found: bool) returns (sticky: bool)
    requires x.Valid() && n <= x.length
    ensures sticky <==> found || Val(x.digits[..n]) != 0
  {
    sticky := found;
    var i := 0;
    while i < n && !sticky
      invariant 0 <= i <= n
      invariant sticky ==> found || exists j :: 0 <= j < n && x.digits[j] != 0
      invariant found ==> sticky
      invariant !sticky ==> forall j :: 0 <= j < i ==> x.digits[j] == 0
    {
      if x.digits[i] != 0 { sticky := true; }
      i := i + 1;
    }
    ZeroDigits(x.digits[..n]);
  }

  /** The double nearest the value, ties to even. */
  method ToDouble(x: BigInt) returns (d: Double)
    requires x.Canonical()
    ensures d == Round(x.Value())
  {
    hide Radix, Val, Pow2, BitLength, RoundAt, Window, RoundsUp;
    CellBounds(x);
    if x.length == 0 { return Fin(0, MIN_EXP); }
    if x.length == 1 {
      // the hardware conversion of a uint64_t rounds to nearest even
      OneDigit(x);
      return ApplySign(x.sign, RoundNat(x.digits[0]));
    }
    var msdBits := DigitBits(x.digits[x.length - 1]);
    var totalBits := (x.length - 1) * 64 + msdBits;
    if 1024 < totalBits {
      TooManyBits(x.digits[..x.length], msdBits);
      return Inf(x.sign);
    }
    var top, sticky := GatherTop(x, msdBits);
    RoundWindow(x.Magnitude(), totalBits, top, x.Magnitude() % Pow2(totalBits - 64));
    var mant := top / 0x800;
    if RoundsUp(top, sticky) {
      mant := mant + 1;
      if mant == MANT {
        mant, totalBits := mant / 2, totalBits + 1;
        if 1024 < totalBits { return Inf(x.sign); }
      }
    }
    return ApplySign(x.sign, Fin(mant, totalBits - 53));
  }

  lemma TooManyBits(ds: seq<Digit>, b: nat)
    requires 2 <= |ds| && 1 <= b <= 64 && Pow2(b - 1) <= ds[|ds| - 1] < Pow2(b)
    requires 1024 < 64 * (|ds| - 1) + b
    ensures RoundNat(Val(ds)) == Inf(false)
  {
    hide Radix, Val, Pow2, Window, RoundNat, Bitwise, Shl64, Shr64;
    var total := 64 * (|ds| - 1) + b;
    if b == 64 {
      TopBitSet(ds[|ds| - 1], b);
      WindowAligned(ds);
      RoundWindow(Val(ds), total, ds[|ds| - 1], Val(ds[..|ds| - 1]));
    } else {
      WindowShifted(ds, b);
      var msd, next := ds[|ds| - 1], ds[|ds| - 2];
      RoundWindow(Val(ds), total, Bitwise(OrOp, Shl64(msd, 64 - b), Shr64(next, b)),
                  next % Pow2(b) * Radix(|ds| - 2) + Val(ds[..|ds| - 2]));
    }
  }

  /** Gathers the top 64 bits, and notes whether anything below them is set. */
  method GatherTop(x: BigInt, msdBits: nat) returns (top: nat, sticky: bool)
    requires x.Canonical() && 2 <= x.length && 1 <= msdBits <= 64
    requires Pow2(msdBits - 1) <= x.digits[x.length - 1] < Pow2(msdBits)
    ensures var total := (x.length - 1) * 64 + msdBits;
      var low := x.Magnitude() % Pow2(total - 64);
      Window(x.Magnitude(), total, top, low) && (sticky <==> low != 0)
  {
    hide Radix, Val, Pow2, BitLength, Window, Bitwise, Shl64, Shr64;
    var len := x.length;
    ghost var ds := x.digits[..len];
    var msd := x.digits[len - 1];
    ghost var low: nat;
    sticky := false;
    if msdBits == 64 {
      top := msd;
      sticky := AnySet(x, len - 1, sticky);
      low := Val(x.digits[..len - 1]);
      TopBitSet(msd, msdBits);
      WindowAligned(ds);
      assert ds[..len - 1] == x.digits[..len - 1];
    } else {
      var next := x.digits[len - 2];
      top := Bitwise(OrOp, Shl64(msd, 64 - msdBits), Shr64(next, msdBits));
      if Shl64(next, 64 - msdBits) != 0 { sticky := true; }
      sticky := AnySet(x, len - 2, sticky);
      TopWord(msd, next, msdBits);
      WindowShifted(ds, msdBits);
      assert ds[..len - 2] == x.digits[..len - 2];
      low := next % Pow2(msdBits) * Radix(len - 2) + Val(x.digits[..len - 2]);
      NonzeroSum(next % Pow2(msdBits), Radix(len - 2), Val(x.digits[..len - 2]));
    }
    WindowLow(x.Magnitude(), (len - 1) * 64 + msdBits, top, low);
  }

  /** The bits under the window are the remainder. */
  lemma WindowLow(v: nat, total: nat, top: nat, low: nat)
    requires Window(v, total, top, low)
    ensures low == v % Pow2(total - 64)
  {
    hide Pow2;
    DivModUnique(v, Pow2(total - 64), top, low);
  }

  /** 64 minus the count of leading zeros. */
  function DigitBits(msd: Digit): (b: nat)
    requires msd != 0
    ensures 1 <= b <= 64 && Pow2(b - 1) <= msd < Pow2(b)
  {
    var b := BitLength(msd);
    if 64 < b then
      BaseTimes(b - 65);
      assert false; b
    else b
  }

  lemma TopBitSet(msd: Digit, b: nat)
    requires b == 64 && Pow2(b - 1) <= msd
    ensures BASE / 2 <= msd
  {
    hide Pow2;
    DoublePow2(b);
    BaseTimes(b - 64);
    Pow2Zero(b - 64);
  }

  lemma NonzeroSum(a: nat, b: nat, c: nat)
    requires 1 <= b
    ensures a * b + c != 0 <==> a != 0 || c != 0
  {
    MulMono(1, b, a);
  }

  // ---- double to bigint

  /** trunc(d) == d */
  predicate IsIntegral(d: Double) {
    d.Fin? && (d.e < 0 ==> d.m % Pow2(-d.e) == 0)
  }

  /** The integral doubles are those whose value is an integer's. */
  lemma IntegralIff(d: Double)
    requires d.Fin? && IsDouble(d)
    ensures IsIntegral(d) <==> exists x: int :: IntUnits(x) == Units(d)
  {
    hide Pow2;
    if IsIntegral(d) {
      IntOfUnits(d);
    } else if x: int :| IntUnits(x) == Units(d) {
      Pow2Add(-d.e, d.e + 1074);
      MulAssoc(x, Pow2(-d.e), Pow2(d.e + 1074));
      var n := 0 + 1074;
      CancelPow2(d.m, x, Pow2(-d.e), Pow2(d.e + 1074));
    }
  }

  lemma CancelPow2(m: int, x: int, p: nat, q: nat)
    requires 0 < p && 0 < q && x * p * q == m * q
    ensures m % p == 0
  {
    if x * p < m { MulStrict(x * p, m, q); } else if m < x * p { MulStrict(m, x * p, q); }
    DivModUnique(m, p, x, 0);
  }

  function IntOf(d: Double): int
    requires IsIntegral(d)
  {
    if d.e < 0 then d.m / Pow2(-d.e) else d.m * Pow2(d.e)
  }

  /** The integer of an integral double has the double's value. */
  lemma IntOfUnits(d: Double)
    requires IsDouble(d) && IsIntegral(d)
    ensures IntUnits(IntOf(d)) == Units(d)
  {
    hide Pow2;
    var n := 0 + 1074;
    if d.e < 0 {
      Pow2Add(-d.e, d.e + 1074);
      QuotientTimes(d.m, Pow2(-d.e), Pow2(d.e + 1074), Pow2(n));
    } else {
      Pow2Add(d.e, n);
      MulAssoc(d.m, Pow2(d.e), Pow2(n));
    }
  }

  lemma QuotientTimes(m: int, p: nat, q: nat, pq: nat)
    requires 1 <= p && m % p == 0 && p * q == pq
    ensures m / p * pq == m * q
  {
    var k := m / p;
    assert m == k * p;
    MulAssoc(k, p, q);
  }

  lemma IntUnitsOrder(a: int, b: int)
    ensures Sign(IntUnits(a) - IntUnits(b)) == Sign(a - b)
  {
    hide Pow2;
    var p := Pow2(0 + 1074);
    if a < b { MulStrict(a, b, p); } else if b < a { MulStrict(b, a, p); }
  }

  /** |d| < 2^53 for an integral double: the exponent test the code's comparison amounts to. */
  predicate BelowMant(d: Double)
    requires d.Fin?
  {
    d.e <= 0
  }

  lemma BelowMantIff(d: Double)
    requires IsDouble(d) && IsIntegral(d)
    ensures BelowMant(d) <==> Abs(IntOf(d)) < MANT
  {
    hide Pow2;
    if d.e <= 0 {
      if d.e < 0 { QuotientSmall(d.m, Pow2(-d.e)); } else { Pow2Zero(d.e); }
    } else {
      DoublePow2(d.e);
      AbsProduct(d.m, Pow2(d.e));
      MulMono(MANT, 2 * Abs(d.m), Pow2(d.e - 1));
      MulAssoc(Abs(d.m), 2, Pow2(d.e - 1));
      MulGe(Pow2(d.e - 1), MANT);
    }
  }

  lemma QuotientSmall(m: int, p: nat)
    requires 1 <= p && m % p == 0
    ensures Abs(m / p) <= Abs(m)
  {
    var k := m / p;
    assert m == k * p;
    AbsProduct(k, p);
    MulMono(1, p, Abs(k));
  }

  /** mant * 2^shift in digits: one digit, or two when the mantissa straddles a digit boundary. */
  lemma MantissaDigits(mant: nat, digitOff: nat, bitOff: nat)
    requires 0 < mant < MANT && bitOff < 64
    ensures mant * Pow2(64 * digitOff + bitOff) == Radix(digitOff) * (mant * Pow2(bitOff))
    ensures bitOff <= 11 ==> mant * Pow2(bitOff) < BASE
    ensures 11 < bitOff ==> mant / Pow2(64 - bitOff) < BASE
    ensures 11 < bitOff ==>
              mant * Pow2(bitOff) == mant * Pow2(bitOff) % BASE + BASE * (mant / Pow2(64 - bitOff))
  {
    hide Pow2, Radix;
    RadixIsPow2(digitOff);
    Pow2Add(64 * digitOff, bitOff);
    assert mant * (Pow2(64 * digitOff) * Pow2(bitOff)) == Pow2(64 * digitOff) * (mant * Pow2(bitOff));
    BaseSplit(bitOff);
    if bitOff <= 11 {
      Pow2Mono(bitOff, 11);
      MulStrict(mant, MANT, Pow2(bitOff));
      ElevenBits(bitOff);
    } else {
      NextWord(mant, Pow2(64 - bitOff), Pow2(bitOff)) by { assert Pow2(bitOff) * Pow2(64 - bitOff) == BASE; }
      StraddleSplit(mant, Pow2(64 - bitOff), Pow2(bitOff));
      QuotientNotLarger(mant, Pow2(64 - bitOff));
    }
  }

  lemma ElevenBits(b: nat)
    requires b <= 11
    ensures MANT * Pow2(b) <= BASE
  {
    Pow2Mono(b, 11);
    Pow2Constants();
  }

  lemma StraddleSplit(mant: nat, p: nat, c: nat)
    requires c * p == BASE && 1 <= p && mant * c % BASE == mant % p * c
    ensures mant * c == mant * c % BASE + BASE * (mant / p)
  {
    var q, r := mant / p, mant % p;
    assert mant == q * p + r;
    assert mant * c == q * (c * p) + r * c;
  }

  /** The exact integer of an integral double. */
  method NewFromDouble(value: Double) returns (z: BigInt)
    requires IsDouble(value) && IsIntegral(value)
    ensures z.Canonical() && z.Value() == IntOf(value)
  {
    hide Radix, Val, Pow2, Shl64, Shr64, IntOf;
    BelowMantIff(value);
    if value.m == 0 {
      ZeroIntOf(value);
      z := Zero();
      return;
    }
    var neg := value.m < 0;
    SignOfIntOf(value);
    if BelowMant(value) {
      z := NewFromUint64(Abs(IntOf(value)));
      CellBounds(z);
      z.sign := neg;
      return;
    }
    // |value| is mant * 2^shift with shift >= 0
    z := StoreMantissa(Abs(value.m), value.e);
    z.Canonicalize(neg);
  }

  /** Lays a 53-bit mantissa over one or two digits, over zeros. */
  method StoreMantissa(mant: Digit, shift: nat) returns (z: BigInt)
    requires 0 < mant < MANT && shift <= MAX_EXP
    ensures z.Valid() && z.Magnitude() == mant * Pow2(shift) && fresh(z) && fresh(z.digits)
  {
    hide Radix, Val, Pow2, Shl64, Shr64;
    var digitOff, bitOff := shift / 64, shift % 64;
    var len := digitOff + if 11 < bitOff then 2 else 1;
    z := new BigInt(len);
    forall i | 0 <= i < len { z.digits[i] := 0; }
    z.digits[digitOff] := Shl64(mant, bitOff);
    if 11 < bitOff && digitOff + 1 < len {
      z.digits[digitOff + 1] := Shr64(mant, 64 - bitOff);
    }
    MantissaStored(z.digits[..len], mant, digitOff, bitOff);
  }

  lemma MantissaStored(ds: seq<Digit>, mant: Digit, digitOff: nat, bitOff: nat)
    requires 0 < mant < MANT && bitOff < 64
    requires |ds| == digitOff + if 11 < bitOff then 2 else 1
    requires forall i :: 0 <= i < digitOff ==> ds[i] == 0
    requires ds[digitOff] == Shl64(mant, bitOff)
    requires 11 < bitOff ==> ds[digitOff + 1] == Shr64(mant, 64 - bitOff)
    ensures Val(ds) == mant * Pow2(64 * digitOff + bitOff)
  {
    hide Radix, Val, Pow2;
    MantissaDigits(mant, digitOff, bitOff);
    ZeroPrefix(ds, digitOff);
    if bitOff <= 11 {
      DivModUnique(mant * Pow2(bitOff), BASE, 0, mant * Pow2(bitOff));
    }
  }

  lemma ZeroIntOf(d: Double)
    requires IsIntegral(d)
    ensures d.m == 0 ==> IntOf(d) == 0
  {
    if d.m == 0 && d.e < 0 { DivModUnique(0, Pow2(-d.e), 0, 0); }
  }

  /** The sign of the integer is the sign of the mantissa. */
  lemma SignOfIntOf(d: Double)
    requires IsIntegral(d) && d.m != 0
    ensures IntOf(d) != 0 && (IntOf(d) < 0 <==> d.m < 0)
    ensures 0 <= d.e ==> Abs(IntOf(d)) == Abs(d.m) * Pow2(d.e)
  {
    hide Pow2;
    if d.e < 0 {
      var p := Pow2(-d.e);
      var k := d.m / p;
      assert d.m == k * p;
      if 0 <= k { MulMono(0, k, p); } else { MulMono(k, -1, p); }
    } else {
      AbsProduct(d.m, Pow2(d.e));
      MulMono(1, Pow2(d.e), Abs(d.m));
      if 0 <= d.m { MulMono(0, d.m, Pow2(d.e)); } else { MulMono(d.m, -1, Pow2(d.e)); }
    }
  }

  /** Digits that are zero below index k. */
  lemma ZeroPrefix(ds: seq<Digit>, k: nat)
    requires k < |ds| <= k + 2 && forall i :: 0 <= i < k ==> ds[i] == 0
    ensures Val(ds) == Radix(k) * (ds[k] + BASE * if |ds| == k + 2 then ds[k + 1] else 0)
  {
    hide Radix;
    ZeroDigits(ds[..k]);
    assert ds == ds[..k] + ds[k..];
    ValConcat(ds[..k], ds[k..]);
    if |ds| == k + 2 {
      assert ds[k..] == [ds[k], ds[k + 1]] && ds[k..][1..] == [ds[k + 1]];
      ValSingle(ds[k + 1]);
    } else {
      assert ds[k..] == [ds[k]];
      ValSingle(ds[k]);
    }
  }

  /** Every double that is an integer's rounding is integral, and exact below 2^53. */
  lemma {:induction false} RoundIsIntegral(x: int)
    requires Round(x).Fin?
    ensures IsIntegral(Round(x))
    ensures BelowMant(Round(x)) ==> IntUnits(x) == Units(Round(x))
  {
    hide Units, IntUnits;
    RoundNatIsIntegral(Abs(x));
    if x < 0 {
      var d := RoundNat(-x);
      NegateUnits(d);
      NegateIntUnits(-x);
      if d.e < 0 { NegateMultiple(d.m, Pow2(-d.e)); }
    }
  }

  lemma NegateMultiple(m: int, p: nat)
    requires 1 <= p && m % p == 0
    ensures -m % p == 0
  {
    var k := m / p;
    assert m == k * p;
    assert -m == (-k) * p;
    DivModUnique(-m, p, -k, 0);
  }

  lemma RoundNatIsIntegral(v: nat)
    requires RoundNat(v).Fin?
    ensures IsIntegral(RoundNat(v))
    ensures BelowMant(RoundNat(v)) ==> IntUnits(v) == Units(RoundNat(v))
  {
    hide Units, IntUnits, Pow2, BitLength;
    if v < MANT {
      SmallIsExact(v);
      if v == 0 {
        DivModUnique(0, Pow2(1074), 0, 0);
      } else {
        SmallBits(v);
        var p := Pow2(53 - BitLength(v));
        DivModUnique(v * p, p, v, 0);
      }
    } else {
      MantBits(v);
    }
  }

  // ---- comparison with a double

  /** The integer of an integral double rounds to that double: to_double undoes new_from_double. */
  lemma {:induction false} RoundTrip(d: Double)
    requires IsDouble(d) && IsIntegral(d)
    ensures Round(IntOf(d)) == d
  {
    hide Units, IntUnits, Overflow, Round, IntOf;
    var x := IntOf(d);
    IntOfUnits(d);
    FiniteBelowOverflow(d);
    if Overflow() <= Abs(x) {
      IntUnitsMono(Overflow(), Abs(x));
      NegateIntUnits(x);
    }
    forall f: Double | f.Fin? && IsDouble(f) && Units(f) == Units(d) ensures f == d { UnitsInjective(f, d); }
    NearestEvenUnique(x, d);
  }

  /** The true order of an integer and a double, even where the integer rounds onto it; 2 for NaN. */
  method CmpDouble(x: BigInt, d: Double) returns (c: int)
    requires x.Canonical() && IsDouble(d)
    ensures d.NaN? ==> c == 2
    ensures !d.NaN? ==> c == TrueOrder(x.Value(), d)
    ensures d == Inf(false) ==> c == -1
    ensures d == Inf(true) ==> c == 1
    ensures d.Fin? ==> (c == -1 <==> IntUnits(x.Value()) < Units(d))
    ensures d.Fin? ==> (c == 1 <==> Units(d) < IntUnits(x.Value()))
    ensures !d.NaN? ==> -1 <= c <= 1
  {
    hide Units, IntUnits, Round, Radix, Val, Pow2, IntOf;
    if d.NaN? { return 2; }
    if d.Inf? { return if !d.neg then -1 else 1; }
    var bd := ToDouble(x);
    RoundOrder(x.Value(), d);
    if Less(bd, d) { return -1; }
    if Less(d, bd) { return 1; }
    RoundIsIntegral(x.Value());
    // the code breaks a tie with a fractional d here: there is none
    assert IsIntegral(d);
    if BelowMant(d) { return 0; }
    var dv := NewFromDouble(d);
    IntOfUnits(d);
    IntUnitsOrder(x.Value(), IntOf(d));
    c := Cmp(x, dv);
  }
}
