/** BigInt cells and their operators: runtime/ejs-bigint.cpp. */
module BigInts {
  import opened Arith
  import opened Digits

  const MAX_DIGITS := 0x10_0000  // EJS_BIGINT_MAX_DIGITS, 2^20

  /** The RangeErrors the operators throw. */
  datatype RangeError = TooBig | NegativeExponent

  datatype Outcome = Ok(value: BigInt) | Throws(error: RangeError) {
    predicate IsFailure() { Throws? }

    function PropagateFailure(): Outcome
      requires Throws?
    {
      this
    }

    function Extract(): BigInt
      requires Ok?
    {
      value
    }

    /** The outcome is a well-formed cell holding v. */
    ghost predicate Holds(v: int)
      reads if Ok? then {value, value.digits} else {}
    {
      Ok? && value.Canonical() && value.Value() == v
    }
  }

  function Signed(negative: bool, m: int): int { if negative then -m else m }

  /** A cell: `length` of the digits are in use, least significant first. */
  class BigInt {
    const digits: array<Digit>
    var length: nat
    var sign: bool

    ghost predicate Valid()
      reads this
    {
      length <= digits.Length && length <= MAX_DIGITS
    }

    function Magnitude(): nat
      requires Valid()
      reads this, digits
    {
      Val(digits[..length])
    }

    function Value(): int
      requires Valid()
      reads this, digits
    {
      Signed(sign, Magnitude())
    }

    /** No leading zero digit, and zero is never negative. */
    ghost predicate Canonical()
      reads this, digits
    {
      Valid() && Normalized(digits[..length]) && (length == 0 ==> !sign)
    }

    /** bigint_alloc below the size limit: the digits are not initialised. */
    constructor (n: nat)
      requires n <= MAX_DIGITS
      ensures Valid() && length == n == digits.Length && !sign && fresh(digits)
    {
      digits := new Digit[n];
      length, sign := n, false;
    }

    /** Writes v into the digits: what the vendored digit routines do with their results. */
    method Store(v: nat)
      requires Valid() && v < Radix(length)
      modifies digits
      ensures Magnitude() == v
    {
      hide Val, Radix;
      var rest: nat, i: nat := v, 0;
      StoreNothing(rest, digits[..0]);
      while i < length
        invariant 0 <= i <= length
        invariant Val(digits[..i]) + Radix(i) * rest == v
        invariant rest < Radix(length - i)
      {
        ghost var low := digits[..i];
        digits[i] := rest % BASE;
        assert digits[..i + 1] == low + [rest % BASE];
        StoreStep(low, rest, length - i - 1);
        rest, i := rest / BASE, i + 1;
      }
      RadixZero(length - i);
    }

    /** Trims leading zero digits and sets the sign; zero is length 0, sign 0. */
    method Canonicalize(negative: bool)
      requires Valid()
      modifies this
      ensures Canonical() && length <= old(length)
      ensures Value() == Signed(negative, old(Magnitude()))
    {
      while 0 < length && digits[length - 1] == 0
        invariant Valid() && length <= old(length)
        invariant Magnitude() == old(Magnitude())
      {
        DropTopZero(digits[..length]);
        assert digits[..length][..length - 1] == digits[..length - 1];
        length := length - 1;
      }
      sign := 0 < length && negative;
    }
  }

  lemma StoreNothing(rest: nat, none: seq<Digit>)
    requires none == []
    ensures Val(none) + Radix(|none|) * rest == rest
  {
  }

  lemma RadixZero(n: nat)
    requires n == 0
    ensures Radix(n) == 1
  {
  }

  /** One more digit of the rest. */
  lemma StoreStep(low: seq<Digit>, rest: nat, room: nat)
    requires rest < Radix(room + 1)
    ensures Val(low + [rest % BASE]) + Radix(|low| + 1) * (rest / BASE) == Val(low) + Radix(|low|) * rest
    ensures rest / BASE < Radix(room)
  {
    hide Val, Radix;
    var q, r := rest / BASE, rest % BASE;
    var ds := low + [r];
    assert ds[..|ds| - 1] == low;
    ValLast(ds);
    RadixStep(|low|);
    RadixStep(room);
    SplitRest(Radix(|low|), q, r);
    QuotientRoom(rest, BASE, Radix(room));
  }

  lemma SplitRest(p: nat, q: nat, r: nat)
    ensures p * (BASE * q + r) == BASE * p * q + p * r
  {
    MulAssoc(p, BASE, q);
  }

  // ---- creation

  method Alloc(n: nat) returns (r: Outcome)
    ensures r.Ok? <==> n <= MAX_DIGITS
    ensures r.Throws? ==> r.error == TooBig
    ensures r.Ok? ==> r.value.Valid() && r.value.length == n == r.value.digits.Length
                      && !r.value.sign && fresh(r.value) && fresh(r.value.digits)
  {
    if MAX_DIGITS < n { return Throws(TooBig); }
    var cell := new BigInt(n);
    return Ok(cell);
  }

  method Zero() returns (z: BigInt)
    ensures z.Canonical() && z.Value() == 0 && fresh(z) && fresh(z.digits)
  {
    z := new BigInt(0);
  }

  method NewFromUint64(value: Digit) returns (z: BigInt)
    ensures z.Canonical() && z.Value() == value && z.Magnitude() == value
    ensures fresh(z) && fresh(z.digits)
  {
    if value == 0 { z := Zero(); return; }
    z := new BigInt(1);
    z.digits[0] := value;
    assert z.digits[..1] == [value];
    ValSingle(value);
  }

  method NewFromInt64(value: int) returns (z: BigInt)
    requires -0x8000_0000_0000_0000 <= value < 0x8000_0000_0000_0000
    ensures z.Canonical() && z.Value() == value && fresh(z) && fresh(z.digits)
  {
    if value == 0 { z := Zero(); return; }
    z := new BigInt(1);
    if value < 0 {
      // -(value + 1) is in range even for the least int64
      z.digits[0] := -(value + 1) + 1;
      z.sign := true;
    } else {
      z.digits[0] := value;
    }
    assert z.digits[..1] == [z.digits[0]];
    ValSingle(z.digits[0]);
  }

  // ---- cells and values

  /** A canonical cell's length is determined by its value. */
  lemma CellBounds(x: BigInt)
    requires x.Canonical()
    ensures x.length == 0 <==> x.Value() == 0
    ensures x.sign <==> x.Value() < 0
    ensures x.Magnitude() == Abs(x.Value()) < Radix(x.length)
    ensures 0 < x.length ==> Radix(x.length - 1) <= x.Magnitude()
  {
    ValBound(x.digits[..x.length]);
    if 0 < x.length { NormalizedBounds(x.digits[..x.length]); }
  }

  lemma OneDigit(x: BigInt)
    requires x.Valid() && x.length == 1
    ensures x.Magnitude() == x.digits[0]
  {
    assert x.digits[..1] == [x.digits[0]];
    ValSingle(x.digits[0]);
  }

  lemma LowDigit(x: BigInt)
    requires x.Valid() && 0 < x.length
    ensures x.Magnitude() % BASE == x.digits[0]
  {
    var ds := x.digits[..x.length];
    DivModUnique(Val(ds), BASE, Val(ds[1..]), ds[0]);
  }

  // ---- operators

  /** Multiplication: the product, or a RangeError when the digits allocated for it are too many. */
  method Mul(x: BigInt, y: BigInt) returns (r: Outcome)
    requires x.Canonical() && y.Canonical()
    ensures r.Ok? ==> r.Holds(x.Value() * y.Value())
    ensures r.Throws? <==> x.Value() != 0 && y.Value() != 0
                           && MAX_DIGITS < DigitCount(Abs(x.Value())) + DigitCount(Abs(y.Value()))
    ensures r.Throws? ==> r.error == TooBig
  {
    hide Val, Radix, DigitCount;
    ProductOfCells(x, y);
    CellLength(x);
    CellLength(y);
    if x.length == 0 || y.length == 0 {
      var zero := Zero();
      return Ok(zero);
    }
    var neg := x.sign != y.sign;
    var z :- Alloc(x.length + y.length);
    z.Store(x.Magnitude() * y.Magnitude());
    z.Canonicalize(neg);
    return Ok(z);
  }

  /** The product of two cells, by sign and magnitude, and the room it takes. */
  lemma ProductOfCells(x: BigInt, y: BigInt)
    requires x.Canonical() && y.Canonical()
    ensures x.Value() * y.Value() == Signed(x.sign != y.sign, x.Magnitude() * y.Magnitude())
    ensures x.Value() != 0 && y.Value() != 0 <==> x.length != 0 && y.length != 0
    ensures x.length == 0 || y.length == 0 ==> x.Magnitude() * y.Magnitude() == 0
    ensures x.Magnitude() * y.Magnitude() < Radix(x.length + y.length)
  {
    hide Val, Radix;
    CellBounds(x);
    CellBounds(y);
    ProductFits(x.Magnitude(), x.length, y.Magnitude(), y.length);
    SignedProduct(x.Value(), y.Value());
  }

  lemma ProductFits(a: nat, m: nat, b: nat, n: nat)
    requires a < Radix(m) && b < Radix(n)
    ensures a * b < Radix(m + n)
  {
    RadixAdd(m, n);
    ProductBelow(a, b, Radix(m), Radix(n));
  }

  lemma ProductBelow(a: nat, b: nat, c: nat, d: nat)
    requires a < c && b < d
    ensures a * b < c * d
  {
    MulMono(a, c, b);
    MulStrict(b, d, c);
    assert c * b == b * c && d * c == c * d;
  }

  lemma SignedProduct(a: int, b: int)
    ensures a * b == if (a < 0) != (b < 0) then -(Abs(a) * Abs(b)) else Abs(a) * Abs(b)
  {
    if a < 0 {
      assert (-a) * b == -(a * b);
      assert (-a) * (-b) == a * b;
    } else {
      assert a * (-b) == -(a * b);
    }
  }

  /** Negation; zero is returned as it is. */
  method Neg(x: BigInt) returns (z: BigInt)
    requires x.Canonical()
    ensures z.Canonical() && z.Value() == -x.Value()
  {
    if x.length == 0 { return x; }
    z := new BigInt(x.length);
    forall i | 0 <= i < x.length { z.digits[i] := x.digits[i]; }
    assert z.digits[..x.length] == x.digits[..x.length];
    z.sign := !x.sign;
  }

  // ---- shifts

  /** Multiplication by 2^n, or floor division by 2^-n. */
  function ShiftLeft(x: int, n: int): int {
    if 0 <= n then x * Pow2(n) else x / Pow2(-n)
  }

  /** A right shift is the floor: the result's multiple of 2^n is the greatest not above x. */
  lemma ShiftIsFloor(x: int, n: int)
    requires 0 <= n
    ensures var q := ShiftLeft(x, -n); q * Pow2(n) <= x < (q + 1) * Pow2(n)
  {
    hide Pow2;
    var p := Pow2(n);
    assert x == x / p * p + x % p;
    if n == 0 { Pow2Zero(n); }
  }

  /** A left shift is undone by the right shift of the same count. */
  lemma ShiftBack(x: int, n: int)
    requires 0 <= n
    ensures ShiftLeft(ShiftLeft(x, n), -n) == x
  {
    hide Pow2;
    Pow2Zero(n);
    DivModUnique(x * Pow2(n), Pow2(n), x, 0);
  }

  /** The shifts that shl refuses: a nonzero value moved up past the digit limit. */
  ghost predicate ShiftTooBig(x: BigInt, n: int)
    reads x
  {
    x.length != 0 && 0 < n && MAX_DIGITS < n / 64 + x.length + 1
  }

  lemma ShiftFits(a: nat, m: nat, n: nat)
    requires a < Radix(m)
    ensures a * Pow2(n) < Radix(m + n / 64 + 1)
  {
    hide Radix;
    var k := n / 64;
    RadixIsPow2(k + 1);
    Pow2Strict(n, 64 * (k + 1));
    ProductBelow(a, Pow2(n), Radix(m), Radix(k + 1));
    RadixAdd(m, k + 1);
  }

  lemma LongCount(y: BigInt)
    requires y.Canonical() && 1 < y.length
    ensures BASE <= y.Magnitude()
  {
    CellBounds(y);
    RadixMono(1, y.length - 1);
    assert Radix(1) == BASE * Radix(0);
  }

  lemma ShiftZero(n: int)
    ensures ShiftLeft(0, n) == 0
    ensures n == 0 ==> forall x :: ShiftLeft(x, n) == x
  {
    if n < 0 { DivModUnique(0, Pow2(-n), 0, 0); }
  }

  /** Everything is shifted out: 0 is left of a positive number and -1 of a negative one. */
  lemma {:induction false} ShiftOut(x: int, m: nat, n: nat)
    requires Abs(x) < Radix(m) && 64 * m <= n
    ensures x / Pow2(n) == if x < 0 then -1 else 0
  {
    RadixIsPow2(m);
    Pow2Mono(64 * m, n);
    if x < 0 {
      DivModUnique(x, Pow2(n), -1, x + Pow2(n));
    } else {
      DivModUnique(x, Pow2(n), 0, x);
    }
  }

  /** Floor division on sign and magnitude: a negative magnitude rounds up. */
  function ShiftedMagnitude(neg: bool, m: nat, p: nat): nat
    requires 0 < p
  {
    m / p + if neg && m % p != 0 then 1 else 0
  }

  lemma ShrValue(x: int, n: int)
    requires 0 < n
    ensures ShiftLeft(x, -n) == Signed(x < 0, ShiftedMagnitude(x < 0, Abs(x), Pow2(n)))
    ensures x < 0 ==> 1 <= ShiftedMagnitude(x < 0, Abs(x), Pow2(n))
  {
    hide Pow2;
    FloorBySign(x, Pow2(n));
    if x < 0 { FloorOfSmall(-x, Pow2(n)); }
  }

  lemma FloorOfSmall(m: nat, p: nat)
    requires 0 < m && 0 < p
    ensures m / p != 0 || m % p != 0
  {
    assert m == m / p * p + m % p;
  }

  lemma {:induction false} FloorBySign(x: int, p: nat)
    requires 0 < p
    ensures x / p == Signed(x < 0, ShiftedMagnitude(x < 0, Abs(x), p))
  {
    if x < 0 {
      var q, r := -x / p, -x % p;
      assert -x == q * p + r;
      assert (-q) * p == -(q * p) && (-q - 1) * p == -(q * p) - p;
      if r == 0 { DivModUnique(x, p, -q, 0); } else { DivModUnique(x, p, -q - 1, p - r); }
    }
  }

  /** The result digits of a right shift: one more when rounding up carries out of full digits. */
  function ShrLength(ds: seq<Digit>, neg: bool, shift: nat): nat
    requires ds != [] && shift < 64 * |ds|
  {
    var mustRoundDown := neg && Val(ds) % Pow2(shift) != 0;
    |ds| - shift / 64 + if mustRoundDown && shift % 64 == 0 && ds[|ds| - 1] == BASE - 1 then 1 else 0
  }

  lemma {:induction false} ShrFits(ds: seq<Digit>, neg: bool, shift: nat)
    requires ds != [] && 0 < shift < 64 * |ds|
    ensures 1 <= ShrLength(ds, neg, shift) <= |ds|
    ensures ShiftedMagnitude(neg, Val(ds), Pow2(shift)) < Radix(ShrLength(ds, neg, shift))
  {
    hide Radix, Val, Pow2;
    var k, n := shift / 64, |ds| - shift / 64;
    RadixIsPow2(k);
    RadixAdd(k, n);
    RadixStep(n - 1);
    RadixStep(n);
    if shift % 64 != 0 {
      ShrFitsBits(ds, shift, k, n);
    } else if ds[|ds| - 1] == BASE - 1 {
      ShrFitsFull(ds, shift, k, n);
    } else {
      ShrFitsTop(ds, shift, k, n);
    }
  }

  lemma ShrFitsBits(ds: seq<Digit>, shift: nat, k: nat, n: nat)
    requires |ds| == k + n && Radix(k + n) == Radix(k) * Radix(n) && Radix(k) == Pow2(64 * k)
    requires 1 <= n && 64 * k < shift
    ensures Val(ds) / Pow2(shift) + 1 < Radix(n)
  {
    hide Radix, Val, Pow2;
    ValBound(ds);
    RadixStep(n - 1);
    Pow2Strict(64 * k, shift);
    HalfRoom(Val(ds), Pow2(shift), Radix(k), Radix(n) - 1);
  }

  lemma ShrFitsFull(ds: seq<Digit>, shift: nat, k: nat, n: nat)
    requires |ds| == k + n && Radix(k + n) == Radix(k) * Radix(n) && Radix(k) == Pow2(shift)
    ensures Val(ds) / Pow2(shift) < Radix(n)
  {
    hide Radix, Val, Pow2;
    ValBound(ds);
    QuotientRoom(Val(ds), Pow2(shift), Radix(n));
  }

  lemma ShrFitsTop(ds: seq<Digit>, shift: nat, k: nat, n: nat)
    requires |ds| == k + n && 1 <= n && Radix(k) == Pow2(shift) && ds[|ds| - 1] < BASE - 1
    ensures Val(ds) / Pow2(shift) + 1 < Radix(n)
  {
    hide Radix, Val, Pow2;
    var p, room := Pow2(shift), Radix(n - 1);
    ValLast(ds);
    ValBound(ds[..|ds| - 1]);
    RadixAdd(k, n - 1);
    RadixStep(n - 1);
    TopNotFull(Val(ds), p, room, ds[|ds| - 1]);
  }

  lemma RadixStep(n: nat)
    ensures Radix(n + 1) == BASE * Radix(n)
  {
  }

  lemma TopNotFull(v: nat, p: nat, room: nat, d: Digit)
    requires v < p * room + p * room * d && d < BASE - 1 && 1 <= room && 1 <= p
    ensures v / p + 1 < BASE * room
  {
    var w := p * room;
    MulMono(d + 1, BASE - 1, w);
    assert (d + 1) * w == w + w * d;
    QuotientRoom(v, p, (BASE - 1) * room) by { assert p * ((BASE - 1) * room) == (BASE - 1) * w; }
  }

  lemma QuotientRoom(v: nat, p: nat, room: nat)
    requires v < p * room && 1 <= p
    ensures v / p < room
  {
    var q, r := v / p, v % p;
    assert v == q * p + r;
    if room <= q { MulMono(room, q, p); }
  }

  lemma HalfRoom(v: nat, p: nat, k: nat, room: nat)
    requires v < k * (room + 1) && 2 * k <= p && 1 <= k && 1 <= room
    ensures v / p < room
  {
    MulMono(2 * k, p, room);
    MulGe(room, k);
    QuotientRoom(v, p, room);
  }

  lemma SignedShift(a: int, p: nat)
    ensures a * p == Signed(a < 0, Abs(a) * p)
  {
    SignedProduct(a, p);
  }

  /** x << y: multiplication by 2^y, or floor division for a negative count, which is handed to Shr. */
  method Shl(x: BigInt, y: BigInt) returns (r: Outcome)
    requires x.Canonical() && y.Canonical()
    ensures r.Throws? <==> ShiftTooBig(x, y.Value())
    ensures r.Throws? ==> r.error == TooBig
    ensures r.Ok? ==> r.Holds(ShiftLeft(x.Value(), y.Value()))
    decreases y.sign
  {
    hide Radix, Val, Pow2;
    CellBounds(x);
    CellBounds(y);
    if y.sign {
      var n := Neg(y);
      CellBounds(n);
      r := Shr(x, n);
      return;
    }
    if x.length == 0 {
      ShiftZero(y.Value());
      ShiftZero(-y.Value());
      var zero := Zero();
      return Ok(zero);
    }
    if y.length == 0 {
      ShiftZero(y.Value());
      return Ok(x);
    }
    if 1 < y.length {
      LongCount(y);
      return Throws(TooBig);
    }
    OneDigit(y);
    var shift := y.digits[0];
    if MAX_DIGITS < shift / 64 + x.length + 1 {
      return Throws(TooBig);
    }
    var neg := x.sign;
    var z := new BigInt(x.length + shift / 64 + 1);
    ShiftFits(x.Magnitude(), x.length, shift);
    z.Store(x.Magnitude() * Pow2(shift));
    z.Canonicalize(neg);
    SignedShift(x.Value(), Pow2(shift));
    return Ok(z);
  }

  /** x >> y: floor division by 2^y, or multiplication for a negative count, which is handed to Shl. */
  method Shr(x: BigInt, y: BigInt) returns (r: Outcome)
    requires x.Canonical() && y.Canonical()
    ensures r.Throws? <==> ShiftTooBig(x, -y.Value())
    ensures r.Throws? ==> r.error == TooBig
    ensures r.Ok? ==> r.Holds(ShiftLeft(x.Value(), -y.Value()))
    decreases y.sign
  {
    hide Radix, Val, Pow2, ShiftedMagnitude, ShrLength;
    CellBounds(x);
    CellBounds(y);
    if y.sign {
      var n := Neg(y);
      CellBounds(n);
      r := Shl(x, n);
      return;
    }
    if x.length == 0 {
      ShiftZero(y.Value());
      ShiftZero(-y.Value());
      var zero := Zero();
      return Ok(zero);
    }
    if y.length == 0 {
      ShiftZero(y.Value());
      return Ok(x);
    }
    var neg := x.sign;
    var bits := x.length * 64;
    if 1 < y.length { LongCount(y); } else { OneDigit(y); }
    if 1 < y.length || bits <= y.digits[0] {
      ShiftOut(x.Value(), x.length, y.Value());
      var out;
      if neg { out := NewFromInt64(-1); } else { out := Zero(); }
      return Ok(out);
    }
    var shift := y.digits[0];
    var rlen := ShrLength(x.digits[..x.length], neg, shift);
    ShrFits(x.digits[..x.length], neg, shift);
    var z := new BigInt(Max(rlen, 1));
    z.length := rlen;
    z.Store(ShiftedMagnitude(neg, x.Magnitude(), Pow2(shift)));
    z.Canonicalize(neg);
    ShrValue(x.Value(), shift);
    CellBounds(z);
    // a negative number never rounds to nothing here, so the -1 the code keeps for that is not needed
    assert neg ==> z.length != 0;
    return Ok(z);
  }

  // ---- how many digits a value takes

  function DigitCount(x: nat): (n: nat)
    ensures x < Radix(n) && (n == 0 <==> x == 0)
    ensures 0 < n ==> Radix(n - 1) <= x
  {
    if x == 0 then 0
    else
      DigitBounds(x / BASE, x % BASE, DigitCount(x / BASE));
      1 + DigitCount(x / BASE)
  }

  lemma DigitBounds(q: nat, r: nat, n: nat)
    requires q < Radix(n) && r < BASE && (0 < n ==> Radix(n - 1) <= q)
    ensures q * BASE + r < Radix(n + 1)
    ensures 0 < n ==> Radix(n) <= q * BASE + r
  {
    assert Radix(n + 1) == BASE * Radix(n);
    if 0 < n { assert Radix(n) == BASE * Radix(n - 1); }
  }

  lemma CountBetween(x: nat, lo: nat, hi: nat)
    ensures Radix(lo) <= x ==> lo < DigitCount(x)
    ensures x < Radix(hi) ==> DigitCount(x) <= hi
  {
    hide Radix;
    var n := DigitCount(x);
    if n <= lo { RadixMono(n, lo); }
    if hi < n { RadixMono(hi, n - 1); }
  }

  /** The digits a product takes: as many as its factors together, or one less. */
  lemma ProductCount(x: nat, y: nat)
    requires 0 < x && 0 < y
    ensures DigitCount(x) + DigitCount(y) - 1 <= DigitCount(x * y) <= DigitCount(x) + DigitCount(y)
  {
    hide Radix;
    var m, n := DigitCount(x), DigitCount(y);
    ProductFits(x, m, y, n);
    ProductReaches(x, m - 1, y, n - 1);
    hide DigitCount;
    CountBetween(x * y, m - 1 + (n - 1), m + n);
  }

  lemma ProductReaches(a: nat, m: nat, b: nat, n: nat)
    requires Radix(m) <= a && Radix(n) <= b
    ensures Radix(m + n) <= a * b
  {
    hide Radix;
    RadixAdd(m, n);
    MulMono(Radix(m), a, Radix(n));
    MulMono(Radix(n), b, a);
  }

  /** A canonical cell has the length of its value. */
  lemma CellLength(x: BigInt)
    requires x.Canonical()
    ensures x.length == DigitCount(Abs(x.Value()))
  {
    hide Radix, Val;
    CellBounds(x);
    if 0 < x.length { CountBetween(Abs(x.Value()), x.length - 1, x.length); }
  }

  // ---- power

  function Exp(b: int, n: nat): int {
    if n == 0 then 1 else b * Exp(b, n - 1)
  }

  lemma {:induction false} ExpAdd(b: int, m: nat, n: nat)
    ensures Exp(b, m + n) == Exp(b, m) * Exp(b, n)
  {
    if m != 0 {
      ExpAdd(b, m - 1, n);
      MulAssoc(b, Exp(b, m - 1), Exp(b, n));
    }
  }

  lemma {:induction false} ExpOfUnits(n: nat)
    ensures Exp(1, n) == 1
    ensures Exp(-1, n) == if n % 2 == 0 then 1 else -1
  {
    if n != 0 { ExpOfUnits(n - 1); }
  }

  lemma {:induction false} ExpNonzero(b: int, n: nat)
    requires b != 0
    ensures Exp(b, n) != 0
    ensures 2 <= Abs(b) ==> Pow2(n) <= Abs(Exp(b, n))
  {
    if n != 0 {
      ExpNonzero(b, n - 1);
      var rest := Exp(b, n - 1);
      AbsProduct(b, rest);
      if 2 <= Abs(b) { MulMono(2, Abs(b), Abs(rest)); }
    }
  }

  /** The greatest power of two not above n. */
  function TopPower(n: nat): (p: nat)
    requires 0 < n
    ensures 0 < p <= n < 2 * p
  {
    if n == 1 then 1 else 2 * TopPower(n / 2)
  }

  /** The digits of a power. */
  function PowerCount(b: int, n: nat): nat { DigitCount(Abs(Exp(b, n))) }

  /**
   * The powers refused: the leading power of two of the exponent gives one factor and the rest of the
   * exponent the other, and the two together take too many digits.
   */
  predicate Refused(b: int, n: nat) {
    0 < n && MAX_DIGITS < PowerCount(b, n - TopPower(n)) + PowerCount(b, TopPower(n))
  }

  /** A power past the limit is refused and one below it is not; at the limit itself, Refused decides. */
  lemma RefusedLengths(b: int, n: nat)
    requires b != 0
    ensures Refused(b, n) ==> MAX_DIGITS <= PowerCount(b, n)
    ensures !Refused(b, n) ==> PowerCount(b, n) <= MAX_DIGITS
  {
    hide DigitCount;
    if n == 0 {
      assert Exp(b, n) == 1;
      UnitsAreShort();
    } else {
      ExpAdd(b, n - TopPower(n), TopPower(n));
      CountOfProduct(b, n - TopPower(n), TopPower(n));
    }
  }

  lemma UnitsAreShort()
    ensures DigitCount(1) == 1 && DigitCount(0) == 0
  {
  }

  lemma CountOfProduct(b: int, m: nat, n: nat)
    requires b != 0
    ensures PowerCount(b, m) + PowerCount(b, n) - 1 <= PowerCount(b, m + n) <= PowerCount(b, m) + PowerCount(b, n)
    ensures 0 < PowerCount(b, m)
  {
    ExpAdd(b, m, n);
    ExpNonzero(b, m);
    ExpNonzero(b, n);
    AbsProduct(Exp(b, m), Exp(b, n));
    ProductCount(Abs(Exp(b, m)), Abs(Exp(b, n)));
  }

  lemma CountMono(b: int, m: nat, n: nat)
    requires b != 0 && m <= n
    ensures PowerCount(b, m) <= PowerCount(b, n)
  {
    CountOfProduct(b, n - m, m);
  }

  /** A product of two powers within the exponent that is too long means the power is refused. */
  lemma EarlyRefusal(b: int, n: nat, low: nat, p: nat)
    requires b != 0 && 0 < n && low <= n - TopPower(n)
    requires p <= TopPower(n) && MAX_DIGITS < PowerCount(b, low) + PowerCount(b, p)
    ensures Refused(b, n)
  {
    CountMono(b, low, n - TopPower(n));
    CountMono(b, p, TopPower(n));
  }

  /** So does a square that is too long. */
  lemma SquareRefusal(b: int, n: nat, p: nat)
    requires b != 0 && 0 < n && 2 * p <= TopPower(n) && MAX_DIGITS < PowerCount(b, p) + PowerCount(b, p)
    ensures Refused(b, n)
  {
    hide PowerCount, TopPower;
    CountOfProduct(b, p, p);
    CountMono(b, p + p, TopPower(n));
    CountOfProduct(b, n - TopPower(n), 0);
  }

  /** A base other than -1, 0 and 1 raised to 2^64 or more is refused. */
  lemma LongExponentIsRefused(b: int, n: nat)
    requires 2 <= Abs(b) && BASE <= n
    ensures Refused(b, n)
  {
    hide Pow2, DigitCount, Radix;
    var p := TopPower(n);
    ExpNonzero(b, p);
    RadixIsPow2(MAX_DIGITS);
    Pow2Mono(64 * MAX_DIGITS, p);
    CountBetween(Abs(Exp(b, p)), MAX_DIGITS, 0);
  }

  /** Powers of -1, 0 and 1 never are. */
  lemma UnitsAreNotRefused(b: int, n: nat)
    requires -1 <= b <= 1
    ensures !Refused(b, n)
  {
    if 0 < n {
      UnitPower(b, n - TopPower(n));
      UnitPower(b, TopPower(n));
    }
  }

  lemma UnitPower(b: int, n: nat)
    requires -1 <= b <= 1
    ensures PowerCount(b, n) <= 1
  {
    UnitsAreShort();
    if b == 0 {
      ExpZero(b, n);
    } else {
      ExpOfUnits(n);
    }
  }

  lemma NotUnit(x: BigInt)
    requires x.Canonical() && x.length != 0 && (x.length == 1 ==> x.digits[0] != 1)
    ensures 2 <= Abs(x.Value())
  {
    CellBounds(x);
    if x.length == 1 {
      OneDigit(x);
    } else {
      LongCount(x);
    }
  }

  /** x ** y. A result is exact; the RangeErrors mean a negative exponent or a power that is refused. */
  method Pow(x: BigInt, y: BigInt) returns (r: Outcome)
    requires x.Canonical() && y.Canonical()
    ensures r == Throws(NegativeExponent) <==> y.Value() < 0
    ensures r == Throws(TooBig) <==> 0 <= y.Value() && Refused(x.Value(), y.Value())
    ensures r.Ok? ==> r.Holds(Exp(x.Value(), y.Value()))
  {
    hide Radix, Val, Exp, Refused, DigitCount, Pow2;
    CellBounds(x);
    CellBounds(y);
    if y.sign { return Throws(NegativeExponent); }
    if y.length == 0 {
      ExpZero(x.Value(), y.Value());
      NothingRefused(x.Value());
      var one := NewFromInt64(1);
      return Ok(one);
    }
    if x.length == 0 {
      ExpZero(x.Value(), y.Value());
      UnitsAreNotRefused(x.Value(), y.Value());
      var zero := Zero();
      return Ok(zero);
    }
    if x.length == 1 && x.digits[0] == 1 {
      OneDigit(x);
      LowDigit(y);
      ExpOfUnits(y.Value());
      UnitsAreNotRefused(x.Value(), y.Value());
      var odd := y.digits[0] % 2 != 0;
      var unit := NewFromInt64(if x.sign && odd then -1 else 1);
      return Ok(unit);
    }
    NotUnit(x);
    if 1 < y.length {
      LongCount(y);
      LongExponentIsRefused(x.Value(), y.Value());
      return Throws(TooBig);
    }
    OneDigit(y);
    r := SquareAndMultiply(x, y.digits[0]);
  }

  lemma NothingRefused(b: int)
    ensures !Refused(b, 0)
  {
  }

  lemma ExpZero(b: int, n: nat)
    ensures n == 0 ==> Exp(b, n) == 1
    ensures n != 0 && b == 0 ==> Exp(b, n) == 0
  {
  }

  /**
   * What the loop keeps: the exponent is low + p * e, the result is the power of its low part and the
   * base the power p, itself a power of two; once nothing is left, nothing was refused.
   */
  ghost predicate Keeps(b: int, n: nat, u: int, c: int, e: nat, low: nat, p: nat) {
    && n == low + p * e && u == Exp(b, low)
    && (0 < e ==> 0 < n && c == Exp(b, p) && TopPower(n) == p * TopPower(e))
    && (e == 0 ==> !Refused(b, n))
  }

  lemma LoopStarts(b: int, n: nat)
    ensures Keeps(b, n, 1, b, n, 0, 1)
  {
    assert Exp(b, 1) == b * Exp(b, 0);
  }

  /** A multiplication of the turn and the part of the exponent it covers. */
  lemma MultiplyStep(b: int, n: nat, u: int, c: int, e: nat, low: nat, p: nat)
    requires b != 0 && 0 < e && Keeps(b, n, u, c, e, low, p)
    ensures MAX_DIGITS < DigitCount(Abs(u)) + DigitCount(Abs(c)) ==> Refused(b, n)
    ensures u * c == Exp(b, low + p) && u != 0 && c != 0
    ensures e == 1 ==>
      (MAX_DIGITS < DigitCount(Abs(u)) + DigitCount(Abs(c)) <==> Refused(b, n)) && n == low + p
  {
    hide DigitCount, Exp;
    ExpAdd(b, low, p);
    ExpNonzero(b, low);
    ExpNonzero(b, p);
    MulMono(TopPower(e), e, p);
    MulMono(1, TopPower(e), p);
    if MAX_DIGITS < DigitCount(Abs(u)) + DigitCount(Abs(c)) { EarlyRefusal(b, n, low, p); }
  }

  /** The square of the turn. */
  lemma SquareStep(b: int, n: nat, u: int, c: int, e: nat, low: nat, p: nat)
    requires b != 0 && 1 < e && Keeps(b, n, u, c, e, low, p)
    ensures MAX_DIGITS < DigitCount(Abs(c)) + DigitCount(Abs(c)) ==> Refused(b, n)
    ensures var low' := if e % 2 == 1 then low + p else low;
      Keeps(b, n, Exp(b, low'), c * c, e / 2, low', 2 * p)
  {
    hide DigitCount, Exp;
    var h := e / 2;
    ExpAdd(b, p, p);
    HalfStep(low, p, e, h, TopPower(h));
    if MAX_DIGITS < DigitCount(Abs(c)) + DigitCount(Abs(c)) { SquareRefusal(b, n, p); }
  }

  /** One turn: what is refused in it, and what it keeps. */
  lemma Turn(b: int, n: nat, u: int, c: int, e: nat, low: nat, p: nat)
    requires b != 0 && 0 < e && Keeps(b, n, u, c, e, low, p)
    ensures u != 0 && c != 0
    ensures MAX_DIGITS < DigitCount(Abs(u)) + DigitCount(Abs(c)) ==> Refused(b, n)
    ensures 1 < e && MAX_DIGITS < DigitCount(Abs(c)) + DigitCount(Abs(c)) ==> Refused(b, n)
    ensures var u', low' := if e % 2 == 1 then u * c else u, if e % 2 == 1 then low + p else low;
      if 1 < e then Keeps(b, n, u', c * c, e / 2, low', 2 * p)
      else DigitCount(Abs(u)) + DigitCount(Abs(c)) <= MAX_DIGITS ==> Keeps(b, n, u', c, 0, low', 2 * p)
  {
    hide DigitCount, Exp, Refused;
    MultiplyStep(b, n, u, c, e, low, p);
    if 1 < e { SquareStep(b, n, u, c, e, low, p); }
  }

  lemma HalfStep(low: nat, p: nat, e: nat, h: nat, top: nat)
    requires h == e / 2 && 0 < top
    ensures low + p * e == (if e % 2 == 1 then low + p else low) + 2 * p * h
    ensures p * (2 * top) == 2 * p * top >= 2 * p
  {
    assert e == 2 * h + e % 2;
    assert p * (2 * h) == 2 * p * h;
    MulMono(1, top, 2 * p);
  }

  /** The loop of the power. */
  method SquareAndMultiply(x: BigInt, exponent: nat) returns (r: Outcome)
    requires x.Canonical() && x.Value() != 0
    ensures r.Ok? ==> r.Holds(Exp(x.Value(), exponent))
    ensures r == Throws(TooBig) <==> Refused(x.Value(), exponent)
    ensures r.Throws? ==> r.error == TooBig
  {
    hide Radix, Val, Exp, Refused, DigitCount, TopPower;
    ghost var b := x.Value();
    ghost var low: nat, p: nat := 0, 1;
    var e := exponent;
    var result := NewFromInt64(1);
    var base := x;
    LoopStarts(b, exponent);
    while 0 < e
      invariant result.Canonical() && base.Canonical()
      invariant Keeps(b, exponent, result.Value(), base.Value(), e, low, p)
      decreases e
    {
      hide Keeps;
      ghost var u, c := result.Value(), base.Value();
      Turn(b, exponent, u, c, e, low, p);
      if e % 2 == 1 {
        result :- Mul(result, base);
        low := low + p;
      }
      e := e / 2;
      if 0 < e { base :- Mul(base, base); }
      p := 2 * p;
    }
    Finished(b, exponent, result.Value(), base.Value(), low, p);
    return Ok(result);
  }

  lemma Finished(b: int, n: nat, u: int, c: int, low: nat, p: nat)
    requires Keeps(b, n, u, c, 0, low, p)
    ensures u == Exp(b, n) && !Refused(b, n)
  {
  }

  // ---- comparison

  /** The vendored magnitude comparison of two digit sequences. */
  function Compare(a: seq<Digit>, b: seq<Digit>): int { Sign(Val(a) - Val(b)) }

  method Cmp(x: BigInt, y: BigInt) returns (c: int)
    requires x.Canonical() && y.Canonical()
    ensures c == Sign(x.Value() - y.Value())
  {
    CellBounds(x);
    CellBounds(y);
    if x.sign != y.sign { return if x.sign then -1 else 1; }
    c := Compare(x.digits[..x.length], y.digits[..y.length]);
    var r := if c < 0 then -1 else if 0 < c then 1 else 0;
    c := if x.sign then -r else r;
  }
}
