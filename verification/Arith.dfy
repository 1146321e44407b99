/** Powers of two, euclidean division and bitwise operations on unbounded naturals. */
module Arith {

  function Abs(x: int): nat { if x < 0 then -x else x }

  function Max(x: int, y: int): int { if x < y then y else x }

  function Min(x: int, y: int): int { if x < y then x else y }

  function Sign(x: int): int { if x < 0 then -1 else if x > 0 then 1 else 0 }

  function Pow2(n: nat): (p: nat)
    ensures 1 <= p
  {
    if n == 0 then 1 else 2 * Pow2(n - 1)
  }

  lemma Pow2Add(a: nat, b: nat)
    ensures Pow2(a + b) == Pow2(a) * Pow2(b)
  {
    if a != 0 {
      Pow2Add(a - 1, b);
      assert Pow2(a + b) == 2 * Pow2(a - 1 + b);
    }
  }

  lemma Pow2Mono(a: nat, b: nat)
    requires a <= b
    ensures Pow2(a) <= Pow2(b)
  {
    if a < b { Pow2Mono(a, b - 1); }
  }

  lemma Pow2Zero(n: nat)
    ensures n == 0 ==> Pow2(n) == 1
  {
  }

  lemma Pow2Strict(a: nat, b: nat)
    requires a < b
    ensures 2 * Pow2(a) <= Pow2(b)
  {
    Pow2Mono(a + 1, b);
  }

  /** The powers of two that occur as constants. */
  lemma Pow2Constants()
    ensures Pow2(8) == 0x100
    ensures Pow2(10) == 0x400
    ensures Pow2(11) == 0x800
    ensures Pow2(16) == 0x1_0000
    ensures Pow2(32) == 0x1_0000_0000
    ensures Pow2(52) == 0x10_0000_0000_0000
    ensures Pow2(53) == 0x20_0000_0000_0000
    ensures Pow2(64) == 0x1_0000_0000_0000_0000
  {
    assert Pow2(4) == 16;
    Pow2Add(4, 4);
    assert Pow2(2) == 4 && Pow2(3) == 8;
    Pow2Add(8, 2);
    Pow2Add(8, 3);
    Pow2Add(8, 8);
    Pow2Add(16, 16);
    Pow2Add(32, 32);
    Pow2Add(4, 16);
    Pow2Add(20, 32);
    assert Pow2(53) == 2 * Pow2(52);
  }

  lemma DivModUnique(x: int, d: nat, q: int, r: int)
    requires 0 < d && x == q * d + r && 0 <= r < d
    ensures x / d == q && x % d == r
  {
    var q', r' := x / d, x % d;
    assert x == q' * d + r';
    assert (q' - q) * d == r - r';
    if q' > q {
      MulGe(q' - q, d);
    } else if q' < q {
      MulGe(q - q', d);
    }
  }

  lemma MulGe(k: int, d: nat)
    requires 1 <= k
    ensures d <= k * d
  {
  }

  lemma MulMono(a: int, b: int, c: nat)
    requires a <= b
    ensures a * c <= b * c
  {
  }

  lemma MulStrict(a: int, b: int, c: nat)
    requires a < b && 0 < c
    ensures a * c < b * c
  {
  }

  lemma MulAssoc(a: int, b: int, c: int)
    ensures a * b * c == a * (b * c)
  {
  }

  lemma QuotientNotLarger(x: nat, p: nat)
    requires 1 <= p
    ensures 0 <= x / p <= x
  {
    var q, r := x / p, x % p;
    assert x == q * p + r;
    MulMono(1, p, q);
  }

  lemma AbsProduct(a: int, b: int)
    ensures Abs(a * b) == Abs(a) * Abs(b)
    ensures 0 <= b ==> Abs(a * b) == Abs(a) * b
  {
    if a < 0 {
      assert (-a) * b == -(a * b);
      assert (-a) * (-b) == a * b;
    } else {
      assert a * (-b) == -(a * b);
    }
    MulMono(0, Abs(a), Abs(b));
  }

  // ---- bitwise operations, bit by bit

  datatype BitOp = AndOp | OrOp | XorOp

  function Bit(op: BitOp, a: nat, b: nat): (r: nat)
    requires a < 2 && b < 2
    ensures r < 2
  {
    match op
    case AndOp => a * b
    case OrOp => if a == 1 || b == 1 then 1 else 0
    case XorOp => if a == b then 0 else 1
  }

  /** The bitwise combination of two naturals, least significant bit first. */
  function Bitwise(op: BitOp, a: nat, b: nat): nat
    decreases a + b
  {
    if a == 0 && b == 0 then 0
    else 2 * Bitwise(op, a / 2, b / 2) + Bit(op, a % 2, b % 2)
  }

  /** Bit k of a, the least significant being bit 0. */
  function BitAt(a: nat, k: nat): (b: nat)
    ensures b < 2
    decreases k
  {
    if k == 0 then a % 2 else BitAt(a / 2, k - 1)
  }

  /** The combination of two naturals is, bit by bit, the combination of their bits. */
  lemma {:induction false} BitwiseAt(op: BitOp, a: nat, b: nat, k: nat)
    ensures BitAt(Bitwise(op, a, b), k) == Bit(op, BitAt(a, k), BitAt(b, k))
    decreases k
  {
    hide Bitwise, Bit;
    BitwiseStep(op, a, b);
    if k != 0 { BitwiseAt(op, a / 2, b / 2, k - 1); }
  }

  /** Bit by bit: and needs both bits, or one of them, xor exactly one. */
  lemma BitwiseBits(a: nat, b: nat, k: nat)
    ensures BitAt(Bitwise(AndOp, a, b), k) == 1 <==> BitAt(a, k) == 1 && BitAt(b, k) == 1
    ensures BitAt(Bitwise(OrOp, a, b), k) == 1 <==> BitAt(a, k) == 1 || BitAt(b, k) == 1
    ensures BitAt(Bitwise(XorOp, a, b), k) == 1 <==> BitAt(a, k) != BitAt(b, k)
  {
    BitwiseAt(AndOp, a, b, k);
    BitwiseAt(OrOp, a, b, k);
    BitwiseAt(XorOp, a, b, k);
    hide Bitwise, BitAt;
  }

  /** Bit k of a is its quotient by 2^k, modulo 2. */
  lemma {:induction false} BitAtIs(a: nat, k: nat)
    ensures BitAt(a, k) == a / Pow2(k) % 2
    decreases k
  {
    if k != 0 {
      BitAtIs(a / 2, k - 1);
      HalfQuotient(a, Pow2(k - 1));
    }
  }

  lemma HalfQuotient(a: nat, p: nat)
    requires 0 < p
    ensures a / (2 * p) == a / 2 / p
  {
    var q, r := a / 2 / p, a / 2 % p;
    MulAssoc(2, p, q);
    assert a / 2 == p * q + r;
    DivModUnique(a, 2 * p, q, 2 * r + a % 2);
  }

  lemma BitwiseStep(op: BitOp, a: nat, b: nat)
    ensures Bitwise(op, a, b) / 2 == Bitwise(op, a / 2, b / 2)
    ensures Bitwise(op, a, b) % 2 == Bit(op, a % 2, b % 2)
  {
  }

  lemma {:induction false} BitwiseBound(op: BitOp, a: nat, b: nat, w: nat)
    requires a < Pow2(w) && b < Pow2(w)
    ensures Bitwise(op, a, b) < Pow2(w)
  {
    if w != 0 && (a != 0 || b != 0) {
      BitwiseBound(op, a / 2, b / 2, w - 1);
    }
  }

  lemma {:induction false} OrZero(a: nat)
    ensures Bitwise(OrOp, a, 0) == a == Bitwise(OrOp, 0, a)
  {
    if a != 0 { OrZero(a / 2); }
  }

  lemma MulDouble(a: int, p: int)
    ensures a * (2 * p) == 2 * (a * p)
  {
  }

  lemma ModDouble(a: nat, p: nat)
    requires 0 < p
    ensures a % (2 * p) == 2 * (a / 2 % p) + a % 2
  {
    var q, r := a / 2 / p, a / 2 % p;
    MulAssoc(2, p, q);
    DivModUnique(a, 2 * p, q, 2 * r + a % 2);
  }

  /** a followed by k zero bits. */
  function ShiftedUp(a: nat, k: nat): nat
    decreases k
  {
    if k == 0 then a else 2 * ShiftedUp(a, k - 1)
  }

  /** The low k bits of a. */
  function LowBits(a: nat, k: nat): nat
    decreases k
  {
    if k == 0 then 0 else 2 * LowBits(a / 2, k - 1) + a % 2
  }

  lemma {:induction false} ShiftedUpIsProduct(a: nat, k: nat)
    ensures ShiftedUp(a, k) == a * Pow2(k)
  {
    if k != 0 {
      ShiftedUpIsProduct(a, k - 1);
      MulDouble(a, Pow2(k - 1));
    }
  }

  lemma {:induction false} LowBitsIsRemainder(a: nat, k: nat)
    ensures LowBits(a, k) == a % Pow2(k)
    decreases k
  {
    if k != 0 {
      LowBitsIsRemainder(a / 2, k - 1);
      ModDouble(a, Pow2(k - 1));
    }
  }

  lemma {:induction false} OrShifted(hi: nat, lo: nat, k: nat)
    requires lo < Pow2(k)
    ensures Bitwise(OrOp, ShiftedUp(hi, k), lo) == ShiftedUp(hi, k) + lo
  {
    if k == 0 {
      OrZero(hi);
    } else {
      OrShifted(hi, lo / 2, k - 1);
    }
  }

  lemma {:induction false} AndLowBits(a: nat, k: nat)
    ensures Bitwise(AndOp, a, Pow2(k) - 1) == LowBits(a, k)
    decreases k
  {
    if k == 0 {
      AndZero(a);
    } else {
      AndLowBits(a / 2, k - 1);
    }
  }

  /** The `or` of two disjoint bit fields is their sum. */
  lemma OrDisjoint(hi: nat, lo: nat, k: nat)
    requires lo < Pow2(k)
    ensures Bitwise(OrOp, hi * Pow2(k), lo) == hi * Pow2(k) + lo
  {
    OrShifted(hi, lo, k);
    ShiftedUpIsProduct(hi, k);
  }

  /** Masking with 2^k - 1 keeps the value modulo 2^k. */
  lemma AndLowMask(a: nat, k: nat)
    ensures Bitwise(AndOp, a, Pow2(k) - 1) == a % Pow2(k)
  {
    AndLowBits(a, k);
    LowBitsIsRemainder(a, k);
  }

  lemma {:induction false} AndZero(a: nat)
    ensures Bitwise(AndOp, a, 0) == 0
  {
    if a != 0 { AndZero(a / 2); }
  }
}
