/** Cell sizes as the collector computes them, by bit smearing and ffs: runtime/ejs-gc.c. */
module SizeClasses {
  import opened Arith

  // ---- powers of two above a size

  /** The least exponent from k on whose power of two is at least x. */
  function ExponentFrom(k: nat, x: nat): (b: nat)
    ensures k <= b && x <= Pow2(b)
    ensures b == k || Pow2(b - 1) < x
    decreases x - Pow2(k)
  {
    if x <= Pow2(k) then k
    else
      assert Pow2(k + 1) == 2 * Pow2(k);
      ExponentFrom(k + 1, x)
  }

  /** The exponent of the least power of two that is at least x. */
  function CeilExponent(x: nat): (b: nat)
    ensures x <= Pow2(b) && (b == 0 || Pow2(b - 1) < x)
  {
    ExponentFrom(0, x)
  }

  lemma CeilExponentUnique(x: nat, b: nat)
    requires x <= Pow2(b) && (b == 0 || Pow2(b - 1) < x)
    ensures CeilExponent(x) == b
  {
    var c := CeilExponent(x);
    if c < b { Pow2Mono(c, b - 1); } else if b < c { Pow2Mono(b, c - 1); }
  }

  // ---- the bit smear

  /** x >> k */
  function ShiftedDown(x: nat, k: nat): nat
    decreases k
  {
    if k == 0 then x else ShiftedDown(x / 2, k - 1)
  }

  lemma {:induction false} ShiftedDownAt(x: nat, k: nat, i: nat)
    ensures BitAt(ShiftedDown(x, k), i) == BitAt(x, i + k)
    decreases k
  {
    if k != 0 { ShiftedDownAt(x / 2, k - 1, i); }
  }

  /** x | x >> k */
  function OrShift(x: nat, k: nat): nat { Bitwise(OrOp, x, ShiftedDown(x, k)) }

  /** The w bits from t down are set, and none above t. */
  ghost predicate TopOnes(x: nat, t: nat, w: nat) {
    && (forall i: nat :: i <= t < i + w ==> BitAt(x, i) == 1)
    && (forall i: nat :: t < i ==> BitAt(x, i) == 0)
  }

  /** Each step of the smear doubles the run of ones. */
  lemma SmearDoubles(x: nat, t: nat, w: nat)
    requires TopOnes(x, t, w)
    ensures TopOnes(OrShift(x, w), t, 2 * w)
  {
    hide BitAt, Bitwise;
    forall i: nat
      ensures i <= t < i + 2 * w ==> BitAt(OrShift(x, w), i) == 1
      ensures t < i ==> BitAt(OrShift(x, w), i) == 0
    {
      BitwiseAt(OrOp, x, ShiftedDown(x, w), i);
      ShiftedDownAt(x, w, i);
      if i <= t < i + 2 * w && i + w <= t { assert BitAt(x, i + w) == 1; }
    }
  }

  lemma {:induction false} TopBit(x: nat, t: nat)
    requires Pow2(t) <= x < Pow2(t + 1)
    ensures TopOnes(x, t, 1)
  {
    if t == 0 {
      forall i: nat | 0 < i ensures BitAt(x, i) == 0 { ZeroAt(i - 1); }
    } else {
      TopBit(x / 2, t - 1);
      assert BitAt(x, t) == BitAt(x / 2, t - 1);
      forall i: nat | t < i ensures BitAt(x, i) == 0 { assert BitAt(x, i) == BitAt(x / 2, i - 1); }
    }
  }

  lemma {:induction false} ZeroAt(i: nat)
    ensures BitAt(0, i) == 0
  {
    if i != 0 { ZeroAt(i - 1); }
  }

  lemma {:induction false} NoBitsIsZero(x: nat)
    requires forall i: nat :: BitAt(x, i) == 0
    ensures x == 0
  {
    assert BitAt(x, 0) == 0;
    if 1 < x {
      forall i: nat ensures BitAt(x / 2, i) == 0 { assert BitAt(x, i + 1) == 0; }
      NoBitsIsZero(x / 2);
    }
  }

  /** A number whose n low bits are set and no others is 2^n - 1. */
  lemma {:induction false} OnesAre(x: nat, n: nat)
    requires forall i: nat :: i < n ==> BitAt(x, i) == 1
    requires forall i: nat :: n <= i ==> BitAt(x, i) == 0
    ensures x == Pow2(n) - 1
  {
    if n == 0 {
      NoBitsIsZero(x);
    } else {
      forall i: nat ensures BitAt(x / 2, i) == BitAt(x, i + 1) {}
      OnesAre(x / 2, n - 1);
      assert BitAt(x, 0) == 1;
    }
  }

  function Smear(x: nat): nat {
    OrShift(OrShift(OrShift(OrShift(OrShift(OrShift(x, 1), 2), 4), 8), 16), 32)
  }

  /** Six steps fill every bit below the top one of a 64-bit number. */
  lemma SmearIsOnes(x: nat, t: nat)
    requires Pow2(t) <= x < Pow2(t + 1) && t < 64
    ensures Smear(x) == Pow2(t + 1) - 1
  {
    hide OrShift, TopOnes, Pow2, BitAt;
    TopBit(x, t);
    var x1 := OrShift(x, 1);
    var x2 := OrShift(x1, 2);
    var x4 := OrShift(x2, 4);
    var x8 := OrShift(x4, 8);
    var x16 := OrShift(x8, 16);
    SmearDoubles(x, t, 1);
    SmearDoubles(x1, t, 2);
    SmearDoubles(x2, t, 4);
    SmearDoubles(x4, t, 8);
    SmearDoubles(x8, t, 16);
    SmearDoubles(x16, t, 32);
    FullIsOnes(Smear(x), t);
  }

  lemma FullIsOnes(x: nat, t: nat)
    requires TopOnes(x, t, 64) && t < 64
    ensures x == Pow2(t + 1) - 1
  {
    OnesAre(x, t + 1);
  }

  /** pow2_ceil: the smear gives the least power of two that is at least the size. */
  method Pow2Ceil(size: nat) returns (r: nat)
    requires 1 <= size && CeilExponent(size) < 64
    ensures r == Pow2(CeilExponent(size))
  {
    hide OrShift;
    if size == 1 { SmearOfZero(); } else { SmearIsOnes(size - 1, CeilExponent(size) - 1); }
    var x := size - 1;
    x := OrShift(x, 1);
    x := OrShift(x, 2);
    x := OrShift(x, 4);
    x := OrShift(x, 8);
    x := OrShift(x, 16);
    x := OrShift(x, 32);
    r := x + 1;
  }

  lemma SmearOfZero()
    ensures Smear(0) == 0 && CeilExponent(1) == 0
  {
    forall k: nat ensures OrShift(0, k) == 0 { ZeroDown(k); }
    CeilExponentUnique(1, 0);
  }

  lemma {:induction false} ZeroDown(k: nat)
    ensures ShiftedDown(0, k) == 0
  {
    if k != 0 { ZeroDown(k - 1); }
  }

  // ---- ffs

  /** The index of the least set bit, from 1; 0 for zero. */
  function Ffs(x: nat): nat {
    if x == 0 then 0 else if x % 2 == 1 then 1 else 1 + Ffs(x / 2)
  }

  lemma {:induction false} FfsOfPower(k: nat)
    ensures Ffs(Pow2(k)) == k + 1
  {
    if k != 0 { FfsOfPower(k - 1); }
  }
}
