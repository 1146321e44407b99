/** Atomic operations on the bytes of a shared buffer that can only grow: runtime/ejs-atomics.c. */
module Atomics {
  import opened Arith
  import opened Digits
  import opened Doubles
  import opened Truncation
  import opened BigInts
  import opened Options

  const INT32_MAX := 0x7FFF_FFFF
  const MAX_SAFE := 0x1F_FFFF_FFFF_FFFF  // 2^53 - 1
  const UINT32 := 0x1_0000_0000

  type Byte = x: int | 0 <= x < 256

  // ---- numbers

  /** IntegerDoubleToUint32Bits: the remainder of C truncates, and is moved into range. */
  method IntegerDoubleToUint32Bits(d: Integer) returns (bits: nat)
    ensures bits == if d.Int? then d.n % UINT32 else 0
  {
    if d.Infinite? { return 0; }
    var m: int := if d.n < 0 then -(-d.n % UINT32) else d.n % UINT32;
    if d.n < 0 { NegatedRemainder(-d.n, UINT32); }
    if m < 0 { m := m + UINT32; }
    bits := m;
  }

  /** BigIntValueToUint64Bits: the low digit, negated modulo 2^64. */
  method BigIntValueToUint64Bits(x: BigInt) returns (bits: nat)
    requires x.Canonical()
    ensures bits == x.Value() % BASE
  {
    var low: nat := 0;
    if x.length != 0 {
      LowDigit(x);
      low := x.digits[0];
    } else {
      assert x.digits[..0] == [];
    }
    NegatedRemainder(x.Magnitude(), BASE);
    bits := if x.sign then (0 - low) % BASE else low;
  }

  lemma NegatedRemainder(m: int, b: nat)
    requires 0 < b
    ensures -m % b == (0 - m % b) % b == if m % b == 0 then 0 else b - m % b
  {
    var q, r := m / b, m % b;
    if r == 0 {
      DivModUnique(-m, b, -q, 0);
    } else {
      DivModUnique(-m, b, -q - 1, b - r);
      DivModUnique(0 - r, b, -1, b - r);
    }
  }

  // ---- elements

  datatype Elem = Int8 | Uint8 | Int16 | Uint16 | Int32 | Uint32 | BigInt64 | BigUint64
                | Uint8Clamped | Float32 | Float64

  predicate IsAtomic(e: Elem) { !e.Uint8Clamped? && !e.Float32? && !e.Float64? }

  predicate IsBig(e: Elem) { e.BigInt64? || e.BigUint64? }

  predicate IsSigned(e: Elem) { e.Int8? || e.Int16? || e.Int32? || e.BigInt64? }

  function Width(e: Elem): nat {
    match e
    case Int8 => 1 case Uint8 => 1 case Uint8Clamped => 1
    case Int16 => 2 case Uint16 => 2
    case Int32 => 4 case Uint32 => 4 case Float32 => 4
    case _ => 8
  }

  /** How many values w bytes have. */
  function Range(w: nat): (r: nat)
    ensures 1 <= r
  {
    if w == 0 then 1 else 256 * Range(w - 1)
  }

  lemma RangeConstants()
    ensures Range(1) == 0x100 && Range(2) == 0x1_0000 && Range(4) == UINT32 && Range(8) == BASE
  {
    assert Range(2) == 256 * Range(1);
    assert Range(4) == 256 * Range(3) && Range(3) == 256 * Range(2);
    assert Range(6) == 256 * Range(5) && Range(5) == 256 * Range(4);
    assert Range(8) == 256 * Range(7) && Range(7) == 256 * Range(6);
  }

  /** The number some bytes denote, least significant first. */
  function Number(s: seq<Byte>): nat {
    if s == [] then 0 else s[0] + 256 * Number(s[1..])
  }

  function Bytes(n: nat, w: nat): (s: seq<Byte>)
    ensures |s| == w
    decreases w
  {
    if w == 0 then [] else [n % 256] + Bytes(n / 256, w - 1)
  }

  lemma {:induction false} NumberBound(s: seq<Byte>)
    ensures Number(s) < Range(|s|)
  {
    if s != [] { NumberBound(s[1..]); }
  }

  /** The bytes are little-endian: byte i has weight 256^i. */
  lemma {:induction false} ByteOfNumber(s: seq<Byte>, i: nat)
    requires i < |s|
    ensures Number(s) / Range(i) % 256 == s[i]
  {
    var n := Number(s);
    DivModUnique(n, 256, Number(s[1..]), s[0]);
    if i != 0 {
      ByteOfNumber(s[1..], i - 1);
      DivideTwice(n, 256, Range(i - 1));
    }
  }

  lemma DivideTwice(n: nat, b: nat, p: nat)
    requires 0 < b && 0 < p
    ensures 0 < b * p && n / (b * p) == n / b / p
  {
    MulGe(b, p);
    DigitRemainder(n, b, p);
    var q, r := n / b / p, n / b % p;
    MulAssoc(b, p, q);
    var rest := n % b + b * r;
    MulMono(r, p - 1, b);
    assert b * (p - 1) == b * p - b;
    assert n == q * (b * p) + rest;
    DivModUnique(n, b * p, q, rest);
  }

  /** Storing and loading reduces modulo the range; loading and storing changes nothing. */
  lemma {:induction false} NumberBytes(n: nat, w: nat)
    ensures Number(Bytes(n, w)) == n % Range(w)
    decreases w
  {
    if w != 0 {
      NumberBytes(n / 256, w - 1);
      assert Bytes(n, w)[1..] == Bytes(n / 256, w - 1);
      DigitRemainder(n, 256, Range(w - 1));
    }
  }

  lemma {:induction false} BytesNumber(s: seq<Byte>)
    ensures Bytes(Number(s), |s|) == s
  {
    if s != [] {
      BytesNumber(s[1..]);
      DivModUnique(Number(s), 256, Number(s[1..]), s[0]);
      assert s == [s[0]] + s[1..];
    }
  }

  lemma DigitRemainder(n: nat, b: nat, p: nat)
    requires 0 < b && 0 < p
    ensures n % b + b * (n / b % p) == n % (b * p)
  {
    var q, r := n / b / p, n / b % p;
    MulAssoc(b, p, q);
    var rest := n % b + b * r;
    MulMono(r, p - 1, b);
    assert b * (p - 1) == b * p - b;
    assert n == q * (b * p) + rest;
    DivModUnique(n, b * p, q, rest);
  }

  /** The value an element's bits stand for. */
  function Interpret(e: Elem, u: nat): int {
    if IsSigned(e) && Range(Width(e)) <= 2 * u then u - Range(Width(e)) else u
  }

  /** The element value an integer is reduced to. */
  function Wrap(e: Elem, n: int): int { Interpret(e, n % Range(Width(e))) }

  /** Wrapping changes an integer by a multiple of the range, and is the only such value in range. */
  lemma {:induction false} WrapIsTheResidue(e: Elem, n: int, v: int)
    requires IsAtomic(e)
    ensures var r := Range(Width(e));
      var low := if IsSigned(e) then -(r / 2) else 0;
      v == Wrap(e, n) <==> low <= v < low + r && v % r == n % r
  {
    RangeConstants();
    var r := Range(Width(e));
    hide Range;
    assert r % 2 == 0 && 2 <= r;
    if IsSigned(e) { SignedResidue(n, v, r); } else { UnsignedResidue(n, v, r); }
  }

  /** w is the number from low to low + r - 1 that differs from n by a multiple of r. */
  predicate IsResidue(w: int, n: int, low: int, r: nat)
    requires 0 < r
  {
    low <= w < low + r && w % r == n % r
  }

  /** Width and range of every element type. */
  lemma {:induction false} ElementTypes(e: Elem, n: int)
    requires IsAtomic(e)
    ensures match e
      case Int8 => Width(e) == 1 && IsResidue(Wrap(e, n), n, -0x80, 0x100)
      case Uint8 => Width(e) == 1 && IsResidue(Wrap(e, n), n, 0, 0x100)
      case Int16 => Width(e) == 2 && IsResidue(Wrap(e, n), n, -0x8000, 0x1_0000)
      case Uint16 => Width(e) == 2 && IsResidue(Wrap(e, n), n, 0, 0x1_0000)
      case Int32 => Width(e) == 4 && IsResidue(Wrap(e, n), n, -0x8000_0000, 0x1_0000_0000)
      case Uint32 => Width(e) == 4 && IsResidue(Wrap(e, n), n, 0, 0x1_0000_0000)
      case BigInt64 => Width(e) == 8 && IsResidue(Wrap(e, n), n, -0x8000_0000_0000_0000, 0x1_0000_0000_0000_0000)
      case BigUint64 => Width(e) == 8 && IsResidue(Wrap(e, n), n, 0, 0x1_0000_0000_0000_0000)
      case _ => true
  {
    WrapIsTheResidue(e, n, Wrap(e, n));
    RangeConstants();
    hide Wrap, Range;
  }

  lemma UnsignedResidue(n: int, v: int, r: int)
    requires 0 < r
    ensures v == n % r <==> 0 <= v < r && v % r == n % r
  {
    if 0 <= v < r { DivModUnique(v, r, 0, v); }
  }

  lemma SignedResidue(n: int, v: int, r: int)
    requires 0 < r && r % 2 == 0
    ensures v == (if r <= 2 * (n % r) then n % r - r else n % r) <==> -(r / 2) <= v < -(r / 2) + r && v % r == n % r
  {
    var u := n % r;
    DivModUnique(u - r, r, -1, u);
    DivModUnique(u, r, 0, u);
    if 0 <= v < r { DivModUnique(v, r, 0, v); }
    if -r <= v < 0 { DivModUnique(v, r, -1, v + r); }
  }

  // ---- operations

  datatype Op = Add | And | Cas | Exchange | Load | Or | Store | Sub | Xor

  /** What an operation on bits u stores, given its operands reduced to at least the element's width. */
  function NewBits(op: Op, u: nat, opBits: nat, expected: nat, replacement: nat, r: nat): (bits: nat)
    requires u < r
    ensures bits < r
  {
    match op
    case Add => (u + opBits % r) % r
    case Sub => (u - opBits % r) % r
    case And => Bitwise(AndOp, u, opBits % r) % r
    case Or => Bitwise(OrOp, u, opBits % r) % r
    case Xor => Bitwise(XorOp, u, opBits % r) % r
    case Exchange => opBits % r
    case Store => opBits % r
    case Cas => if u == expected % r then replacement % r else u
    case Load => u
  }

  /** The integer an operation on the element value v means to store, before it is reduced. */
  function Meant(e: Elem, op: Op, v: int, x: int, y: int): int {
    var r := Range(Width(e));
    match op
    case Add => v + x
    case Sub => v - x
    case And => Bitwise(AndOp, v % r, x % r)
    case Or => Bitwise(OrOp, v % r, x % r)
    case Xor => Bitwise(XorOp, v % r, x % r)
    case Exchange => x
    case Store => x
    case Cas => if v == Wrap(e, x) then y else v
    case Load => v
  }

  /** What each operation means: arithmetic on values, bits combined one by one, and what is exchanged or kept. */
  lemma {:induction false} OperationIs(e: Elem, op: Op, v: int, x: int, y: int, k: nat)
    ensures var r, n := Range(Width(e)), Meant(e, op, v, x, y);
      && (op == Add ==> n - v == x)
      && (op == Sub ==> v - n == x)
      && (op in {Exchange, Store} ==> n == x)
      && (op == Load ==> n == v)
      && (op == Cas && v == Wrap(e, x) ==> n == y)
      && (op == Cas && v != Wrap(e, x) ==> n == v)
      && (op == And ==> 0 <= n && (BitAt(n, k) == 1 <==> BitAt(v % r, k) == 1 && BitAt(x % r, k) == 1))
      && (op == Or ==> 0 <= n && (BitAt(n, k) == 1 <==> BitAt(v % r, k) == 1 || BitAt(x % r, k) == 1))
      && (op == Xor ==> 0 <= n && (BitAt(n, k) == 1 <==> BitAt(v % r, k) != BitAt(x % r, k)))
  {
    hide BitAt, Bitwise, Range, Width, Wrap;
    var r := Range(Width(e));
    BitwiseBits(v % r, x % r, k);
  }

  lemma RemainderOfRemainder(x: int, r: nat, k: nat)
    requires 0 < r && 0 < k
    ensures 0 < k * r && x % (k * r) % r == x % r
  {
    MulGe(k, r);
    var q, s := x / (k * r), x % (k * r);
    MulAssoc(q, k, r);
    assert s == s / r * r + s % r;
    assert x == (q * k + s / r) * r + s % r;
    DivModUnique(x, r, q * k + s / r, s % r);
  }

  lemma SumRemainder(a: int, b: int, r: nat)
    requires 0 < r
    ensures (a % r + b % r) % r == (a + b) % r
    ensures (a % r - b % r) % r == (a - b) % r
  {
    var sum, diff := a % r + b % r, a % r - b % r;
    assert a + b == (a / r + b / r + sum / r) * r + sum % r;
    DivModUnique(a + b, r, a / r + b / r + sum / r, sum % r);
    assert a - b == (a / r - b / r + diff / r) * r + diff % r;
    DivModUnique(a - b, r, a / r - b / r + diff / r, diff % r);
  }

  /** Bits and the values they stand for determine each other. */
  lemma {:induction false} InterpretedBits(e: Elem, u: nat, u': nat)
    requires u < Range(Width(e)) && u' < Range(Width(e))
    ensures Interpret(e, u) % Range(Width(e)) == u
    ensures Wrap(e, Interpret(e, u)) == Interpret(e, u)
    ensures Interpret(e, u) == Interpret(e, u') <==> u == u'
  {
    var r := Range(Width(e));
    hide Range, Width;
    DivModUnique(u, r, 0, u);
    DivModUnique(u - r, r, -1, u);
  }

  /** An operation stores its mathematical result reduced to the element, whatever its operands were reduced to. */
  lemma {:induction false} NewBitsAreMeant(e: Elem, op: Op, u: nat, x: int, y: int, k: nat)
    requires u < Range(Width(e)) && 0 < k
    ensures var r := Range(Width(e));
      && 0 < k * r
      && var bits := NewBits(op, u, x % (k * r), x % (k * r), y % (k * r), r);
      Interpret(e, bits) == Wrap(e, Meant(e, op, Interpret(e, u), x, y))
  {
    var r := Range(Width(e));
    RemainderOfRemainder(x, r, k);
    RemainderOfRemainder(y, r, k);
    InterpretedBits(e, u, x % r);
    SumRemainder(Interpret(e, u), x, r);
    hide Range, Width;
  }

  /** The same for the bits an operation is given: those it uses are its operands, reduced. */
  lemma {:induction false} SwitchIsMeant(e: Elem, op: Op, u: nat, opBits: nat, expected: nat, replacement: nat,
                                         x: int, y: int, k: nat)
    requires u < Range(Width(e)) && Reduced(op, opBits, expected, replacement, x, y, k, Range(Width(e)))
    ensures Interpret(e, NewBits(op, u, opBits, expected, replacement, Range(Width(e))))
            == Wrap(e, Meant(e, op, Interpret(e, u), x, y))
    ensures Interpret(e, u) == Wrap(e, Interpret(e, u))
  {
    hide Meant, Interpret, Wrap, Range, Width;
    NewBitsAreMeant(e, op, u, x, y, k);
    InterpretedBits(e, u, u);
  }

  ghost predicate Reduced(op: Op, opBits: nat, expected: nat, replacement: nat, x: int, y: int, k: nat, r: nat) {
    && 0 < k && 0 < k * r
    && (op.Cas? ==> expected == x % (k * r) && replacement == y % (k * r))
    && (!op.Cas? && !op.Load? ==> opBits == x % (k * r))
  }

  // ---- buffers

  datatype Error = TypeError | RangeFailure

  datatype Result<+T> = Done(value: T) | Fails(error: Error)

  /** ToIndex: an integer from 0 to 2^53 - 1. */
  function ToIndex(d: Double): Result<nat> {
    match Truncated(d)
    case Infinite(_) => Fails(RangeFailure)
    case Int(n) => if 0 <= n <= MAX_SAFE then Done(n) else Fails(RangeFailure)
  }

  /** i is the index d stands for: d with its fraction dropped, 0 for NaN. */
  ghost predicate Denotes(d: Double, i: nat)
    requires IsDouble(d)
  {
    i <= MAX_SAFE &&
    match d
    case NaN => i == 0
    case Inf(_) => false
    case Fin(_, _) => TruncatesTo(d, i)
  }

  lemma ToIndexIff(d: Double, i: nat)
    requires IsDouble(d)
    ensures ToIndex(d) == Done(i) <==> Denotes(d, i)
    ensures ToIndex(d).Fails? ==> ToIndex(d).error == RangeFailure
  {
    TruncatedIff(d, i);
  }

  /** An integral double stands for its own value. */
  lemma IntegralIndex(d: Double, i: nat)
    requires d.Fin? && IsDouble(d) && i <= MAX_SAFE && Units(d) == IntUnits(i)
    ensures Denotes(d, i) && ToIndex(d) == Done(i)
  {
    hide Units;
    IntUnitsMono(i, i + 1);
    NextUnits(i);
    ToIndexIff(d, i);
  }

  lemma NextUnits(i: int)
    ensures IntUnits(i) < IntUnits(i + 1) && IntUnits(0) == 0
  {
  }

  /** A typed array over a buffer. */
  datatype TypedArray = TypedArray(elem: Elem, offset: nat, length: nat)

  /** An operand: a number, or a BigInt. */
  datatype Arg = Num(d: Double) | Big(b: BigInt)

  /** An answer: a number or an infinity, or a BigInt. */
  datatype Reply = NumReply(i: Integer) | BigReply(b: BigInt)

  /** The kind of operand an element takes. */
  predicate Suits(e: Elem, a: Arg) { IsBig(e) == a.Big? }

  predicate Suitable(e: Elem, op: Op, x: Arg, y: Arg) {
    op.Load? || (Suits(e, x) && (op.Cas? ==> Suits(e, y)))
  }

  ghost predicate WellFormed(a: Arg)
    reads if a.Big? then {a.b, a.b.digits} else {}
  {
    a.Big? ==> a.b.Canonical()
  }

  /** The integer an operand stands for; infinities count as zero. */
  ghost function Meaning(a: Arg): int
    requires WellFormed(a)
    reads if a.Big? then {a.b, a.b.digits} else {}
  {
    match a
    case Num(d) => if Truncated(d).Int? then Truncated(d).n else 0
    case Big(b) => b.Value()
  }

  /** Where element i of a view is. */
  function Address(v: TypedArray, i: nat): nat { v.offset + i * Width(v.elem) }

  /** The value of the element at address p. */
  function Element(bytes: seq<Byte>, e: Elem, p: nat): int
    requires p + Width(e) <= |bytes|
  {
    Interpret(e, Number(bytes[p..p + Width(e)]))
  }

  /** The elements of a view. */
  ghost function ElementsOf(bytes: seq<Byte>, v: TypedArray): (r: seq<int>)
    requires v.offset + v.length * Width(v.elem) <= |bytes|
    ensures |r| == v.length
    ensures forall i: nat :: i < v.length ==>
      v.offset + i * Width(v.elem) + Width(v.elem) <= |bytes|
      && r[i] == Element(bytes, v.elem, v.offset + i * Width(v.elem))
  {
    forall i: nat | i < v.length ensures v.offset + i * Width(v.elem) + Width(v.elem) <= |bytes| {
      FitsInView(v, i, |bytes|);
    }
    seq(v.length, i requires 0 <= i < v.length => Element(bytes, v.elem, v.offset + i * Width(v.elem)))
  }

  /** Changing the bytes of one element changes that element of the view and no other. */
  lemma OneElement(bytes: seq<Byte>, bytes': seq<Byte>, v: TypedArray, i: nat)
    requires v.offset + v.length * Width(v.elem) <= |bytes| && i < v.length
    requires OnlyElement(bytes, bytes', v.elem, v.offset + i * Width(v.elem))
    ensures v.offset + i * Width(v.elem) + Width(v.elem) <= |bytes|
    ensures ElementsOf(bytes', v) == ElementsOf(bytes, v)[i := Element(bytes', v.elem, v.offset + i * Width(v.elem))]
  {
    var w := Width(v.elem);
    FitsInView(v, i, |bytes|);
    hide Width, Element;
    forall k: nat | k < v.length && k != i ensures ElementsOf(bytes', v)[k] == ElementsOf(bytes, v)[k] {
      FitsInView(v, k, |bytes|);
      ApartInView(i, k, w);
      SameElement(bytes, bytes', v.elem, v.offset + i * w, v.offset + k * w);
    }
  }

  lemma ApartInView(i: nat, k: nat, w: nat)
    requires i != k
    ensures i * w + w <= k * w || k * w + w <= i * w
  {
    if k < i { MulMono(k + 1, i, w); } else { MulMono(i + 1, k, w); }
  }

  lemma SameElement(bytes: seq<Byte>, bytes': seq<Byte>, e: Elem, p: nat, q: nat)
    requires OnlyElement(bytes, bytes', e, p) && q + Width(e) <= |bytes|
    requires p + Width(e) <= q || q + Width(e) <= p
    ensures Element(bytes', e, q) == Element(bytes, e, q)
  {
    assert bytes'[q..q + Width(e)] == bytes[q..q + Width(e)];
  }

  /** Two contents that agree but for the bytes of the element at p. */
  ghost predicate OnlyElement(bytes: seq<Byte>, bytes': seq<Byte>, e: Elem, p: nat) {
    |bytes| == |bytes'| && forall j :: 0 <= j < |bytes| && !(p <= j < p + Width(e)) ==> bytes'[j] == bytes[j]
  }

  lemma AddressIs(v: TypedArray, i: nat)
    ensures Address(v, i) == v.offset + i * Width(v.elem)
  {
  }

  // ---- what operations answer

  /** What an access throws, in the order the checks are made. */
  function AccessError(v: TypedArray, index: Double, op: Op, x: Arg, y: Arg): Option<Error> {
    if !IsAtomic(v.elem) then Some(TypeError)
    else if ToIndex(index).Fails? || v.length <= ToIndex(index).value then Some(RangeFailure)
    else if !Suitable(v.elem, op, x, y) then Some(TypeError)
    else None
  }

  /** An access goes through exactly for an integer type, an index inside the view and operands of its kind. */
  lemma AccessErrorIff(v: TypedArray, index: Double, op: Op, x: Arg, y: Arg)
    requires IsDouble(index)
    ensures AccessError(v, index, op, x, y) == None <==>
      && v.elem !in {Uint8Clamped, Float32, Float64}
      && (exists i: nat :: i < v.length && Denotes(index, i))
      && (op == Load || x.Big? == (v.elem in {BigInt64, BigUint64}))
      && (op == Cas ==> y.Big? == (v.elem in {BigInt64, BigUint64}))
    ensures AccessError(v, index, op, x, y) == Some(RangeFailure) <==>
      v.elem !in {Uint8Clamped, Float32, Float64} && !exists i: nat :: i < v.length && Denotes(index, i)
  {
    hide Denotes;
    forall i: nat ensures ToIndex(index) == Done(i) <==> Denotes(index, i) { ToIndexIff(index, i); }
  }

  /** What Atomics.store answers: its operand, converted but not reduced. */
  function Unwrapped(a: Arg): Reply {
    match a
    case Num(d) => NumReply(Truncated(d))
    case Big(b) => BigReply(b)
  }

  /** The reply is element value e, as a number or as a BigInt. */
  ghost predicate IsReply(elem: Elem, reply: Reply, e: int)
    reads if reply.BigReply? then {reply.b, reply.b.digits} else {}
  {
    if IsBig(elem) then reply.BigReply? && reply.b.Canonical() && reply.b.Value() == e
    else reply == NumReply(Int(e))
  }

  /** What grow answers. */
  function GrowResult(newLength: Double, size: nat, max: nat, growable: bool): Result<()> {
    if !growable then Fails(TypeError)
    else if ToIndex(newLength).Done? && size <= ToIndex(newLength).value <= max then Done(())
    else Fails(RangeFailure)
  }

  /** _ejs_sab_clamp_index */
  function Clamp(rel: Integer, len: nat): (i: nat)
    ensures i <= len
  {
    match rel
    case Infinite(neg) => if neg then 0 else len
    case Int(n) => if n < 0 then (if len + n < 0 then 0 else len + n) else if n > len then len else n
  }

  /** Clamping picks the position nearest to the one asked for, counted from the end if negative. */
  lemma ClampIsNearest(n: int, len: nat, k: nat)
    requires k <= len
    ensures var at := if n < 0 then len + n else n;
      Abs(at - Clamp(Int(n), len)) <= Abs(at - k)
    ensures Clamp(Infinite(true), len) <= k <= Clamp(Infinite(false), len)
  {
  }

  lemma FitsInView(v: TypedArray, i: nat, size: nat)
    requires v.offset + v.length * Width(v.elem) <= size && i < v.length
    ensures Address(v, i) + Width(v.elem) <= size
  {
    MulMono(i + 1, v.length, Width(v.elem));
  }

  lemma LoadKeepsBits(u: nat, opBits: nat, expected: nat, replacement: nat, r: nat)
    requires u < r
    ensures NewBits(Load, u, opBits, expected, replacement, r) == u
  {
  }

  // ---- conversions

  /** The modulus operands are reduced by, in multiples of the element's range. */
  ghost function Modulus(e: Elem): (k: nat)
    requires IsAtomic(e)
    ensures 0 < k && k * Range(Width(e)) == if IsBig(e) then BASE else UINT32
  {
    RangeConstants();
    match Width(e)
    case 1 => 0x100_0000
    case 2 => 0x1_0000
    case _ => 1
  }

  /** The conversion of an operand to bits. */
  method Operand(e: Elem, a: Arg) returns (bits: nat)
    requires Suits(e, a) && WellFormed(a)
    ensures bits == Meaning(a) % if IsBig(e) then BASE else UINT32
  {
    match a
    case Num(d) => bits := IntegerDoubleToUint32Bits(Truncated(d));
    case Big(b) => bits := BigIntValueToUint64Bits(b);
  }

  /** The conversions an operation makes, before it touches the element. */
  method Convert(e: Elem, op: Op, x: Arg, y: Arg) returns (opBits: nat, expected: nat, replacement: nat)
    requires WellFormed(x) && WellFormed(y) && IsAtomic(e) && Suitable(e, op, x, y)
    ensures Reduced(op, opBits, expected, replacement, Meaning(x), Meaning(y), Modulus(e), Range(Width(e)))
  {
    hide Meaning, Range, Width;
    opBits, expected, replacement := 0, 0, 0;
    if op == Cas {
      expected := Operand(e, x);
      replacement := Operand(e, y);
    } else if op != Load {
      opBits := Operand(e, x);
    }
  }

  /** A 64-bit element as a new BigInt. */
  method OldBigInt(e: Elem, was: int) returns (b: BigInt)
    requires IsBig(e) && was == Wrap(e, was)
    ensures b.Canonical() && b.Value() == was && fresh(b) && fresh(b.digits)
  {
    RangeConstants();
    if e.BigInt64? {
      b := NewFromInt64(was);
    } else {
      b := NewFromUint64(was);
    }
  }

  // ---- runs

  datatype Event =
    | Atomic(v: TypedArray, index: Double, op: Op, x: Arg, y: Arg)
    | GrowTo(newLength: Double)

  /** The integers an event's operands stand for. */
  datatype Operands = Operands(x: int, y: int)

  /** The operands are well formed and stand for m. */
  ghost predicate StandFor(e: Event, m: Operands)
    reads if e.Atomic? && e.x.Big? then {e.x.b, e.x.b.digits} else {}
    reads if e.Atomic? && e.y.Big? then {e.y.b, e.y.b.digits} else {}
  {
    e.Atomic? ==> WellFormed(e.x) && WellFormed(e.y) && m == Operands(Meaning(e.x), Meaning(e.y))
  }

  /** The view lies in the buffer. */
  predicate InBuffer(e: Event, size: nat) { e.Atomic? ==> e.v.offset + e.v.length * Width(e.v.elem) <= size }

  /** The bytes with the element at p replaced by the residue of n. */
  function Put(bytes: seq<Byte>, e: Elem, p: nat, n: int): (r: seq<Byte>)
    requires p + Width(e) <= |bytes|
    ensures |r| == |bytes|
  {
    bytes[..p] + Bytes(n % Range(Width(e)), Width(e)) + bytes[p + Width(e)..]
  }

  /** What an event does to the bytes in use, in integers. */
  function Effect(bytes: seq<Byte>, max: nat, growable: bool, e: Event, m: Operands): seq<Byte> {
    match e
    case Atomic(v, index, op, x, y) =>
      if AccessError(v, index, op, x, y) != None then bytes
      else
        var p := Address(v, ToIndex(index).value);
        if |bytes| < p + Width(v.elem) then bytes
        else Put(bytes, v.elem, p, Meant(v.elem, op, Element(bytes, v.elem, p), m.x, m.y))
    case GrowTo(d) =>
      if GrowResult(d, |bytes|, max, growable).Fails? then bytes
      else bytes + seq(ToIndex(d).value - |bytes|, _ => 0)
  }

  /** The bytes after the first n events. */
  function After(bytes: seq<Byte>, max: nat, growable: bool, events: seq<Event>, ms: seq<Operands>, n: nat): seq<Byte>
    requires n <= |events| == |ms|
    decreases n
  {
    if n == 0 then bytes
    else Effect(After(bytes, max, growable, events, ms, n - 1), max, growable, events[n - 1], ms[n - 1])
  }

  lemma AfterNone(bytes: seq<Byte>, max: nat, growable: bool, events: seq<Event>, ms: seq<Operands>)
    requires |events| == |ms|
    ensures After(bytes, max, growable, events, ms, 0) == bytes
  {
  }

  lemma AfterNext(bytes: seq<Byte>, max: nat, growable: bool, events: seq<Event>, ms: seq<Operands>, n: nat)
    requires n < |events| == |ms|
    ensures After(bytes, max, growable, events, ms, n + 1) ==
      Effect(After(bytes, max, growable, events, ms, n), max, growable, events[n], ms[n])
  {
  }

  /** What an event answers. */
  datatype Response = Accessed(r: Result<Reply>) | Grown(g: Result<()>)

  /** The answer is the one the bytes before the event call for. */
  ghost predicate Responds(bytes: seq<Byte>, max: nat, growable: bool, e: Event, res: Response)
    reads if res.Accessed? && res.r.Done? && res.r.value.BigReply? then {res.r.value.b, res.r.value.b.digits} else {}
  {
    match e
    case Atomic(v, index, op, x, y) =>
      && res.Accessed?
      && AccessError(v, index, op, x, y) == (if res.r.Fails? then Some(res.r.error) else None)
      && (res.r.Done? ==>
            var p := Address(v, ToIndex(index).value);
            && p + Width(v.elem) <= |bytes|
            && if op.Store? then res.r.value == Unwrapped(x)
               else IsReply(v.elem, res.r.value, Element(bytes, v.elem, p)))
    case GrowTo(d) => res == Grown(GrowResult(d, |bytes|, max, growable))
  }

  /** Putting an integer leaves its residue in that element and every other byte as it was. */
  lemma PutElement(bytes: seq<Byte>, e: Elem, p: nat, n: int)
    requires p + Width(e) <= |bytes|
    ensures Element(Put(bytes, e, p, n), e, p) == Wrap(e, n) && OnlyElement(bytes, Put(bytes, e, p, n), e, p)
  {
    var w, u := Width(e), n % Range(Width(e));
    NumberBytes(u, w);
    DivModUnique(u, Range(w), 0, u);
    PutIsSplice(bytes, e, p, n);
    hide Bytes, Range, Number, Width, Put;
    SplicedIn(bytes, p, Bytes(u, w));
  }

  lemma SplicedIn(bytes: seq<Byte>, p: nat, s: seq<Byte>)
    requires p + |s| <= |bytes|
    ensures var t := bytes[..p] + s + bytes[p + |s|..];
      && |t| == |bytes| && t[p..p + |s|] == s
      && forall j :: 0 <= j < |bytes| && !(p <= j < p + |s|) ==> t[j] == bytes[j]
  {
  }

  /** In a run: an access that goes through answers element i of its view and changes that element alone. */
  lemma AccessIs(bytes: seq<Byte>, max: nat, growable: bool, e: Event, m: Operands, res: Response, i: nat)
    requires e.Atomic? && InBuffer(e, |bytes|) && IsDouble(e.index) && Denotes(e.index, i)
    requires AccessError(e.v, e.index, e.op, e.x, e.y) == None && Responds(bytes, max, growable, e, res)
    ensures var t := Effect(bytes, max, growable, e, m);
      && |t| == |bytes| && i < e.v.length
      && var was := ElementsOf(bytes, e.v);
      && ElementsOf(t, e.v) == was[i := Wrap(e.v.elem, Meant(e.v.elem, e.op, was[i], m.x, m.y))]
      && res.Accessed? && res.r.Done?
      && (!e.op.Store? && !IsBig(e.v.elem) ==> res.r.value == NumReply(Int(was[i])))
      && (!e.op.Store? && IsBig(e.v.elem) ==> res.r.value.BigReply? && res.r.value.b.Value() == was[i])
      && (e.op.Store? && e.x.Num? ==> res.r.value == NumReply(Truncated(e.x.d)))
      && (e.op.Store? && e.x.Big? ==> res.r.value == BigReply(e.x.b))
  {
    ToIndexIff(e.index, i);
    AddressIs(e.v, i);
    hide Denotes, Width, Element, OnlyElement, Wrap, Meant, Put, Truncated;
    FitsInView(e.v, i, |bytes|);
    var was := Element(bytes, e.v.elem, Address(e.v, i));
    PutElement(bytes, e.v.elem, Address(e.v, i), Meant(e.v.elem, e.op, was, m.x, m.y));
    OneElement(bytes, Effect(bytes, max, growable, e, m), e.v, i);
  }

  /** In a run: a grow succeeds exactly for a length in range, and then adds zeros up to it. */
  lemma GrowIs(bytes: seq<Byte>, max: nat, growable: bool, d: Double, m: Operands, res: Response)
    requires IsDouble(d) && Responds(bytes, max, growable, GrowTo(d), res)
    ensures res.Grown? && (res.g == Fails(TypeError) <==> !growable)
    ensures res.g.Done? <==> growable && exists n: nat :: |bytes| <= n <= max && Denotes(d, n)
    ensures res.g.Fails? ==> Effect(bytes, max, growable, GrowTo(d), m) == bytes
    ensures forall n: nat :: res.g.Done? && Denotes(d, n) ==>
      |bytes| <= n && Effect(bytes, max, growable, GrowTo(d), m) == bytes + seq(n - |bytes|, _ => 0)
  {
    forall n: nat ensures ToIndex(d) == Done(n) <==> Denotes(d, n) { ToIndexIff(d, n); }
    hide Denotes;
  }

  /** The value an element is left with, and what did not change, determine all the bytes. */
  lemma PutIsOnlyChange(bytes: seq<Byte>, bytes': seq<Byte>, e: Elem, p: nat, n: int)
    requires p + Width(e) <= |bytes| && OnlyElement(bytes, bytes', e, p)
    requires Element(bytes', e, p) == Wrap(e, n)
    ensures bytes' == Put(bytes, e, p, n)
  {
    hide Element, Put, Bytes, Range, Number, Wrap;
    OutsideIsSame(bytes, bytes', p, Width(e));
    ElementGivesBytes(bytes', e, p, n);
    PutIsSplice(bytes, e, p, n);
  }

  lemma OutsideIsSame(bytes: seq<Byte>, bytes': seq<Byte>, p: nat, w: nat)
    requires |bytes| == |bytes'| && p + w <= |bytes|
    requires forall j :: 0 <= j < |bytes| && !(p <= j < p + w) ==> bytes'[j] == bytes[j]
    ensures bytes' == bytes[..p] + bytes'[p..p + w] + bytes[p + w..]
  {
  }

  lemma ElementGivesBytes(bytes: seq<Byte>, e: Elem, p: nat, n: int)
    requires p + Width(e) <= |bytes| && Element(bytes, e, p) == Wrap(e, n)
    ensures bytes[p..p + Width(e)] == Bytes(n % Range(Width(e)), Width(e))
  {
    var s := bytes[p..p + Width(e)];
    hide Bytes, Range, Number, Interpret;
    NumberBound(s);
    BytesNumber(s);
    InterpretedBits(e, Number(s), n % Range(Width(e)));
  }

  lemma PutIsSplice(bytes: seq<Byte>, e: Elem, p: nat, n: int)
    requires p + Width(e) <= |bytes|
    ensures Put(bytes, e, p, n) == bytes[..p] + Bytes(n % Range(Width(e)), Width(e)) + bytes[p + Width(e)..]
  {
  }

  // ---- the buffer

  class SharedBuffer {
    const block: array<Byte>
    var size: nat
    const max: nat
    const growable: bool

    /** The block has its full size from the start, and is zero past the length. */
    ghost predicate Valid()
      reads this, block
    {
      && size <= max <= INT32_MAX
      && block.Length == max && (!growable ==> size == max)
      && forall i :: size <= i < block.Length ==> block[i] == 0
    }

    /** The bytes in use. */
    function Contents(): seq<Byte>
      requires size <= block.Length
      reads this, block
    {
      block[..size]
    }

    ghost predicate Covers(v: TypedArray)
      reads this
    {
      v.offset + v.length * Width(v.elem) <= size
    }

    /** _ejs_sharedarraybuffer_new_with_proto: calloc of the maximum. */
    constructor (length: nat, max: nat, growable: bool)
      requires length <= max <= INT32_MAX && (!growable ==> max == length)
      ensures Valid() && size == length && this.max == max && this.growable == growable && fresh(block)
      ensures Contents() == seq(length, _ => 0)
    {
      block := new Byte[if growable then max else length](_ => 0);
      size := length;
      this.max, this.growable := max, growable;
    }

    /** SharedArrayBuffer.prototype.grow */
    method Grow(newLength: Double) returns (r: Result<()>)
      requires Valid()
      modifies this`size
      ensures Valid()
      ensures r == GrowResult(newLength, old(size), max, growable)
      ensures r.Fails? ==> size == old(size)
      ensures r.Done? ==> ToIndex(newLength) == Done(size) && old(size) <= size <= max
      ensures r == Fails(TypeError) <==> !growable
      ensures growable && IsDouble(newLength) ==>
        (r.Done? <==> exists n: nat :: old(size) <= n <= max && Denotes(newLength, n))
      ensures r.Done? && IsDouble(newLength) ==> Denotes(newLength, size)
      ensures Contents() == old(Contents()) + seq(size - old(size), _ => 0)
    {
      if !growable { return Fails(TypeError); }
      var n := ToIndex(newLength);
      if IsDouble(newLength) {
        forall k: nat ensures n == Done(k) <==> Denotes(newLength, k) { ToIndexIff(newLength, k); }
      }
      if n.Fails? || n.value < size || max < n.value { return Fails(RangeFailure); }
      size := n.value;
      return Done(());
    }

    /** SharedArrayBuffer.prototype.slice */
    method Slice(start: Integer, end: Integer) returns (copy: SharedBuffer)
      requires Valid()
      ensures copy.Valid() && fresh(copy) && fresh(copy.block) && !copy.growable
      ensures var first, last := Clamp(start, size), Clamp(end, size);
        copy.Contents() == if first <= last then Contents()[first..last] else []
    {
      var first: int, last: int := Clamp(start, size), Clamp(end, size);
      var n := last - first;
      if n < 0 { n := 0; }
      copy := new SharedBuffer(n, n, false);
      for i := 0 to n
        invariant copy.size == n == copy.max && copy.Valid() && fresh(copy) && fresh(copy.block)
        invariant forall j :: 0 <= j < i ==> copy.block[j] == block[first + j]
      {
        copy.block[i] := block[first + i];
      }
      assert copy.Contents() == if first <= last then Contents()[first..last] else [];
    }

    // ---- elements

    /** A little-endian load of w bytes. */
    method LoadBits(p: nat, w: nat) returns (u: nat)
      requires p + w <= block.Length
      ensures u == Number(block[p..p + w]) && u < Range(w)
    {
      u := 0;
      var i: nat := w;
      while 0 < i
        invariant i <= w && u == Number(block[p + i..p + w])
      {
        i := i - 1;
        assert block[p + i..p + w] == [block[p + i]] + block[p + i + 1..p + w];
        u := block[p + i] + 256 * u;
      }
      NumberBound(block[p..p + w]);
    }

    /** A little-endian store of w bytes. */
    method StoreBits(p: nat, w: nat, u: nat)
      requires p + w <= block.Length && u < Range(w)
      modifies block
      ensures Number(block[p..p + w]) == u
      ensures forall j :: 0 <= j < block.Length && !(p <= j < p + w) ==> block[j] == old(block[j])
    {
      var rest, i: nat := u, 0;
      while i < w
        invariant 0 <= i <= w && block[p..p + i] + Bytes(rest, w - i) == Bytes(u, w)
        invariant forall j :: 0 <= j < block.Length && !(p <= j < p + w) ==> block[j] == old(block[j])
      {
        ghost var done := block[p..p + i];
        block[p + i] := rest % 256;
        assert block[p..p + i + 1] == done + [rest % 256];
        ghost var later := Bytes(rest / 256, w - i - 1);
        assert done + ([rest % 256] + later) == done + [rest % 256] + later;
        rest, i := rest / 256, i + 1;
      }
      assert block[p..p + w] == Bytes(u, w);
      NumberBytes(u, w);
      DivModUnique(u, Range(w), 0, u);
    }

    lemma PartOfContents(p: nat, w: nat)
      requires p + w <= size <= block.Length
      ensures Contents()[p..p + w] == block[p..p + w]
    {
    }

    /** The switch over element types and operations, on the element at address p. */
    method Modify(e: Elem, p: nat, op: Op, opBits: nat, expected: nat, replacement: nat,
                  ghost x: int, ghost y: int, ghost k: nat)
      returns (old': int)
      requires Valid() && p + Width(e) <= size
      requires Reduced(op, opBits, expected, replacement, x, y, k, Range(Width(e)))
      modifies block
      ensures Valid() && old' == old(Element(Contents(), e, p)) == Wrap(e, old')
      ensures Element(Contents(), e, p) == Wrap(e, Meant(e, op, old', x, y))
      ensures OnlyElement(old(Contents()), Contents(), e, p)
    {
      var w, r := Width(e), Range(Width(e));
      hide NewBits, Meant, Wrap, Range, Width, Number, Reduced;
      var u := LoadBits(p, w);
      PartOfContents(p, w);
      old' := Interpret(e, u);
      SwitchIsMeant(e, op, u, opBits, expected, replacement, x, y, k);
      hide Interpret;
      var bits := NewBits(op, u, opBits, expected, replacement, r);
      if op != Load {
        StoreBits(p, w, bits);
      } else {
        LoadKeepsBits(u, opBits, expected, replacement, r);
      }
      PartOfContents(p, w);
    }

    /** The conversions, the switch and the answer, once the access is known to be good. */
    method Perform(e: Elem, p: nat, op: Op, x: Arg, y: Arg) returns (r: Reply)
      requires Valid() && WellFormed(x) && WellFormed(y)
      requires IsAtomic(e) && p + Width(e) <= size && Suitable(e, op, x, y)
      modifies block
      ensures Valid() && OnlyElement(old(Contents()), Contents(), e, p)
      ensures var was := old(Element(Contents(), e, p));
        && Element(Contents(), e, p) == Wrap(e, Meant(e, op, was, Meaning(x), Meaning(y)))
        && if op.Store? then r == Unwrapped(x) else IsReply(e, r, was)
    {
      hide Element, Wrap, Meant, OnlyElement, Width, Range, Truncated, Reduced;
      var opBits, expected, replacement := Convert(e, op, x, y);
      var was := Modify(e, p, op, opBits, expected, replacement, Meaning(x), Meaning(y), Modulus(e));
      if op == Store {
        r := Unwrapped(x);
      } else if !IsBig(e) {
        r := NumReply(Int(was));
      } else {
        var b := OldBigInt(e, was);
        r := BigReply(b);
      }
    }

    /** _ejs_atomics_rmw. Each operation answers the old element, or for Store its operand; it leaves the
        mathematical result reduced to the element there; and it changes no other byte. */
    method Rmw(v: TypedArray, index: Double, op: Op, x: Arg, y: Arg) returns (r: Result<Reply>)
      requires Valid() && Covers(v) && WellFormed(x) && WellFormed(y)
      modifies block
      ensures Valid()
      ensures AccessError(v, index, op, x, y) == if r.Fails? then Some(r.error) else None
      ensures r.Fails? ==> block[..] == old(block[..])
      ensures r.Done? ==>
        var e, p := v.elem, Address(v, ToIndex(index).value);
        && p + Width(e) <= size
        && OnlyElement(old(Contents()), Contents(), e, p)
        && var was := old(Element(Contents(), e, p));
        && Element(Contents(), e, p) == Wrap(e, Meant(e, op, was, Meaning(x), Meaning(y)))
        && if op.Store? then r.value == Unwrapped(x) else IsReply(e, r.value, was)
      ensures forall i: nat :: r.Done? && IsDouble(index) && Denotes(index, i) ==>
        var was := old(ElementsOf(Contents(), v));
        && i < v.length
        && ElementsOf(Contents(), v) == was[i := Wrap(v.elem, Meant(v.elem, op, was[i], Meaning(x), Meaning(y)))]
        && (!op.Store? && !IsBig(v.elem) ==> r.value == NumReply(Int(was[i])))
        && (!op.Store? && IsBig(v.elem) ==>
              r.value.BigReply? && r.value.b.Canonical() && r.value.b.Value() == was[i])
      ensures r.Done? && op.Store? && x.Num? ==> r.value == NumReply(Truncated(x.d))
      ensures r.Done? && op.Store? && x.Big? ==> r.value == BigReply(x.b)
    {
      hide Element, Wrap, Meant, OnlyElement, Width, Range, Truncated, Meaning, Denotes;
      if !IsAtomic(v.elem) { return Fails(TypeError); }
      var idx := ToIndex(index);
      if idx.Fails? || v.length <= idx.value { return Fails(RangeFailure); }
      if !Suitable(v.elem, op, x, y) { return Fails(TypeError); }
      FitsInView(v, idx.value, size);
      var p := Address(v, idx.value);
      hide Address;
      ghost var before := Contents();
      var reply := Perform(v.elem, p, op, x, y);
      AddressIs(v, idx.value);
      OneElement(before, Contents(), v, idx.value);
      forall i: nat | IsDouble(index) && Denotes(index, i) ensures i == idx.value { ToIndexIff(index, i); }
      return Done(reply);
    }

    /** One event of a run; m holds the integers its operands stand for. */
    method Do(e: Event, ghost m: Operands) returns (res: Response)
      requires Valid() && StandFor(e, m) && InBuffer(e, size)
      modifies this`size, block
      ensures Valid() && Contents() == Effect(old(Contents()), max, growable, e, m)
      ensures old(size) <= size
      ensures Responds(old(Contents()), max, growable, e, res)
    {
      match e
      case Atomic(v, index, op, x, y) =>
        hide Element, Meant, Range, Width, Meaning, AccessError, WellFormed, IsReply;
        ghost var before := Contents();
        var reply := Rmw(v, index, op, x, y);
        if reply.Done? {
          ghost var p := Address(v, ToIndex(index).value);
          PutIsOnlyChange(before, Contents(), v.elem, p, Meant(v.elem, op, Element(before, v.elem, p), m.x, m.y));
        } else {
          assert Contents() == before;
        }
        res := Accessed(reply);
      case GrowTo(d) =>
        var r := Grow(d);
        res := Grown(r);
    }

    /**
     * After any run the bytes are those of the integers stored, and each event has answered what the
     * bytes before it call for; the length has not fallen or passed the maximum, and what lies past it
     * is still zero.
     */
    method Run(events: seq<Event>, ghost ms: seq<Operands>) returns (responses: seq<Response>)
      requires Valid() && |ms| == |events|
      requires forall k :: 0 <= k < |events| ==> StandFor(events[k], ms[k])
      requires forall k :: 0 <= k < |events| ==>
                 InBuffer(events[k], |After(Contents(), max, growable, events, ms, k)|)
      modifies this`size, block
      ensures Valid() && old(size) <= size <= max
      ensures Contents() == After(old(Contents()), max, growable, events, ms, |events|)
      ensures |responses| == |events|
      ensures forall k :: 0 <= k < |events| ==>
                Responds(After(old(Contents()), max, growable, events, ms, k), max, growable, events[k], responses[k])
    {
      hide After, Effect, InBuffer, Responds, StandFor;
      ghost var start := Contents();
      AfterNone(start, max, growable, events, ms);
      responses := [];
      var i := 0;
      while i < |events|
        invariant 0 <= i == |responses| <= |events| && Valid() && old(size) <= size
        invariant forall k :: 0 <= k < |events| ==> StandFor(events[k], ms[k])
        invariant Contents() == After(start, max, growable, events, ms, i)
        invariant forall k :: 0 <= k < i ==>
                    Responds(After(start, max, growable, events, ms, k), max, growable, events[k], responses[k])
      {
        AfterNext(start, max, growable, events, ms, i);
        var res := Do(events[i], ms[i]);
        responses := responses + [res];
        i := i + 1;
      }
    }
  }

  /** The SharedArrayBuffer constructor: its maximum is absent unless the options give one. */
  method New(length: Double, maxLength: Option<Double>) returns (r: Result<SharedBuffer>)
    ensures r.Done? <==>
      && ToIndex(length).Done? && ToIndex(length).value <= INT32_MAX
      && (maxLength.Some? ==> ToIndex(maxLength.value).Done?
                              && ToIndex(length).value <= ToIndex(maxLength.value).value <= INT32_MAX)
    ensures r.Fails? ==> r.error == RangeFailure
    ensures r.Done? ==>
      && r.value.Valid() && fresh(r.value) && fresh(r.value.block)
      && r.value.Contents() == seq(ToIndex(length).value, _ => 0) && r.value.growable == maxLength.Some?
      && r.value.max == ToIndex(if maxLength.Some? then maxLength.value else length).value
      && (IsDouble(length) ==> Denotes(length, |r.value.Contents()|))
      && (maxLength.Some? && IsDouble(maxLength.value) ==> Denotes(maxLength.value, r.value.max))
  {
    var byteLength := ToIndex(length);
    if IsDouble(length) && byteLength.Done? { ToIndexIff(length, byteLength.value); }
    if maxLength.Some? && IsDouble(maxLength.value) && ToIndex(maxLength.value).Done? {
      ToIndexIff(maxLength.value, ToIndex(maxLength.value).value);
    }
    hide Denotes;
    if byteLength.Fails? { return Fails(RangeFailure); }
    var growable, max := false, 0;
    if maxLength.Some? {
      var m := ToIndex(maxLength.value);
      if m.Fails? { return Fails(RangeFailure); }
      growable, max := true, m.value;
    }
    if growable && max < byteLength.value { return Fails(RangeFailure); }
    if INT32_MAX < byteLength.value || INT32_MAX < max { return Fails(RangeFailure); }
    var buffer := new SharedBuffer(byteLength.value, if growable then max else byteLength.value, growable);
    return Done(buffer);
  }
}
