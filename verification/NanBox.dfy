/** The 64-bit value encoding the emitted code relies on: lib/compiler.ts, runtime/ejsval.h. */
module NanBox {
  import opened Arith

  const WORD := 0x1_0000_0000_0000_0000       // 2^64
  const PAYLOAD := 0x8000_0000_0000           // 2^47
  const PAYLOAD_MASK := 0x7FFF_FFFF_FFFF

  const TAG_MAX_DOUBLE := 0x1FFF0
  const TAG_UNDEFINED := 0x1FFF2
  const TAG_CLOSUREENV := 0x1FFF6
  const TAG_OBJECT := 0x1FFFA

  /** The constants the emitter bakes in. */
  const CLOSUREENV_BITS := 0xFFFB_0000_0000_0000
  const OBJECT_BITS := 0xFFFD_0000_0000_0000
  const FIRST_NON_NUMBER := 0xFFF8_0001_0000_0000

  const UNDEFINED: Word := TAG_UNDEFINED * PAYLOAD

  type Word = x: int | 0 <= x < WORD

  function Tag(w: Word): nat { w / PAYLOAD }

  function Payload(w: Word): nat { w % PAYLOAD }

  /** A word the collector can parse: a number, or one of the boxed tags. */
  predicate IsValue(w: Word) { w < FIRST_NON_NUMBER || TAG_MAX_DOUBLE < Tag(w) <= TAG_OBJECT }

  // ---- the emitted tests

  predicate IsNumber(w: Word) { w < FIRST_NON_NUMBER }

  predicate IsObject(w: Word) { OBJECT_BITS <= w }

  /** objectPointer and the first half of emitEnvSlotRef: mask the payload out. */
  function Unbox(w: Word): nat { Bitwise(AndOp, w, PAYLOAD_MASK) }

  function BoxEnv(addr: Word): nat { Bitwise(OrOp, addr, CLOSUREENV_BITS) }

  /** Whether a payload lies in the nursery. */
  predicate YoungCheck(w: Word, nurseryBase: Word, nurseryEnd: Word) {
    nurseryBase <= Unbox(w) && Unbox(w) < nurseryEnd
  }

  lemma PayloadIsPow2()
    ensures Pow2(47) == PAYLOAD
  {
    Pow2Add(32, 15);
    Pow2Constants();
    assert Pow2(16) == 2 * Pow2(15);
  }

  lemma UnboxIsPayload(w: Word)
    ensures Unbox(w) == Payload(w)
  {
    PayloadIsPow2();
    AndLowMask(w, 47);
  }

  lemma {:induction false} OrSwap(a: nat, b: nat)
    ensures Bitwise(OrOp, a, b) == Bitwise(OrOp, b, a)
    decreases a + b
  {
    if a != 0 || b != 0 { OrSwap(a / 2, b / 2); }
  }

  lemma BoxEnvIsTagged(addr: Word)
    requires addr < PAYLOAD
    ensures BoxEnv(addr) == CLOSUREENV_BITS + addr
  {
    PayloadIsPow2();
    OrSwap(addr, CLOSUREENV_BITS);
    assert TAG_CLOSUREENV * PAYLOAD == CLOSUREENV_BITS;
    OrDisjoint(TAG_CLOSUREENV, addr, 47);
  }

  /** Boxing an address below 2^47 gives a closure-environment value from which it is recovered. */
  lemma EnvRoundTrip(addr: Word)
    requires addr < PAYLOAD
    ensures BoxEnv(addr) < WORD && Tag(BoxEnv(addr)) == TAG_CLOSUREENV && Unbox(BoxEnv(addr)) == addr
    ensures IsValue(BoxEnv(addr)) && !IsNumber(BoxEnv(addr)) && !IsObject(BoxEnv(addr))
  {
    BoxEnvIsTagged(addr);
    UnboxIsPayload(BoxEnv(addr));
  }

  /** The nursery test of a boxed environment is that of its address, boxed or not. */
  lemma YoungByAddress(addr: Word, nurseryBase: Word, nurseryEnd: Word)
    requires addr < PAYLOAD
    ensures BoxEnv(addr) < WORD
    ensures YoungCheck(BoxEnv(addr), nurseryBase, nurseryEnd) <==> nurseryBase <= addr < nurseryEnd
    ensures YoungCheck(addr, nurseryBase, nurseryEnd) <==> nurseryBase <= addr < nurseryEnd
  {
    hide Bitwise;
    EnvRoundTrip(addr);
    UnboxIsPayload(addr);
  }

  /** On well-formed values, the object test by comparison is the test of the tag. */
  lemma IsObjectByTag(w: Word)
    requires IsValue(w)
    ensures IsObject(w) <==> Tag(w) == TAG_OBJECT
    ensures IsNumber(w) <==> Tag(w) <= TAG_MAX_DOUBLE
    ensures !(IsObject(w) && IsNumber(w))
  {
  }
}
