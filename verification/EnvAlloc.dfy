/** Closure environments: the inline allocation of lib/compiler.ts and the runtime path it must equal. */
module EnvAlloc {
  import opened Arith
  import opened NanBox
  import opened SizeClasses

  const CLASSES := 5
  const CONTEXT_WORDS := 18
  const HALF := 0x1_0000_0000

  /** The header of a new environment: its scan type, and bit 57 for a young cell. */
  const HEADER: Word := 0x0200_0000_0000_0008

  /** Bit 60: the cell is remembered as holding references to young ones. */
  const DIRTY: Word := 0x1000_0000_0000_0000

  /** The most slots for which the collector's int arithmetic on sizes finds a size class. */
  const MAX_SLOTS := 0xFFF_FFFE

  /** An environment of n slots in `words` words of memory from word `at`, and whether it starts out dirty. */
  datatype Cell = Cell(at: nat, words: nat, n: nat, dirty: bool)

  /**
   * What the collector hands out when a size class has no room: a fresh page, or a cell from
   * elsewhere, with the nursery on or off.
   */
  datatype Supply = Page(start: Word, end: Word) | Direct(addr: Word, nursery: bool)

  // ---- size classes

  /** Header, length and n slots, in bytes. */
  function Size(n: nat): nat { 16 + 8 * n }

  function CellBytes(idx: nat): nat { 16 * Pow2(idx) }

  /** The first class from idx on whose cells hold n slots. */
  function ClassFrom(idx: nat, n: nat): (r: nat)
    ensures idx <= r && Size(n) <= CellBytes(r)
    ensures r == idx || CellBytes(r) < 2 * Size(n)
    decreases Size(n) - CellBytes(idx)
  {
    if Size(n) <= CellBytes(idx) then idx
    else
      assert CellBytes(idx + 1) == 2 * CellBytes(idx);
      ClassFrom(idx + 1, n)
  }

  /** The class of an environment of n slots. */
  function Class(n: nat): nat { ClassFrom(0, n) }

  function Log2(c: nat): nat {
    if c < 2 then 0 else 1 + Log2(c / 2)
  }

  lemma {:induction false} Log2OfPower(k: nat)
    ensures Log2(Pow2(k)) == k
  {
    if k != 0 { Log2OfPower(k - 1); }
  }

  /** No smaller power of two from 16 on would do, and the five classes serve exactly 30 slots and fewer. */
  lemma ClassIsLeast(n: nat, k: nat)
    requires Size(n) <= CellBytes(k)
    ensures Class(n) <= k
    ensures Class(n) < CLASSES <==> n <= 30
    ensures CellBytes(Class(n)) <= 256 <==> n <= 30
  {
    var r := Class(n);
    if k < r {
      Pow2Mono(k + 1, r);
      assert Pow2(k + 1) == 2 * Pow2(k);
    }
    Pow2Constants();
    if r < CLASSES { Pow2Mono(r, 4); } else { Pow2Mono(5, r); assert Pow2(5) == 32; }
    assert Pow2(4) == 16;
  }

  /** The doubling loop of the emitter finds the class. */
  method CellClass(n: nat) returns (cell: nat, idx: nat)
    ensures idx == Class(n) && cell == CellBytes(idx)
  {
    var valueSize := 16 + 8 * n;
    cell := 16;
    ghost var k: nat := 0;
    while cell < valueSize
      invariant cell == CellBytes(k) && ClassFrom(k, n) == Class(n)
      decreases valueSize - cell
    {
      cell := cell * 2;
      k := k + 1;
    }
    Pow2Add(4, k);
    Pow2Constants();
    Log2OfPower(4 + k);
    idx := Log2(cell) - 4;
  }

  /** The int the collector keeps a cell size in, as a bit pattern. */
  function SizeBits(n: nat): nat {
    var size := Pow2(CeilExponent(Size(n)));
    (if size < 16 then 16 else size) % HALF
  }

  /** The size class _ejs_gc_alloc computes with ffs. */
  function RuntimeClass(n: nat): int { Ffs(SizeBits(n)) - 5 }

  lemma ExponentOfClass(n: nat)
    requires 0 < n
    ensures CeilExponent(Size(n)) == Class(n) + 4 && Pow2(CeilExponent(Size(n))) == CellBytes(Class(n))
    ensures 1 <= Class(n)
  {
    var c := Class(n);
    Pow2Add(4, c);
    assert Pow2(4) == 16;
    assert CellBytes(0) == 16;
    Pow2Add(4, c - 1);
    assert Pow2(c) == 2 * Pow2(c - 1);
    CeilExponentUnique(Size(n), c + 4);
  }

  /** The collector finds the emitter's class exactly up to 2^28 - 2 slots; past that its int is zero and so is ffs. */
  lemma RuntimeClassIff(n: nat)
    requires 0 < n
    ensures RuntimeClass(n) == Class(n) <==> n <= MAX_SLOTS
    ensures n <= MAX_SLOTS ==> SizeBits(n) == CellBytes(Class(n)) && CeilExponent(Size(n)) < 64
    ensures MAX_SLOTS < n ==> RuntimeClass(n) == -5
  {
    ExponentOfClass(n);
    var b := CeilExponent(Size(n));
    SizeIsBelow(n, b);
    hide Pow2;
    if b <= 31 {
      FfsOfPower(b);
      PowerFits(b);
    } else {
      Pow2Add(32, b - 32);
      PowerWraps(b);
    }
  }

  lemma SizeIsBelow(n: nat, b: nat)
    requires Size(n) <= Pow2(b) && 0 < b && Pow2(b - 1) < Size(n)
    ensures b <= 31 <==> n <= MAX_SLOTS
  {
    HalfRange();
    if b <= 31 { Pow2Mono(b, 31); } else { Pow2Mono(31, b - 1); }
  }

  lemma HalfRange()
    ensures Pow2(31) == 0x8000_0000 && Pow2(32) == HALF
  {
    Pow2Constants();
    assert Pow2(32) == 2 * Pow2(31);
  }

  lemma PowerFits(b: nat)
    requires 4 < b <= 31
    ensures Pow2(b) % HALF == Pow2(b) && 16 <= Pow2(b)
  {
    HalfRange();
    Pow2Mono(b, 31);
    Pow2Mono(4, b);
    assert Pow2(4) == 16;
  }

  lemma PowerWraps(b: nat)
    requires 32 <= b
    ensures Pow2(b) % HALF == 0 && 16 <= Pow2(b)
  {
    HalfRange();
    Pow2Add(32, b - 32);
    Pow2Mono(4, b);
    assert Pow2(4) == 16;
    DivModUnique(Pow2(b), HALF, Pow2(b - 32), 0);
  }

  /** The start of _ejs_gc_alloc: the cell size, as bits, and its class. */
  method Bucket(n: nat) returns (cell: nat, idx: int)
    requires 0 < n <= MAX_SLOTS
    ensures idx == Class(n) && cell == CellBytes(Class(n))
  {
    RuntimeClassIff(n);
    hide Pow2;
    var size := Pow2Ceil(16 + 8 * n);
    cell := (if size < 16 then 16 else size) % HALF;
    idx := Ffs(cell) - 5;
  }

  // ---- where an environment goes

  type Context = c: seq<Word> | |c| == CONTEXT_WORDS witness seq(CONTEXT_WORDS, _ => 0)

  /** Class c has a whole cell left. */
  predicate HasRoom(ctx: Context, c: nat) {
    c < CLASSES && ctx[c] + CellBytes(c) <= ctx[CLASSES + c]
  }

  /** Moves the bump word of class c past one cell. */
  function Take(ctx: Context, c: nat): Context
    requires HasRoom(ctx, c)
  {
    ctx[c := ctx[c] + CellBytes(c)]
  }

  /** Makes [start, end) the unused part of class c. */
  function Install(ctx: Context, c: nat, start: Word, end: Word): Context
    requires c < CLASSES
  {
    ctx[c := start][CLASSES + c := end]
  }

  /** The context in which an allocation in class c takes its cell. */
  function Refilled(ctx: Context, c: nat, supply: Supply): Context {
    if c < CLASSES && !HasRoom(ctx, c)
    then if supply.Page? then Install(ctx, c, supply.start, supply.end) else Install(ctx, c, 0, 0)
    else ctx
  }

  /** A large object is old at birth: with the nursery on it is remembered at once. */
  predicate StartsDirty(c: nat, supply: Supply) { CLASSES <= c && supply.Direct? && supply.nursery }

  /** The header a new cell gets. */
  function Header(dirty: bool): Word { if dirty then HEADER + DIRTY else HEADER }

  lemma DirtyHeader()
    ensures Bitwise(OrOp, HEADER, DIRTY) == Header(true)
  {
    hide Pow2, Bitwise;
    var k: nat := 60;
    DirtyIsPower(k);
    OrSwap(HEADER, DIRTY);
    OrDisjoint(1, HEADER, k);
  }

  lemma DirtyIsPower(k: nat)
    requires k == 60
    ensures Pow2(k) == DIRTY
  {
    PayloadIsPow2();
    Pow2Add(47, 13);
    assert Pow2(13) == 0x2000;
  }

  /** The cell an allocation of n slots gets. */
  function Place(ctx: Context, n: nat, supply: Supply): Cell {
    var c := Class(n);
    var ctx' := Refilled(ctx, c, supply);
    if HasRoom(ctx', c) then Cell(ctx'[c] / 8, CellBytes(c) / 8, n, false)
    else if supply.Direct? then Cell(supply.addr / 8, 2 + n, n, StartsDirty(c, supply))
    else Cell(0, 0, n, false)
  }

  /** The heap context after it. */
  function NextContext(ctx: Context, n: nat, supply: Supply): Context {
    var c := Class(n);
    var ctx' := Refilled(ctx, c, supply);
    if HasRoom(ctx', c) then Take(ctx', c) else ctx'
  }

  // ---- invariants

  /** A stretch of memory, in bytes. */
  datatype Span = Span(start: nat, end: nat)

  predicate Apart(a: Span, b: Span) { a.end <= b.start || b.end <= a.start }

  /** The unused part of class c's current page; it is empty when there is no page. */
  function Free(ctx: Context, c: nat): Span
    requires c < CLASSES
  {
    Span(ctx[c], ctx[CLASSES + c])
  }

  function FreeParts(ctx: Context): (free: seq<Span>)
    ensures |free| == CLASSES
  {
    [Free(ctx, 0), Free(ctx, 1), Free(ctx, 2), Free(ctx, 3), Free(ctx, 4)]
  }

  function Extent(a: Cell): Span { Span(8 * a.at, 8 * (a.at + a.words)) }

  function Extents(cells: seq<Cell>): (used: seq<Span>) {
    seq(|cells|, k requires 0 <= k < |cells| => Extent(cells[k]))
  }

  predicate InMemory(s: Span, size: nat) {
    s.start % 8 == 0 && s.start <= s.end <= 8 * size && (s.start == 0 ==> s.end == 0)
  }

  /** Unused parts and environments lie in memory, all apart from each other. */
  ghost predicate Layout(free: seq<Span>, used: seq<Span>, size: nat) {
    && (forall c :: 0 <= c < |free| ==> InMemory(free[c], size))
    && (forall c, d :: 0 <= c < d < |free| ==> Apart(free[c], free[d]))
    && (forall k :: 0 <= k < |used| ==> InMemory(used[k], size))
    && (forall j, k :: 0 <= j < k < |used| ==> Apart(used[j], used[k]))
    && (forall c, k :: 0 <= c < |free| && 0 <= k < |used| ==> Apart(free[c], used[k]))
  }

  /** A stretch apart from every environment and every unused part but that of class `but`. */
  ghost predicate Clear(s: Span, free: seq<Span>, used: seq<Span>, but: nat) {
    && (forall k :: 0 <= k < |used| ==> Apart(s, used[k]))
    && (forall c :: 0 <= c < |free| && c != but ==> Apart(s, free[c]))
  }

  /** What the collector and the slot accessors rely on in an environment's memory. */
  ghost predicate Holds(mem: seq<Word>, a: Cell) {
    && 0 < a.at && 2 + a.n <= a.words && a.at + a.words <= |mem|
    && mem[a.at] == Header(a.dirty) && mem[a.at + 1] % HALF == a.n
    && forall i :: a.at + 2 <= i < a.at + 2 + a.n ==> IsValue(mem[i])
  }

  /** A new environment: every slot undefined. */
  ghost predicate Blank(mem: seq<Word>, a: Cell) {
    Holds(mem, a) && forall i :: a.at + 2 <= i < a.at + 2 + a.n ==> mem[i] == UNDEFINED
  }

  /** What the collector supplies when there is no room is free memory. */
  ghost predicate Usable(ctx: Context, cells: seq<Cell>, n: nat, supply: Supply, size: nat) {
    HasRoom(ctx, Class(n)) ||
    match supply
    case Page(start, end) =>
      && Class(n) < CLASSES && 0 < start && start + CellBytes(Class(n)) <= end
      && InMemory(Span(start, end), size) && Clear(Span(start, end), FreeParts(ctx), Extents(cells), Class(n))
    case Direct(addr, _) => Supplied(FreeParts(ctx), Extents(cells), n, addr, size)
  }

  ghost predicate Supplied(free: seq<Span>, used: seq<Span>, n: nat, addr: Word, size: nat) {
    && 0 < addr && InMemory(Span(addr, addr + Size(n)), size)
    && Clear(Span(addr, addr + Size(n)), free, used, CLASSES)
  }

  /** Taking a cell off the front of an unused part. */
  lemma SplitKeeps(free: seq<Span>, used: seq<Span>, idx: nat, mid: nat, size: nat)
    requires Layout(free, used, size) && idx < |free|
    requires 0 < free[idx].start <= mid <= free[idx].end && mid % 8 == 0
    ensures Layout(free[idx := Span(mid, free[idx].end)], used + [Span(free[idx].start, mid)], size)
  {
    var a := Span(free[idx].start, mid);
    forall c | 0 <= c < |free| && c != idx
      ensures Apart(free[c], a) && Apart(free[c], Span(mid, free[idx].end))
    {
      assert c < idx ==> Apart(free[c], free[idx]);
      assert idx < c ==> Apart(free[idx], free[c]);
    }
  }

  lemma ReplaceKeeps(free: seq<Span>, used: seq<Span>, idx: nat, s: Span, size: nat)
    requires Layout(free, used, size) && idx < |free|
    requires InMemory(s, size) && Clear(s, free, used, idx)
    ensures Layout(free[idx := s], used, size)
  {
  }

  lemma AddKeeps(free: seq<Span>, used: seq<Span>, s: Span, size: nat)
    requires Layout(free, used, size) && InMemory(s, size) && Clear(s, free, used, |free|)
    ensures Layout(free, used + [s], size)
  {
  }

  lemma TakeKeeps(ctx: Context, used: seq<Span>, c: nat, size: nat)
    requires Layout(FreeParts(ctx), used, size) && HasRoom(ctx, c)
    ensures Layout(FreeParts(Take(ctx, c)), used + [Span(ctx[c], ctx[c] + CellBytes(c))], size)
    ensures 0 < ctx[c] && ctx[c] % 8 == 0 && ctx[c] + CellBytes(c) <= 8 * size
  {
    assert InMemory(FreeParts(ctx)[c], size);
    assert CellBytes(c) % 8 == 0;
    hide Layout, CellBytes;
    SplitKeeps(FreeParts(ctx), used, c, ctx[c] + CellBytes(c), size);
    assert FreeParts(Take(ctx, c)) == FreeParts(ctx)[c := Span(ctx[c] + CellBytes(c), ctx[CLASSES + c])];
  }

  lemma InstallKeeps(ctx: Context, used: seq<Span>, c: nat, start: Word, end: Word, size: nat)
    requires Layout(FreeParts(ctx), used, size) && c < CLASSES
    requires InMemory(Span(start, end), size) && Clear(Span(start, end), FreeParts(ctx), used, c)
    ensures Layout(FreeParts(Install(ctx, c, start, end)), used, size)
  {
    ReplaceKeeps(FreeParts(ctx), used, c, Span(start, end), size);
    InstallInFree(ctx, c, start, end);
  }

  lemma RefillKeeps(ctx: Context, cells: seq<Cell>, n: nat, supply: Supply, size: nat)
    requires Layout(FreeParts(ctx), Extents(cells), size) && Usable(ctx, cells, n, supply, size)
    ensures var ctx' := Refilled(ctx, Class(n), supply);
      && Layout(FreeParts(ctx'), Extents(cells), size)
      && (HasRoom(ctx', Class(n)) ||
          (supply.Direct? && Supplied(FreeParts(ctx'), Extents(cells), n, supply.addr, size)))
  {
    hide Layout, Extents, Class, FreeParts;
    var c := Class(n);
    if c < CLASSES && !HasRoom(ctx, c) {
      match supply
      case Page(start, end) =>
        InstallKeeps(ctx, Extents(cells), c, start, end, size);
      case Direct(addr, _) =>
        EmptyIsClear(FreeParts(ctx), Extents(cells), c, size);
        InstallKeeps(ctx, Extents(cells), c, 0, 0, size);
        InstallInFree(ctx, c, 0, 0);
    }
  }

  lemma EmptyIsClear(free: seq<Span>, used: seq<Span>, c: nat, size: nat)
    ensures Clear(Span(0, 0), free, used, c)
  {
  }

  lemma InstallInFree(ctx: Context, c: nat, start: Word, end: Word)
    requires c < CLASSES
    ensures FreeParts(Install(ctx, c, start, end)) == FreeParts(ctx)[c := Span(start, end)]
  {
  }

  lemma ExtentsPush(cells: seq<Cell>, a: Cell)
    ensures Extents(cells + [a]) == Extents(cells) + [Extent(a)]
  {
    assert forall k :: 0 <= k < |cells| ==> (cells + [a])[k] == cells[k];
  }

  /** The cell an allocation gets holds n slots, and is apart from everything in use or unused. */
  lemma PlaceIsFree(ctx: Context, used: seq<Span>, n: nat, supply: Supply, size: nat)
    requires var ctx' := Refilled(ctx, Class(n), supply);
      && Layout(FreeParts(ctx'), used, size)
      && (HasRoom(ctx', Class(n)) || (supply.Direct? && Supplied(FreeParts(ctx'), used, n, supply.addr, size)))
    ensures Layout(FreeParts(NextContext(ctx, n, supply)), used + [Extent(Place(ctx, n, supply))], size)
    ensures 0 < Place(ctx, n, supply).at && 2 + n <= Place(ctx, n, supply).words && Place(ctx, n, supply).n == n
    ensures Place(ctx, n, supply).at + Place(ctx, n, supply).words <= size
  {
    var c := Class(n);
    var ctx' := Refilled(ctx, c, supply);
    assert CellBytes(c) % 8 == 0;
    hide Layout, FreeParts, Refilled, Class, CellBytes;
    if HasRoom(ctx', c) {
      TakeKeeps(ctx', used, c, size);
    } else {
      AddKeeps(FreeParts(ctx'), used, Span(supply.addr, supply.addr + Size(n)), size);
    }
  }

  /** Every allocation keeps the unused parts and all environments apart. */
  lemma AllocationKeeps(ctx: Context, cells: seq<Cell>, n: nat, supply: Supply, size: nat)
    requires Layout(FreeParts(ctx), Extents(cells), size) && Usable(ctx, cells, n, supply, size)
    ensures Layout(FreeParts(NextContext(ctx, n, supply)), Extents(cells + [Place(ctx, n, supply)]), size)
    ensures 0 < Place(ctx, n, supply).at && 2 + n <= Place(ctx, n, supply).words && Place(ctx, n, supply).n == n
    ensures Place(ctx, n, supply).at + Place(ctx, n, supply).words <= size
  {
    hide *;
    RefillKeeps(ctx, cells, n, supply, size);
    ExtentsPush(cells, Place(ctx, n, supply));
    PlaceIsFree(ctx, Extents(cells), n, supply, size);
  }

  lemma RoomNeedsNoRefill(ctx: Context, n: nat, supply: Supply)
    requires HasRoom(ctx, Class(n))
    ensures Place(ctx, n, supply) == Cell(ctx[Class(n)] / 8, CellBytes(Class(n)) / 8, n, false)
    ensures NextContext(ctx, n, supply) == ctx[Class(n) := ctx[Class(n)] + CellBytes(Class(n))]
  {
  }

  lemma RoomIsAligned(ctx: Context, used: seq<Span>, c: nat, size: nat)
    requires Layout(FreeParts(ctx), used, size) && HasRoom(ctx, c)
    ensures ctx[c] % 8 == 0
  {
    assert InMemory(FreeParts(ctx)[c], size);
  }

  /** Writing one cell leaves the contents of any other. */
  lemma HoldsOutside(mem: seq<Word>, mem': seq<Word>, c: Cell, a: Cell)
    requires |mem| == |mem'| && Holds(mem, c) && Apart(Extent(c), Extent(a))
    requires forall i :: 0 <= i < |mem| && !(a.at <= i < a.at + a.words) ==> mem'[i] == mem[i]
    ensures Holds(mem', c)
  {
  }

  lemma NewIsApart(cells: seq<Cell>, a: Cell, k: nat, free: seq<Span>, size: nat)
    requires Layout(free, Extents(cells + [a]), size) && k < |cells|
    ensures Apart(Extent(cells[k]), Extent(a))
  {
    assert Apart(Extents(cells + [a])[k], Extents(cells + [a])[|cells|]);
  }

  // ---- slots and runs

  /** The boxed value of an environment. */
  function EnvOf(a: Cell): (env: Word)
    requires 8 * a.at < PAYLOAD
  {
    BoxEnvIsTagged(8 * a.at);
    BoxEnv(8 * a.at)
  }

  /** emitEnvSlotRef: the payload of the value, plus the slot's offset. */
  function SlotRef(env: Word, slot: nat): nat { Unbox(env) + 16 + 8 * slot }

  /** The address taken by _ejs_closureenv_get_slot_ref, from the payload field of the value. */
  function RuntimeSlotRef(env: Word, slot: nat): nat { Payload(env) + 8 + 8 + 8 * slot }

  /** The word a slot address names. */
  lemma SlotIndex(a: Cell, slot: nat)
    requires 8 * a.at < PAYLOAD
    ensures SlotRef(EnvOf(a), slot) / 8 == a.at + 2 + slot
  {
    EnvRoundTrip(8 * a.at);
  }

  ghost function Slots(mem: seq<Word>, a: Cell): seq<Word>
    requires Holds(mem, a)
  {
    mem[a.at + 2..a.at + 2 + a.n]
  }

  /** The slots of every environment. */
  ghost function Views(mem: seq<Word>, cells: seq<Cell>): seq<seq<Word>>
    requires forall k :: 0 <= k < |cells| ==> Holds(mem, cells[k])
  {
    seq(|cells|, k requires 0 <= k < |cells| => Slots(mem, cells[k]))
  }

  /** The contents after an assignment to one slot of environment k. */
  function Assigned(all: seq<seq<Word>>, k: nat, slot: nat, v: Word): seq<seq<Word>> {
    if k < |all| && slot < |all[k]|
    then
      var slots: seq<Word> := all[k][slot := v];
      all[k := slots]
    else all
  }

  /** Different environments have different values, and different slots different addresses. */
  lemma SlotsAreDistinct(mem: seq<Word>, cells: seq<Cell>, free: seq<Span>, j: nat, k: nat, s: nat, t: nat)
    requires Layout(free, Extents(cells), |mem|) && 8 * |mem| <= PAYLOAD
    requires j < |cells| && k < |cells| && Holds(mem, cells[j]) && Holds(mem, cells[k])
    requires s < cells[j].n && t < cells[k].n
    ensures EnvOf(cells[j]) == EnvOf(cells[k]) <==> j == k
    ensures SlotRef(EnvOf(cells[j]), s) == SlotRef(EnvOf(cells[k]), t) <==> j == k && s == t
  {
    EnvRoundTrip(8 * cells[j].at);
    EnvRoundTrip(8 * cells[k].at);
    if j < k { assert Apart(Extents(cells)[j], Extents(cells)[k]); }
    if k < j { assert Apart(Extents(cells)[k], Extents(cells)[j]); }
  }

  lemma OthersAreApart(cells: seq<Cell>, j: nat, k: nat, free: seq<Span>, size: nat)
    requires Layout(free, Extents(cells), size) && j < |cells| && k < |cells| && j != k
    ensures Apart(Extent(cells[j]), Extent(cells[k]))
  {
    if j < k { assert Apart(Extents(cells)[j], Extents(cells)[k]); }
    if k < j { assert Apart(Extents(cells)[k], Extents(cells)[j]); }
  }

  lemma StoreKeeps(mem: seq<Word>, cells: seq<Cell>, free: seq<Span>, k: nat, slot: nat, v: Word)
    requires Layout(free, Extents(cells), |mem|)
    requires forall j :: 0 <= j < |cells| ==> Holds(mem, cells[j])
    requires k < |cells| && Holds(mem, cells[k]) && slot < cells[k].n && IsValue(v)
    ensures var mem' := mem[cells[k].at + 2 + slot := v];
      && (forall j :: 0 <= j < |cells| ==> Holds(mem', cells[j]))
      && Views(mem', cells) == Assigned(Views(mem, cells), k, slot, v)
  {
    hide Layout, Extents;
    var mem': seq<Word> := mem[cells[k].at + 2 + slot := v];
    assert Holds(mem', cells[k]);
    forall j | 0 <= j < |cells| && j != k
      ensures Holds(mem', cells[j]) && Slots(mem', cells[j]) == Slots(mem, cells[j])
    {
      OthersAreApart(cells, j, k, free, |mem|);
      assert Holds(mem, cells[j]);
      HoldsOutside(mem, mem', cells[j], cells[k]);
    }
    assert Slots(mem', cells[k]) == Slots(mem, cells[k])[slot := v];
  }

  lemma ViewsAfterNew(mem: seq<Word>, mem': seq<Word>, cells: seq<Cell>, a: Cell, free: seq<Span>)
    requires |mem| == |mem'| && Layout(free, Extents(cells + [a]), |mem|) && Blank(mem', a)
    requires forall k :: 0 <= k < |cells| ==> Holds(mem, cells[k])
    requires forall k :: 0 <= k < |cells + [a]| ==> Holds(mem', (cells + [a])[k])
    requires forall i :: 0 <= i < |mem| && !(a.at <= i < a.at + a.words) ==> mem'[i] == mem[i]
    ensures Views(mem', cells + [a]) == Views(mem, cells) + [seq(a.n, _ => UNDEFINED)]
  {
    hide Layout, Extents;
    forall k | 0 <= k < |cells| ensures Views(mem', cells + [a])[k] == Views(mem, cells)[k]
    {
      assert (cells + [a])[k] == cells[k];
      NewIsApart(cells, a, k, free, |mem|);
      assert Holds(mem, cells[k]);
    }
    assert Slots(mem', a) == seq(a.n, _ => UNDEFINED);
  }

  datatype Operation = New(n: nat, supply: Supply) | Put(env: nat, slot: nat, value: Word)

  ghost predicate Possible(ctx: Context, cells: seq<Cell>, op: Operation, size: nat) {
    match op
    case New(n, supply) => 0 < n <= MAX_SLOTS && Usable(ctx, cells, n, supply, size)
    case Put(k, slot, v) => k < |cells| && slot < cells[k].n && IsValue(v)
  }

  ghost function CellsAfter(ctx: Context, cells: seq<Cell>, op: Operation): seq<Cell> {
    if op.New? then cells + [Place(ctx, op.n, op.supply)] else cells
  }

  ghost function ContextAfter(ctx: Context, op: Operation): Context {
    if op.New? then NextContext(ctx, op.n, op.supply) else ctx
  }

  ghost predicate AllPossible(ctx: Context, cells: seq<Cell>, ops: seq<Operation>, size: nat)
    decreases |ops|
  {
    ops == [] ||
    (Possible(ctx, cells, ops[0], size)
     && AllPossible(ContextAfter(ctx, ops[0]), CellsAfter(ctx, cells, ops[0]), ops[1..], size))
  }

  /** What an operation means: a list of environments, each a list of slots. */
  function Effect(all: seq<seq<Word>>, op: Operation): seq<seq<Word>> {
    match op
    case New(n, _) => all + [seq(n, _ => UNDEFINED)]
    case Put(k, slot, v) => Assigned(all, k, slot, v)
  }

  /** The same, slot by slot. */
  lemma EffectSlots(all: seq<seq<Word>>, op: Operation)
    ensures var t := Effect(all, op);
      && |t| == |all| + (if op.New? then 1 else 0)
      && (forall j :: 0 <= j < |all| ==> |t[j]| == |all[j]|)
      && (forall j, i :: 0 <= j < |all| && 0 <= i < |all[j]| ==>
            t[j][i] == if op.Put? && op.env == j && op.slot == i then op.value else all[j][i])
      && (op.New? ==> |t[|all|]| == op.n && forall i :: 0 <= i < op.n ==> t[|all|][i] == UNDEFINED)
  {
  }

  /** A slot keeps its value over any run that does not store in it. */
  lemma {:induction false} KeptUntilStored(all: seq<seq<Word>>, ops: seq<Operation>, k: nat, slot: nat)
    requires k < |all| && slot < |all[k]|
    requires forall i :: 0 <= i < |ops| && ops[i].Put? ==> !(ops[i].env == k && ops[i].slot == slot)
    ensures k < |Effects(all, ops)| && slot < |Effects(all, ops)[k]|
    ensures Effects(all, ops)[k][slot] == all[k][slot]
    decreases |ops|
  {
    if ops != [] {
      hide Effect;
      EffectSlots(all, ops[0]);
      KeptUntilStored(Effect(all, ops[0]), ops[1..], k, slot);
    }
  }

  function Effects(all: seq<seq<Word>>, ops: seq<Operation>): seq<seq<Word>>
    decreases |ops|
  {
    if ops == [] then all else Effects(Effect(all, ops[0]), ops[1..])
  }

  // ---- the heap

  class Heap {
    const ctx: array<Word>  // the exported heap context: bump[5], limit[5], ...
    const mem: array<Word>  // word i at byte address 8 * i
    ghost var cells: seq<Cell>

    ghost predicate Valid()
      reads this, ctx, mem
    {
      && ctx != mem && ctx.Length == CONTEXT_WORDS && 8 * mem.Length <= PAYLOAD
      && Layout(FreeParts(ctx[..]), Extents(cells), mem.Length)
      && forall k :: 0 <= k < |cells| ==> Holds(mem[..], cells[k])
    }

    /** A heap of garbage with no page installed. */
    constructor (words: nat)
      requires 8 * words <= PAYLOAD
      ensures Valid() && cells == [] && mem.Length == words && fresh(ctx) && fresh(mem)
    {
      ctx := new Word[CONTEXT_WORDS](_ => 0);
      mem := new Word[words];
      cells := [];
    }

    /** The length store and slot loop of _ejs_closure_init. */
    method Init(at: nat, n: nat)
      requires at + 2 + n <= mem.Length && n < HALF && ctx != mem
      modifies mem
      ensures mem[at + 1] % HALF == n
      ensures forall i :: at + 2 <= i < at + 2 + n ==> mem[i] == UNDEFINED
      ensures forall i :: 0 <= i < mem.Length && !(at + 1 <= i < at + 2 + n) ==> mem[i] == old(mem[i])
    {
      StoreHalf(at + 1, n);
      var i := 0;
      while i < n
        invariant 0 <= i <= n && mem[at + 1] % HALF == n
        invariant forall j :: at + 2 <= j < at + 2 + i ==> mem[j] == UNDEFINED
        invariant forall j :: 0 <= j < mem.Length && !(at + 1 <= j < at + 2 + n) ==> mem[j] == old(mem[j])
      {
        mem[at + 2 + i] := UNDEFINED;
        i := i + 1;
      }
    }

    /** A 32-bit store to the low half of a word. */
    method StoreHalf(i: nat, v: nat)
      requires i < mem.Length && v < HALF
      modifies mem
      ensures mem[i] % HALF == v && mem[i] / HALF == old(mem[i]) / HALF
      ensures forall j :: 0 <= j < mem.Length && j != i ==> mem[j] == old(mem[j])
    {
      var w: int := mem[i] / HALF;
      assert w < HALF;
      mem[i] := w * HALF + v;
    }

    /** A zeroed cell, and its header; a dirty one has its bit or-ed in. */
    method Wipe(at: nat, words: nat, dirty: bool)
      requires at + words <= mem.Length && 0 < words && ctx != mem
      modifies mem
      ensures mem[at] == Header(dirty) && forall i :: at < i < at + words ==> mem[i] == 0
      ensures forall i :: 0 <= i < mem.Length && !(at <= i < at + words) ==> mem[i] == old(mem[i])
    {
      hide Bitwise;
      var i := 0;
      while i < words
        invariant 0 <= i <= words && forall j :: at <= j < at + i ==> mem[j] == 0
        invariant forall j :: 0 <= j < mem.Length && !(at <= j < at + words) ==> mem[j] == old(mem[j])
      {
        mem[at + i] := 0;
        i := i + 1;
      }
      mem[at] := HEADER;
      if dirty {
        DirtyHeader();
        mem[at] := Bitwise(OrOp, mem[at], DIRTY);
      }
    }

    /** The bump allocation of _ejs_gc_alloc, and what the collector does when a class has no room. */
    method GcAlloc(n: nat, supply: Supply) returns (a: Cell)
      requires 0 < n <= MAX_SLOTS && ctx != mem && ctx.Length == CONTEXT_WORDS
      requires var p := Place(ctx[..], n, supply); 0 < p.words && p.at + p.words <= mem.Length
      requires HasRoom(Refilled(ctx[..], Class(n), supply), Class(n)) || supply.Direct?
      modifies ctx, mem
      ensures a == Place(old(ctx[..]), n, supply) && ctx[..] == NextContext(old(ctx[..]), n, supply)
      ensures mem[a.at] == Header(a.dirty) && forall i :: a.at < i < a.at + a.words ==> mem[i] == 0
      ensures forall i :: 0 <= i < mem.Length && !(a.at <= i < a.at + a.words) ==> mem[i] == old(mem[i])
    {
      var cell, c := Bucket(n);
      hide Class, CellBytes;
      ghost var ctx0: Context := ctx[..];
      if c < CLASSES && ctx[CLASSES + c] < ctx[c] + cell {
        match supply
        case Page(start, end) => ctx[c], ctx[CLASSES + c] := start, end;
        case Direct(_, _) => ctx[c], ctx[CLASSES + c] := 0, 0;
      }
      assert ctx[..] == Refilled(ctx0, c, supply);
      if c < CLASSES && ctx[c] + cell <= ctx[CLASSES + c] {
        var p := ctx[c];
        ctx[c] := p + cell;
        a := Cell(p / 8, cell / 8, n, false);
      } else {
        a := Cell(supply.addr / 8, 2 + n, n, CLASSES <= c && supply.nursery);
      }
      assert ctx[..] == NextContext(ctx0, n, supply);
      Wipe(a.at, a.words, a.dirty);
    }

    /** The result of an allocation, by whichever path: one more cell, blank, and its boxed address. */
    twostate predicate Allocated(n: nat, supply: Supply, env: Word)
      reads this, ctx, mem
    {
      && ctx.Length == CONTEXT_WORDS
      && var a := Place(old(ctx[..]), n, supply);
      && cells == old(cells) + [a]
      && ctx[..] == NextContext(old(ctx[..]), n, supply)
      && Blank(mem[..], a)
      && (forall i :: 0 <= i < mem.Length && !(a.at <= i < a.at + a.words) ==> mem[i] == old(mem[i]))
      && 8 * a.at < PAYLOAD && env == EnvOf(a)
    }

    /** Contents of the environments stay apart when a blank one is added. */
    lemma Admit(n: nat, supply: Supply, ctx0: Context, mem0: seq<Word>)
      requires ctx != mem && ctx.Length == CONTEXT_WORDS && 8 * mem.Length <= PAYLOAD && |mem0| == mem.Length
      requires Layout(FreeParts(ctx0), Extents(cells), mem.Length)
      requires forall k :: 0 <= k < |cells| ==> Holds(mem0, cells[k])
      requires Usable(ctx0, cells, n, supply, mem.Length)
      requires ctx[..] == NextContext(ctx0, n, supply) && Blank(mem[..], Place(ctx0, n, supply))
      requires var a := Place(ctx0, n, supply);
        forall i :: 0 <= i < mem.Length && !(a.at <= i < a.at + a.words) ==> mem[i] == mem0[i]
      ensures Layout(FreeParts(ctx[..]), Extents(cells + [Place(ctx0, n, supply)]), mem.Length)
      ensures forall k :: 0 <= k < |cells| + 1 ==> Holds(mem[..], (cells + [Place(ctx0, n, supply)])[k])
    {
      var a := Place(ctx0, n, supply);
      AllocationKeeps(ctx0, cells, n, supply, mem.Length);
      hide Place, NextContext, Layout, Extents, FreeParts, Usable, Holds;
      forall k | 0 <= k < |cells| + 1 ensures Holds(mem[..], (cells + [a])[k]) {
        if k < |cells| {
          NewIsApart(cells, a, k, FreeParts(ctx[..]), mem.Length);
          HoldsOutside(mem0, mem[..], cells[k], a);
        }
      }
    }

    /** _ejs_closureenv_new */
    method NewByRuntime(n: nat, supply: Supply) returns (env: Word)
      requires Valid() && 0 < n <= MAX_SLOTS && Usable(ctx[..], cells, n, supply, mem.Length)
      modifies this, ctx, mem
      ensures Valid() && Allocated(n, supply, env)
      ensures var a := Place(old(ctx[..]), n, supply);
        forall i :: a.at + 2 + n <= i < a.at + a.words <= mem.Length ==> mem[i] == 0
    {
      hide Place, NextContext, Layout, Extents, FreeParts, Usable;
      ghost var ctx0, mem0 := ctx[..], mem[..];
      AllocationKeeps(ctx0, cells, n, supply, mem.Length);
      RefillKeeps(ctx0, cells, n, supply, mem.Length);
      var a := GcAlloc(n, supply);
      Init(a.at, n);
      Admit(n, supply, ctx0, mem0);
      cells := cells + [a];
      BoxEnvIsTagged(8 * a.at);
      env := TAG_CLOSUREENV * PAYLOAD + 8 * a.at;
    }

    /** The code of emitEnvAllocInline: the same allocation, inline when a cell fits the current page. */
    method NewInline(n: nat, supply: Supply) returns (env: Word)
      requires Valid() && 0 < n <= MAX_SLOTS && Usable(ctx[..], cells, n, supply, mem.Length)
      modifies this, ctx, mem
      ensures Valid() && Allocated(n, supply, env)
      ensures n <= 30 && HasRoom(old(ctx[..]), Class(n)) ==> env == BoxEnv(old(ctx[Class(n)]))
      ensures var a := Place(old(ctx[..]), n, supply);
        forall i :: a.at + 2 + n <= i < a.at + a.words <= mem.Length ==>
          mem[i] == if n <= 30 && HasRoom(old(ctx[..]), Class(n)) then old(mem[i]) else 0
    {
      var cell, idx := CellClass(n);
      ClassIsLeast(n, idx);
      if 256 < cell {
        env := NewByRuntime(n, supply);
        return;
      }
      var bump, limit := ctx[idx], ctx[CLASSES + idx];
      var newbump := bump + cell;
      if limit < newbump {
        env := NewByRuntime(n, supply);
        return;
      }
      env := BumpInline(n, supply, cell, idx);
    }

    /** The stores of the fast block. */
    method TakeInline(n: nat, supply: Supply, cell: nat, idx: nat) returns (a: Cell)
      requires ctx != mem && ctx.Length == CONTEXT_WORDS && 0 < n <= MAX_SLOTS
      requires idx == Class(n) && cell == CellBytes(idx) && HasRoom(ctx[..], idx) && ctx[idx] % 8 == 0
      requires var p := Place(ctx[..], n, supply);
        0 < p.at && 2 + n <= p.words && p.n == n && p.at + p.words <= mem.Length
      modifies ctx, mem
      ensures a == Place(old(ctx[..]), n, supply) && ctx[..] == NextContext(old(ctx[..]), n, supply)
      ensures Blank(mem[..], a) && 8 * a.at == old(ctx[idx])
      ensures forall i :: a.at + 2 + n <= i < a.at + a.words ==> mem[i] == old(mem[i])
      ensures forall i :: 0 <= i < mem.Length && !(a.at <= i < a.at + a.words) ==> mem[i] == old(mem[i])
    {
      RoomNeedsNoRefill(ctx[..], n, supply);
      hide Class, CellBytes, Place, NextContext;
      var bump := ctx[idx];
      ctx[idx] := bump + cell;
      a := Cell(bump / 8, cell / 8, n, false);
      mem[a.at] := HEADER;
      Init(a.at, n);
    }

    /** The fast block. */
    method BumpInline(n: nat, supply: Supply, cell: nat, idx: nat) returns (env: Word)
      requires Valid() && 0 < n <= 30 && idx == Class(n) && cell == CellBytes(idx) && HasRoom(ctx[..], idx)
      modifies this, ctx, mem
      ensures Valid() && Allocated(n, supply, env) && env == BoxEnv(old(ctx[idx]))
      ensures var a := Place(old(ctx[..]), n, supply);
        forall i :: a.at + 2 + n <= i < a.at + a.words <= mem.Length ==> mem[i] == old(mem[i])
    {
      ghost var ctx0: Context, mem0 := ctx[..], mem[..];
      var bump := ctx[idx];
      AllocationKeeps(ctx0, cells, n, supply, mem.Length);
      RoomIsAligned(ctx0, Extents(cells), idx, mem.Length);
      hide Place, NextContext, Layout, Extents, FreeParts, Usable, Class, CellBytes, Bitwise, Holds;
      var a := TakeInline(n, supply, cell, idx);
      Admit(n, supply, ctx0, mem0);
      cells := cells + [a];
      BoxEnvIsTagged(bump);
      env := BoxEnv(bump);
    }

    // ---- slots

    /** What every environment holds, in the order they were made. */
    ghost function Contents(): (all: seq<seq<Word>>)
      requires Valid()
      reads this, ctx, mem
    {
      Views(mem[..], cells)
    }

    /** env is the value of environment k. */
    ghost predicate IsHandle(env: Word, k: nat)
      reads this
    {
      k < |cells| && 8 * cells[k].at < PAYLOAD && env == EnvOf(cells[k])
    }

    /** env_load: a load through the inline slot address. */
    method Load(env: Word, slot: nat, ghost k: nat) returns (v: Word)
      requires Valid() && IsHandle(env, k) && slot < cells[k].n
      ensures v == Contents()[k][slot] && IsValue(v)
      ensures SlotRef(env, slot) == RuntimeSlotRef(env, slot)
    {
      hide Layout, Extents, FreeParts, Bitwise;
      EnvRoundTrip(8 * cells[k].at);
      UnboxIsPayload(env);
      assert Holds(mem[..], cells[k]);
      v := mem[SlotRef(env, slot) / 8];
    }

    /** env_store: a store through the inline slot address changes that slot of that environment alone. */
    method Store(env: Word, slot: nat, v: Word, ghost k: nat)
      requires Valid() && IsHandle(env, k) && slot < cells[k].n && IsValue(v)
      modifies mem
      ensures Valid()
      ensures Contents() == Assigned(old(Contents()), k, slot, v)
      ensures k < |Contents()| && slot < |Contents()[k]| && Contents()[k][slot] == v
    {
      assert Holds(mem[..], cells[k]);
      SlotIndex(cells[k], slot);
      hide SlotRef, Layout, FreeParts;
      ghost var at := cells[k].at + 2 + slot;
      StoreKeeps(mem[..], cells, FreeParts(ctx[..]), k, slot, v);
      ghost var before := mem[..];
      mem[SlotRef(env, slot) / 8] := v;
      assert mem[..] == before[at := v];
    }

    /** One operation of a run; envs are the values made so far. */
    method Do(op: Operation, envs: seq<Word>) returns (envs': seq<Word>)
      requires Valid() && Possible(ctx[..], cells, op, mem.Length)
      requires |envs| == |cells| && forall k :: 0 <= k < |cells| ==> IsHandle(envs[k], k)
      modifies this, ctx, mem
      ensures Valid() && Contents() == Effect(old(Contents()), op)
      ensures cells == CellsAfter(old(ctx[..]), old(cells), op) && ctx[..] == ContextAfter(old(ctx[..]), op)
      ensures |envs'| == |cells| && forall k :: 0 <= k < |cells| ==> IsHandle(envs'[k], k)
    {
      hide Layout, Place, NextContext, Usable, FreeParts;
      match op
      case New(n, supply) =>
        ghost var mem0, cells0 := mem[..], cells;
        AllocationKeeps(ctx[..], cells, n, supply, mem.Length);
        var env := NewInline(n, supply);
        ViewsAfterNew(mem0, mem[..], cells0, cells[|cells0|], FreeParts(ctx[..]));
        envs' := envs + [env];
      case Put(k, slot, v) =>
        Store(envs[k], slot, v, k);
        envs' := envs;
    }

    /** Any run of allocations and stores leaves each environment with what was stored in it. */
    method Run(ops: seq<Operation>, envs: seq<Word>) returns (envs': seq<Word>)
      requires Valid() && AllPossible(ctx[..], cells, ops, mem.Length)
      requires |envs| == |cells| && forall k :: 0 <= k < |cells| ==> IsHandle(envs[k], k)
      modifies this, ctx, mem
      ensures Valid() && Contents() == Effects(old(Contents()), ops)
      ensures |envs'| == |cells| && forall k :: 0 <= k < |cells| ==> IsHandle(envs'[k], k)
    {
      hide Layout, Effect, Possible, CellsAfter, ContextAfter, FreeParts, Views;
      envs' := envs;
      var i := 0;
      assert ops[0..] == ops;
      while i < |ops|
        invariant 0 <= i <= |ops|
        invariant Valid() && AllPossible(ctx[..], cells, ops[i..], mem.Length)
        invariant Effects(Contents(), ops[i..]) == Effects(old(Contents()), ops)
        invariant |envs'| == |cells| && forall k :: 0 <= k < |cells| ==> IsHandle(envs'[k], k)
      {
        assert ops[i..][1..] == ops[i + 1..];
        envs' := Do(ops[i], envs');
        i := i + 1;
      }
    }
  }
}
