/** The linked chain of collector frames that emitted functions keep: lib/compiler.ts. */
module GcFrames {
  import opened NanBox

  /** A function's frame record, { prev, count, slots[count] } in words from base, when it has one. */
  datatype Frame = NoRecord | Record(base: nat, count: nat)

  /** A live activation, the stack words it occupies, and the head it found when it was entered. */
  datatype Activation = Activation(low: nat, high: nat, frame: Frame, saved: nat)

  /** Byte address of a stack word; 0 ends the chain. */
  function Addr(i: nat): nat { 8 * i }

  // ---- which record is innermost

  /** The address of the innermost record of a stack of activations, outermost first. */
  function HeadOf(acts: seq<Activation>): nat
    decreases |acts|
  {
    if acts == [] then 0
    else
      var top := acts[|acts| - 1];
      if top.frame.Record? then Addr(top.frame.base) else HeadOf(acts[..|acts| - 1])
  }

  /** The head once a function with this frame is entered. */
  function HeadAbove(frame: Frame, head: nat): nat { if frame.Record? then Addr(frame.base) else head }

  /** The records of a stack of activations, innermost first. */
  function Records(acts: seq<Activation>): seq<Frame>
    decreases |acts|
  {
    if acts == [] then []
    else
      var top := acts[|acts| - 1];
      (if top.frame.Record? then [top.frame] else []) + Records(acts[..|acts| - 1])
  }

  /** Activations lie one above the other, each record inside its own. */
  ghost predicate Stacked(acts: seq<Activation>, size: nat) {
    && (forall k :: 0 <= k < |acts| ==>
          1 <= acts[k].low <= acts[k].high <= size
          && (acts[k].frame.Record? ==>
                acts[k].low <= acts[k].frame.base && acts[k].frame.base + 2 + acts[k].frame.count <= acts[k].high))
    && (forall j, k :: 0 <= j < k < |acts| ==> acts[j].high <= acts[k].low)
  }

  /** The innermost of several records is at a higher address than all others. */
  lemma {:induction false} HeadBounds(acts: seq<Activation>, size: nat)
    requires Stacked(acts, size)
    ensures HeadOf(acts) == 0 <==> forall k :: 0 <= k < |acts| ==> acts[k].frame.NoRecord?
    ensures acts != [] ==> HeadOf(acts) < Addr(acts[|acts| - 1].high)
    decreases |acts|
  {
    if acts != [] {
      var n := |acts| - 1;
      assert forall k :: 0 <= k < n ==> acts[..n][k] == acts[k];
      HeadBounds(acts[..n], size);
      if acts[n].frame.Record? { assert 1 <= acts[n].frame.base; }
      if 0 < n { assert acts[n - 1].high <= acts[n].low; }
    }
  }

  lemma {:induction false} HeadSkipsRecordless(acts: seq<Activation>, n: nat)
    requires n <= |acts| && forall k :: n <= k < |acts| ==> acts[k].frame.NoRecord?
    ensures HeadOf(acts) == HeadOf(acts[..n])
    decreases |acts|
  {
    if n == |acts| {
      assert acts[..n] == acts;
    } else {
      assert acts[..|acts| - 1][..n] == acts[..n];
      HeadSkipsRecordless(acts[..|acts| - 1], n);
    }
  }

  lemma {:induction false} HeadIsAbove(acts: seq<Activation>, size: nat, k: nat)
    requires Stacked(acts, size) && k < |acts| && acts[k].frame.Record?
    ensures Addr(acts[k].frame.base) <= HeadOf(acts)
    decreases |acts|
  {
    var m := |acts| - 1;
    if k < m {
      assert acts[k].high <= acts[m].low;
      if acts[m].frame.NoRecord? { HeadIsAbove(acts[..m], size, k); }
    }
  }

  /** Dropping activations leaves the head right exactly when none of them had a record. */
  lemma HeadAfterDrop(acts: seq<Activation>, size: nat, n: nat)
    requires Stacked(acts, size) && n <= |acts|
    ensures HeadOf(acts) == HeadOf(acts[..n]) <==> forall k :: n <= k < |acts| ==> acts[k].frame.NoRecord?
  {
    hide HeadOf;
    if k :| n <= k < |acts| && acts[k].frame.Record? {
      HeadIsAbove(acts, size, k);
      HeadBounds(acts[..n], size);
      if 0 < n { assert acts[n - 1].high <= acts[k].low; }
      if n == 0 { assert acts[..n] == []; HeadOfNothing(); }
    } else {
      HeadSkipsRecordless(acts, n);
    }
  }

  lemma HeadOfNothing()
    ensures HeadOf([]) == 0
  {
  }

  // ---- memory

  /** The records of live activations hold what linking wrote: prev, count and parseable slots. */
  ghost predicate RecordsHold(mem: seq<Word>, acts: seq<Activation>) {
    && Stacked(acts, |mem|)
    && (forall k :: 0 <= k < |acts| ==> acts[k].saved == HeadOf(acts[..k]))
    && forall k :: 0 <= k < |acts| && acts[k].frame.Record? ==> RecordHolds(mem, acts[k].frame, acts[k].saved)
  }

  ghost predicate RecordHolds(mem: seq<Word>, f: Frame, prev: nat)
    requires f.Record? && f.base + 2 + f.count <= |mem|
  {
    && mem[f.base] == prev
    && mem[f.base + 1] == f.count
    && forall i :: f.base + 2 <= i < f.base + 2 + f.count ==> IsValue(mem[i])
  }

  /** Every slot of a record can be parsed by the collector. */
  ghost predicate SlotsAreValues(mem: seq<Word>, f: Frame) {
    && f.Record? && f.base + 2 + f.count <= |mem|
    && forall i :: f.base + 2 <= i < f.base + 2 + f.count ==> IsValue(mem[i])
  }

  /** A write outside every live record disturbs none; a value written to a slot keeps its record. */
  lemma WriteKeepsRecords(mem: seq<Word>, acts: seq<Activation>, i: nat, w: Word)
    requires RecordsHold(mem, acts) && i < |mem|
    requires forall k :: 0 <= k < |acts| && acts[k].frame.Record? ==>
               !(acts[k].frame.base <= i < acts[k].frame.base + 2 + acts[k].frame.count)
               || (acts[k].frame.base + 2 <= i && IsValue(w))
    ensures RecordsHold(mem[i := w], acts)
  {
  }

  lemma DropKeepsRecords(mem: seq<Word>, acts: seq<Activation>, n: nat)
    requires RecordsHold(mem, acts) && n <= |acts|
    ensures RecordsHold(mem, acts[..n])
  {
    forall k | 0 <= k < n ensures acts[k].saved == HeadOf(acts[..n][..k]) {
      assert acts[..n][..k] == acts[..k];
    }
  }

  lemma HeadAfterPush(acts: seq<Activation>, a: Activation)
    ensures HeadOf(acts + [a]) == if a.frame.Record? then Addr(a.frame.base) else HeadOf(acts)
    ensures Records(acts + [a]) == (if a.frame.Record? then [a.frame] else []) + Records(acts)
  {
    assert (acts + [a])[..|acts|] == acts;
  }

  lemma {:induction false} PushKeepsRecords(mem: seq<Word>, acts: seq<Activation>, a: Activation)
    requires RecordsHold(mem, acts) && Fits(acts, a.low, a.high, a.frame, |mem|)
    requires a.saved == HeadOf(acts) && (a.frame.Record? ==> RecordHolds(mem, a.frame, a.saved))
    ensures RecordsHold(mem, acts + [a])
  {
    hide HeadOf, RecordHolds, Fits;
    StackedPush(acts, a, |mem|);
    forall k | 0 <= k < |acts| + 1 ensures (acts + [a])[k].saved == HeadOf((acts + [a])[..k]) {
      if k < |acts| {
        assert (acts + [a])[..k] == acts[..k];
      } else {
        assert (acts + [a])[..k] == acts;
      }
    }
  }

  /** Words below a stack position that keep their values keep the records below it. */
  lemma OutsideKeepsRecords(mem: seq<Word>, mem': seq<Word>, acts: seq<Activation>, low: nat)
    requires RecordsHold(mem, acts) && |mem'| == |mem|
    requires acts == [] || acts[|acts| - 1].high <= low
    requires forall i :: 0 <= i < |mem| && i < low ==> mem'[i] == mem[i]
    ensures RecordsHold(mem', acts)
  {
    forall k | 0 <= k < |acts| ensures acts[k].high <= low {
      if k < |acts| - 1 { assert acts[k].high <= acts[|acts| - 1].low; }
    }
  }

  /** What a call makes of the chain, once its prologue has run. */
  lemma Pushed(mem: seq<Word>, mem': seq<Word>, acts: seq<Activation>, a: Activation)
    requires RecordsHold(mem, acts) && |mem'| == |mem| && Fits(acts, a.low, a.high, a.frame, |mem|)
    requires mem'[..a.low] == mem[..a.low]
    requires a.saved == HeadOf(acts) && (a.frame.Record? ==> RecordHolds(mem', a.frame, a.saved))
    ensures RecordsHold(mem', acts + [a])
    ensures HeadOf(acts + [a]) == HeadAbove(a.frame, HeadOf(acts))
    ensures Records(acts + [a]) == (if a.frame.Record? then [a.frame] else []) + Records(acts)
    ensures Roots(mem', acts + [a]) == Roots(mem, acts) + [SlotsOf(mem', a.frame)]
  {
    hide RecordHolds, HeadOf, Records, Roots, SlotsOf;
    assert forall i :: 0 <= i < a.low ==> mem'[i] == mem'[..a.low][i] && mem[i] == mem[..a.low][i];
    RootsPush(mem, mem', acts, a);
    hide RecordsHold;
    OutsideKeepsRecords(mem, mem', acts, a.low);
    PushKeepsRecords(mem', acts, a);
    HeadAfterPush(acts, a);
  }

  lemma HeadInMemory(mem: seq<Word>, acts: seq<Activation>)
    requires RecordsHold(mem, acts)
    ensures HeadOf(acts) <= 8 * |mem|
  {
    HeadBounds(acts, |mem|);
  }

  // ---- what the slots hold

  /** The slots of an activation's record; none without one. */
  function SlotsOf(mem: seq<Word>, f: Frame): seq<Word> {
    if f.Record? && f.base + 2 + f.count <= |mem| then mem[f.base + 2..f.base + 2 + f.count] else []
  }

  /** The slots of a record as it is linked. */
  function LinkedSlots(f: Frame): seq<Word> {
    if f.Record? then seq(f.count, _ => UNDEFINED) else []
  }

  /** The slots of all live activations, outermost first. */
  function Roots(mem: seq<Word>, acts: seq<Activation>): seq<seq<Word>> {
    seq(|acts|, k requires 0 <= k < |acts| => SlotsOf(mem, acts[k].frame))
  }

  /** Slot s of the topmost activation holds w, when it has such a slot. */
  function TopAssigned(roots: seq<seq<Word>>, s: nat, w: Word): seq<seq<Word>> {
    var n := |roots| - 1;
    if 0 <= n && s < |roots[n]| then
      var slots: seq<Word> := roots[n][s := w];
      roots[n := slots]
    else roots
  }

  /** Entering an activation whose words were unused changes no other's slots. */
  lemma RootsPush(mem: seq<Word>, mem': seq<Word>, acts: seq<Activation>, a: Activation)
    requires Stacked(acts, |mem|) && |mem'| == |mem| && (acts == [] || acts[|acts| - 1].high <= a.low)
    requires forall i :: 0 <= i < |mem| && i < a.low ==> mem'[i] == mem[i]
    ensures Roots(mem', acts + [a]) == Roots(mem, acts) + [SlotsOf(mem', a.frame)]
  {
    forall k | 0 <= k < |acts| ensures SlotsOf(mem', acts[k].frame) == SlotsOf(mem, acts[k].frame) {
      if k < |acts| - 1 { assert acts[k].high <= acts[|acts| - 1].low; }
      SlotsBelow(mem, mem', acts[k].frame, a.low);
    }
    hide SlotsOf, Stacked;
  }

  lemma SlotsBelow(mem: seq<Word>, mem': seq<Word>, f: Frame, low: nat)
    requires |mem'| == |mem| && (f.Record? ==> f.base + 2 + f.count <= low)
    requires forall i :: 0 <= i < |mem| && i < low ==> mem'[i] == mem[i]
    ensures SlotsOf(mem', f) == SlotsOf(mem, f)
  {
  }

  /** A write to the running function's part of the stack changes its slot there, if it is one, and no other's. */
  lemma RootsWrite(mem: seq<Word>, acts: seq<Activation>, at: nat, w: Word)
    requires Stacked(acts, |mem|) && acts != [] && acts[|acts| - 1].low <= at < acts[|acts| - 1].high
    ensures var n, f := |acts| - 1, acts[|acts| - 1].frame;
      Roots(mem[at := w], acts) ==
        if f.Record? && f.base + 2 <= at < f.base + 2 + f.count
        then TopAssigned(Roots(mem, acts), at - (f.base + 2), w)
        else Roots(mem, acts)
    ensures var f := acts[|acts| - 1].frame;
      f.Record? && f.base + 2 <= at < f.base + 2 + f.count ==> |Roots(mem, acts)[|acts| - 1]| == f.count
  {
    hide SlotsOf;
    var n, f := |acts| - 1, acts[|acts| - 1].frame;
    var roots, after := Roots(mem, acts), Roots(mem[at := w], acts);
    OthersKeepSlots(mem, acts, at, w);
    SlotWritten(mem, f, at, w);
    hide Stacked, Roots;
    if f.Record? && f.base + 2 <= at < f.base + 2 + f.count {
      assert after == roots[n := after[n]];
    } else {
      assert after == roots;
    }
  }

  lemma OthersKeepSlots(mem: seq<Word>, acts: seq<Activation>, at: nat, w: Word)
    requires Stacked(acts, |mem|) && acts != [] && acts[|acts| - 1].low <= at < |mem|
    ensures forall k :: 0 <= k < |acts| - 1 ==> SlotsOf(mem[at := w], acts[k].frame) == SlotsOf(mem, acts[k].frame)
  {
    var top := acts[|acts| - 1];
    forall k | 0 <= k < |acts| - 1 ensures SlotsOf(mem[at := w], acts[k].frame) == SlotsOf(mem, acts[k].frame) {
      assert acts[k].high <= top.low;
      SlotsBelow(mem, mem[at := w], acts[k].frame, top.low);
    }
  }

  lemma TopIsStacked(acts: seq<Activation>, size: nat)
    requires Stacked(acts, size) && acts != []
    ensures var a := acts[|acts| - 1];
      a.high <= size
      && (a.frame.Record? ==> a.low <= a.frame.base && a.frame.base + 2 + a.frame.count <= a.high)
  {
  }

  lemma SlotWritten(mem: seq<Word>, f: Frame, at: nat, w: Word)
    requires at < |mem| && (f.Record? ==> f.base + 2 + f.count <= |mem|)
    ensures f.Record? && f.base + 2 <= at < f.base + 2 + f.count ==>
      |SlotsOf(mem, f)| == f.count && SlotsOf(mem[at := w], f) == SlotsOf(mem, f)[at - (f.base + 2) := w]
    ensures !(f.Record? && f.base + 2 <= at < f.base + 2 + f.count) ==> SlotsOf(mem[at := w], f) == SlotsOf(mem, f)
  {
    if f.Record? {
      var lo, hi := f.base + 2, f.base + 2 + f.count;
      if lo <= at < hi {
        assert mem[at := w][lo..hi] == mem[lo..hi][at - lo := w];
      } else {
        assert mem[at := w][lo..hi] == mem[lo..hi];
      }
    }
  }

  /** What an event makes of the slots: undefined when linked, then what is stored in them. */
  function RootsAfter(roots: seq<seq<Word>>, e: Event): seq<seq<Word>> {
    match e
    case Enter(_, _, frame) => roots + [LinkedSlots(frame)]
    case Leave => if roots == [] then [] else roots[..|roots| - 1]
    case Unwind(k) => if k < |roots| then roots[..k + 1] else roots
    case UnwindToC(k) => if k < |roots| then roots[..k + 1] else roots
    case SetSlot(s, w) => TopAssigned(roots, s, w)
    case SetWord(_, _) => roots
  }

  /** The slots of the activation entered or stored into, written out. */
  lemma RootsAfterSlots(roots: seq<seq<Word>>, e: Event)
    ensures e.Enter? && e.frame.NoRecord? ==> RootsAfter(roots, e) == roots + [[]]
    ensures e.Enter? && e.frame.Record? ==> RootsAfter(roots, e) == roots + [seq(e.frame.count, _ => UNDEFINED)]
    ensures e.SetSlot? && roots != [] ==>
      var top := roots[|roots| - 1];
      e.slot < |top| ==>
        RootsAfter(roots, e) == roots[..|roots| - 1] + [top[..e.slot] + [e.value] + top[e.slot + 1..]]
  {
    if e.SetSlot? && roots != [] && e.slot < |roots[|roots| - 1]| {
      var n, top := |roots| - 1, roots[|roots| - 1];
      var slots: seq<Word> := top[e.slot := e.value];
      assert slots == top[..e.slot] + [e.value] + top[e.slot + 1..];
      assert roots[n := slots] == roots[..n] + [slots];
    }
  }

  function RootsReplay(roots: seq<seq<Word>>, events: seq<Event>): seq<seq<Word>>
    decreases |events|
  {
    if events == [] then roots else RootsReplay(RootsAfter(roots, events[0]), events[1..])
  }

  // ---- runs

  datatype Event =
    | Enter(low: nat, high: nat, frame: Frame)
    | Leave
    | Unwind(catcher: nat)
    | UnwindToC(catcher: nat)
    | SetSlot(slot: nat, value: Word)
    | SetWord(at: nat, word: Word)

  /** A callee's part of the stack lies above everything in use and contains its record. */
  predicate Fits(acts: seq<Activation>, low: nat, high: nat, frame: Frame, size: nat) {
    && 1 <= low <= high <= size
    && (acts == [] || acts[|acts| - 1].high <= low)
    && (frame.Record? ==> low <= frame.base && frame.base + 2 + frame.count <= high)
  }

  /** Activation k can catch: it owns a record, or no activation above it does. */
  predicate Catches(acts: seq<Activation>, k: nat)
    requires k < |acts|
  {
    acts[k].frame.Record? || forall j :: k < j < |acts| ==> acts[j].frame.NoRecord?
  }

  /** A word of the activation that is not part of its record. */
  predicate Outside(a: Activation, at: nat) {
    a.low <= at < a.high && (a.frame.Record? ==> !(a.frame.base <= at < a.frame.base + 2 + a.frame.count))
  }

  predicate CanHappen(acts: seq<Activation>, e: Event, size: nat) {
    match e
    case Enter(low, high, frame) => Fits(acts, low, high, frame, size)
    case Leave => acts != []
    case Unwind(k) => k < |acts| && Catches(acts, k)
    case UnwindToC(k) => k < |acts| && acts[k].frame.NoRecord?
    case SetSlot(s, w) =>
      acts != [] && acts[|acts| - 1].frame.Record? && s < acts[|acts| - 1].frame.count && IsValue(w)
    case SetWord(at, _) => acts != [] && Outside(acts[|acts| - 1], at)
  }

  function After(acts: seq<Activation>, e: Event): seq<Activation> {
    match e
    case Enter(low, high, frame) => acts + [Activation(low, high, frame, HeadOf(acts))]
    case Leave => if acts == [] then [] else acts[..|acts| - 1]
    case Unwind(k) => if k < |acts| then acts[..k + 1] else acts
    case UnwindToC(k) => if k < |acts| then acts[..k + 1] else acts
    case SetSlot(_, _) => acts
    case SetWord(_, _) => acts
  }

  predicate Possible(acts: seq<Activation>, events: seq<Event>, size: nat)
    decreases |events|
  {
    events == [] || (CanHappen(acts, events[0], size) && Possible(After(acts, events[0]), events[1..], size))
  }

  /** The activations live after a run of events. */
  function Replay(acts: seq<Activation>, events: seq<Event>): seq<Activation>
    decreases |events|
  {
    if events == [] then acts else Replay(After(acts, events[0]), events[1..])
  }

  lemma StackedPush(acts: seq<Activation>, a: Activation, size: nat)
    requires Stacked(acts, size) && Fits(acts, a.low, a.high, a.frame, size)
    ensures Stacked(acts + [a], size)
  {
    forall k | 0 <= k < |acts| ensures acts[k].high <= a.low {
      if k < |acts| - 1 { assert acts[k].high <= acts[|acts| - 1].low; }
    }
  }

  /** A non-empty chain starts at the topmost activation with a record. */
  lemma {:induction false} TopRecord(acts: seq<Activation>) returns (m: nat)
    requires HeadOf(acts) != 0
    ensures m < |acts| && acts[m].frame.Record? && HeadOf(acts) == Addr(acts[m].frame.base)
    ensures Records(acts) == [acts[m].frame] + Records(acts[..m])
    decreases |acts|
  {
    m := |acts| - 1;
    if acts[m].frame.NoRecord? {
      var n := m;
      m := TopRecord(acts[..n]);
      assert acts[..n][..m] == acts[..m];
    }
  }

  /** What one step along prev finds in memory. */
  lemma WalkStep(mem: seq<Word>, acts: seq<Activation>, n: nat) returns (m: nat)
    requires RecordsHold(mem, acts) && n <= |acts| && HeadOf(acts[..n]) != 0
    ensures m < n && acts[m].frame.Record? && acts[m].frame.base + 1 < |mem|
    ensures HeadOf(acts[..n]) == Addr(acts[m].frame.base) && HeadOf(acts[..m]) == mem[acts[m].frame.base]
    ensures acts[m].frame == Record(acts[m].frame.base, mem[acts[m].frame.base + 1])
    ensures SlotsAreValues(mem, acts[m].frame)
    ensures Records(acts[..n]) == [acts[m].frame] + Records(acts[..m])
  {
    hide HeadOf, Records;
    m := TopRecord(acts[..n]);
    assert acts[..n][..m] == acts[..m];
    assert RecordHolds(mem, acts[m].frame, acts[m].saved);
  }

  lemma {:induction false} HeadlessHasNoRecords(mem: seq<Word>, acts: seq<Activation>, n: nat)
    requires RecordsHold(mem, acts) && n <= |acts| && HeadOf(acts[..n]) == 0
    ensures Records(acts[..n]) == []
    decreases n
  {
    if n != 0 {
      assert acts[..n][..n - 1] == acts[..n - 1];
      HeadlessHasNoRecords(mem, acts, n - 1);
    }
  }

  // ---- the emitted code

  class Machine {
    const mem: array<Word>  // the stack, word i at byte address 8 * i
    var head: nat           // word 17 of the exported heap context
    var acts: seq<Activation> // the live activations, outermost first

    /** The chain below the head is intact, whatever the head is. */
    ghost predicate Intact()
      reads this, mem
    {
      8 * mem.Length < WORD && RecordsHold(mem[..], acts)
    }

    ghost predicate Valid()
      reads this, mem
    {
      Intact() && head == HeadOf(acts)
    }

    /** An empty stack of n words of garbage. */
    constructor (n: nat)
      requires 8 * n < WORD
      ensures Valid() && acts == [] && mem.Length == n && fresh(mem)
    {
      mem := new Word[n];
      head := 0;
      acts := [];
      new;
      HeadOfNothing();
    }

    /** emitGCFrameLink: fills in the record and makes it the head. */
    method Link(base: nat, nslots: nat)
      requires base + 2 + nslots <= mem.Length && 8 * mem.Length < WORD && head < WORD
      modifies this`head, mem
      ensures head == Addr(base)
      ensures forall i :: 0 <= i < mem.Length && !(base <= i < base + 2 + nslots) ==> mem[i] == old(mem[i])
      ensures RecordHolds(mem[..], Record(base, nslots), old(head))
      ensures forall i :: base + 2 <= i < base + 2 + nslots ==> mem[i] == UNDEFINED
    {
      mem[base] := head;
      mem[base + 1] := nslots;
      var i := 0;
      while i < nslots
        invariant 0 <= i <= nslots
        invariant head == old(head) == mem[base] && mem[base + 1] == nslots
        invariant forall j :: base + 2 <= j < base + 2 + i ==> mem[j] == UNDEFINED
        invariant forall j :: 0 <= j < mem.Length && !(base <= j < base + 2 + nslots) ==> mem[j] == old(mem[j])
      {
        mem[base + 2 + i] := UNDEFINED;
        i := i + 1;
      }
      head := Addr(base);
    }

    /** emitGCFrameUnlink */
    method Unlink(base: nat)
      requires base < mem.Length
      modifies this`head
      ensures head == mem[base]
    {
      head := mem[base];
    }

    /** emitGCFrameRelink */
    method Relink(base: nat)
      modifies this`head
      ensures head == Addr(base)
    {
      head := Addr(base);
    }

    /** The start of an emitted function: a record is linked if it has one. */
    method Prologue(low: nat, high: nat, frame: Frame)
      requires low <= high <= mem.Length && 8 * mem.Length < WORD && head < WORD
      requires frame.Record? ==> low <= frame.base && frame.base + 2 + frame.count <= high
      modifies this`head, mem
      ensures head == HeadAbove(frame, old(head))
      ensures mem[..low] == old(mem[..low])
      ensures frame.Record? ==> RecordHolds(mem[..], frame, old(head))
      ensures SlotsOf(mem[..], frame) == LinkedSlots(frame)
    {
      if frame.Record? { Link(frame.base, frame.count); }
    }

    /** A call: the callee takes stack words from low to high - 1 and links its record, if it has one. */
    method Call(low: nat, high: nat, frame: Frame)
      requires Valid() && Fits(acts, low, high, frame, mem.Length)
      modifies this, mem
      ensures Valid() && acts == old(acts) + [Activation(low, high, frame, old(head))]
      ensures Records(acts) == (if frame.Record? then [frame] else []) + old(Records(acts))
      ensures mem[..low] == old(mem[..low])
      ensures Roots(mem[..], acts) == old(Roots(mem[..], acts)) + [LinkedSlots(frame)]
    {
      HeadInMemory(mem[..], acts);
      hide RecordsHold, RecordHolds, HeadOf, Records, Roots, SlotsOf, Stacked, LinkedSlots;
      ghost var before := mem[..];
      var a := Activation(low, high, frame, head);
      Prologue(low, high, frame);
      hide Fits, HeadAbove;
      Pushed(before, mem[..], acts, a);
      acts := acts + [a];
    }

    /** A return: the record, if there is one, is unlinked. */
    method Return()
      requires Valid() && acts != []
      modifies this
      ensures Valid() && acts == old(acts)[..|old(acts)| - 1]
      ensures Roots(mem[..], acts) == old(Roots(mem[..], acts))[..|old(acts)| - 1]
    {
      var n := |acts| - 1;
      if acts[n].frame.Record? { Unlink(acts[n].frame.base); }
      hide SlotsOf;
      DropKeepsRecords(mem[..], acts, n);
      acts := acts[..n];
    }

    /** A throw caught by activation k: everything above it is discarded and its handler relinks its
        own record, if it has one. The head is then right exactly when it has one, or none was lost. */
    method Throw(k: nat)
      requires Valid() && k < |acts|
      modifies this
      ensures Intact() && acts == old(acts)[..k + 1]
      ensures Valid() <==> old(Catches(acts, k))
      ensures Roots(mem[..], acts) == old(Roots(mem[..], acts))[..k + 1]
    {
      hide SlotsOf;
      DropKeepsRecords(mem[..], acts, k + 1);
      HeadAfterDrop(acts, mem.Length, k + 1);
      assert acts[..k + 1][..k] == acts[..k];
      if acts[k].frame.Record? { Relink(acts[k].frame.base); }
      acts := acts[..k + 1];
    }

    /** A throw caught by runtime code: it has no record, and puts back the head it saved. */
    method ThrowToC(k: nat)
      requires Valid() && k < |acts| && acts[k].frame.NoRecord?
      modifies this
      ensures Valid() && acts == old(acts)[..k + 1]
      ensures Roots(mem[..], acts) == old(Roots(mem[..], acts))[..k + 1]
    {
      hide SlotsOf;
      DropKeepsRecords(mem[..], acts, k + 1);
      assert acts[..k + 1][..k] == acts[..k];
      head := acts[k].saved;
      acts := acts[..k + 1];
    }

    /** gcFrameSlotPtr and a store through it, by the running function. */
    method StoreSlot(i: nat, w: Word)
      requires Valid() && acts != []
      requires acts[|acts| - 1].frame.Record? && i < acts[|acts| - 1].frame.count && IsValue(w)
      modifies mem
      ensures Valid() && mem[acts[|acts| - 1].frame.base + 2 + i] == w
      ensures forall j :: 0 <= j < mem.Length && j != acts[|acts| - 1].frame.base + 2 + i ==> mem[j] == old(mem[j])
      ensures Roots(mem[..], acts) == TopAssigned(old(Roots(mem[..], acts)), i, w)
      ensures i < |Roots(mem[..], acts)[|acts| - 1]| && Roots(mem[..], acts)[|acts| - 1][i] == w
    {
      hide HeadOf, SlotsOf;
      var top := acts[|acts| - 1];
      var at := top.frame.base + 2 + i;
      TopIsStacked(acts, mem.Length);
      WriteKeepsRecords(mem[..], acts, at, w);
      hide Stacked;
      RootsWrite(mem[..], acts, at, w);
      ghost var before := mem[..];
      mem[at] := w;
      assert mem[..] == before[at := w];
    }

    /** Any other store of the running function into its own part of the stack. */
    method Spill(at: nat, w: Word)
      requires Valid() && acts != [] && Outside(acts[|acts| - 1], at)
      modifies mem
      ensures Valid() && mem[at] == w
      ensures forall j :: 0 <= j < mem.Length && j != at ==> mem[j] == old(mem[j])
      ensures Roots(mem[..], acts) == old(Roots(mem[..], acts))
    {
      hide HeadOf, SlotsOf, Roots;
      WriteKeepsRecords(mem[..], acts, at, w);
      RootsWrite(mem[..], acts, at, w);
      ghost var before := mem[..];
      mem[at] := w;
      assert mem[..] == before[at := w];
    }

    /** The collector's walk along prev meets the live records, all of them, innermost first. */
    method Walk() returns (found: seq<Frame>)
      requires Valid()
      ensures found == Records(acts)
      ensures forall k :: 0 <= k < |found| ==> SlotsAreValues(mem[..], found[k])
    {
      hide RecordsHold, HeadOf, Records, SlotsAreValues;
      found := [];
      var at := head;
      ghost var n := |acts|;
      assert acts[..n] == acts;
      while at != 0
        invariant n <= |acts| && at == HeadOf(acts[..n])
        invariant Records(acts) == found + Records(acts[..n])
        invariant forall k :: 0 <= k < |found| ==> SlotsAreValues(mem[..], found[k])
        decreases n
      {
        ghost var m := WalkStep(mem[..], acts, n);
        var f := Record(at / 8, mem[at / 8 + 1]);
        assert found + ([f] + Records(acts[..m])) == found + [f] + Records(acts[..m]);
        found := found + [f];
        at := mem[f.base];
        n := m;
      }
      HeadlessHasNoRecords(mem[..], acts, n);
      assert found + [] == found;
    }

    /** One event of a run. */
    method Do(e: Event)
      requires Valid() && CanHappen(acts, e, mem.Length)
      modifies this, mem
      ensures Valid() && acts == After(old(acts), e)
      ensures Roots(mem[..], acts) == RootsAfter(old(Roots(mem[..], acts)), e)
      ensures e.SetSlot? ==> mem[acts[|acts| - 1].frame.base + 2 + e.slot] == e.value
      ensures e.SetWord? ==> mem[e.at] == e.word
    {
      hide RecordsHold, Stacked, HeadOf, Records, SlotsOf;
      match e
      case Enter(low, high, frame) => Call(low, high, frame);
      case Leave => Return();
      case Unwind(k) => Throw(k);
      case UnwindToC(k) => ThrowToC(k);
      case SetSlot(s, w) => StoreSlot(s, w);
      case SetWord(at, w) => Spill(at, w);
    }

    /** After any run in which every catcher owns a record, or loses none, the chain is that of the live ones. */
    method Run(events: seq<Event>)
      requires Valid() && Possible(acts, events, mem.Length)
      modifies this, mem
      ensures Valid() && acts == Replay(old(acts), events)
      ensures Roots(mem[..], acts) == RootsReplay(old(Roots(mem[..], acts)), events)
    {
      hide RecordsHold, Stacked, HeadOf, Records, CanHappen, After, SlotsOf, RootsAfter;
      var i := 0;
      assert events[0..] == events;
      while i < |events|
        invariant 0 <= i <= |events|
        invariant Valid() && Possible(acts, events[i..], mem.Length)
        invariant Replay(acts, events[i..]) == Replay(old(acts), events)
        invariant RootsReplay(Roots(mem[..], acts), events[i..]) == RootsReplay(old(Roots(mem[..], acts)), events)
      {
        assert events[i..][1..] == events[i + 1..];
        Do(events[i]);
        i := i + 1;
      }
    }
  }

  /** A run from the empty chain, on a stack of its own. */
  method RunFromEmpty(size: nat, events: seq<Event>) returns (m: Machine)
    requires 8 * size < WORD && Possible([], events, size)
    ensures m.Valid() && fresh(m) && fresh(m.mem) && m.acts == Replay([], events)
    ensures Roots(m.mem[..], m.acts) == RootsReplay([], events)
  {
    m := new Machine(size);
    m.Run(events);
  }

  /** A reachable throw that loses the head: a catcher without a record, under a callee that has one. */
  method LosingThrow() returns (m: Machine)
    ensures m.Intact() && !m.Valid()
    ensures m.head != 0 && HeadOf(m.acts) == 0
  {
    hide RecordsHold;
    m := new Machine(16);
    m.Call(1, 2, NoRecord);
    m.Call(2, 8, Record(2, 1));
    assert m.head == Addr(2);
    m.Throw(0);
    assert m.acts == [Activation(1, 2, NoRecord, 0)];
    assert m.acts[..0] == [];
  }
}
