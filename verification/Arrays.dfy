/** Array objects over dense and sparse element storage: runtime/ejs-array.c. */
module Arrays {
  import opened Elements
  import opened Arraylets

  const SPARSE_CUTOFF := 50000  // SPARSE_ARRAY_CUTOFF

  /** The largest key for which the runtime's int arithmetic on it (key + 32) stays in range. */
  const MAX_KEY := 0x7FFF_FFFF - 32

  /** One malloc'd run of SIZE slots and the index of the first of them. */
  datatype Arraylet = Arraylet(start: nat, elements: array<Slot>)

  /** A list of arraylets with their present contents. */
  ghost function ChunksOf(arraylets: seq<Arraylet>): (cs: seq<Chunk>)
    reads set a <- arraylets :: a.elements
    ensures |cs| == |arraylets|
  {
    seq(|arraylets|, k requires 0 <= k < |arraylets| reads set a <- arraylets :: a.elements
        => Chunk(arraylets[k].start, arraylets[k].elements[..]))
  }

  class EJSArray {
    const sparse: bool
    var length: nat
    var elements: array<Slot>     // dense storage; slots at and past the length are stale or uninitialised
    var arraylets: seq<Arraylet>  // sparse storage

    ghost function Storage(): set<object>
      reads this`arraylets, this`elements
    {
      if sparse then set a <- arraylets :: a.elements else {elements}
    }

    ghost function Chunks(): seq<Chunk>
      reads this`arraylets, set a <- arraylets :: a.elements
    {
      ChunksOf(arraylets)
    }

    /** The arraylet list is in order and no two arraylets share a buffer. */
    ghost predicate ChunksValid()
      reads this`arraylets, set a <- arraylets :: a.elements
    {
      && Ordered(Chunks())
      && (forall j, k :: 0 <= j < k < |arraylets| ==> arraylets[j].elements != arraylets[k].elements)
    }

    ghost predicate Valid()
      reads this, Storage()
    {
      && length <= MAX_KEY + 1
      && if sparse then ChunksValid() && NothingPast(Chunks(), length) else length <= elements.Length
    }

    ghost function View(): (s: View)
      requires Valid()
      reads this, Storage()
      ensures |s| == length
    {
      if sparse then ViewOf(Chunks(), length) else elements[..length]
    }

    /** _ejs_array_new: sparse past the cutoff; a dense array's first slots are holes, its slack is not initialised. */
    constructor (n: nat)
      requires n <= MAX_KEY
      ensures Valid() && View() == Holes(n) && fresh(Storage())
      ensures sparse <==> SPARSE_CUTOFF < n
    {
      sparse := SPARSE_CUTOFF < n;
      elements := new Slot[if SPARSE_CUTOFF < n then 0 else n + 5];
      arraylets := [];
      length := n;
      new;
      if !sparse {
        var i := 0;
        while i < n
          invariant 0 <= i <= n
          invariant forall j :: 0 <= j < i ==> elements[j] == Hole
          modifies elements
        {
          elements[i] := Hole;
          i := i + 1;
        }
      } else {
        assert Chunks() == [];
      }
    }

    // ---- dense storage

    /** maybe_realloc_dense: grows the buffer to hold index high; only the live elements are copied. */
    method MaybeRealloc(high: nat)
      requires !sparse && Valid() && high <= MAX_KEY
      modifies this
      ensures Valid() && View() == old(View()) && length == old(length)
      ensures high < elements.Length && old(elements.Length) <= elements.Length
      ensures elements == old(elements) || fresh(elements)
    {
      if elements.Length <= high {
        var bigger := new Slot[high + 32];
        forall i | 0 <= i < length { bigger[i] := elements[i]; }
        elements := bigger;
      }
    }

    /** Holes from the length up to n, over whatever the slack held. */
    method FillHoles(n: nat)
      requires !sparse && Valid() && n <= elements.Length
      modifies elements
      ensures elements[..length] == old(elements[..length])
      ensures forall j :: length <= j < n ==> elements[j] == Hole
      ensures forall j :: 0 <= j < elements.Length && n <= j && length <= j ==> elements[j] == old(elements[j])
    {
      var i := length;
      while i < n
        invariant length <= i && (i <= n || i == length)
        invariant elements[..length] == old(elements[..length])
        invariant forall j :: length <= j < i ==> elements[j] == Hole
        invariant forall j :: 0 <= j < elements.Length && i <= j ==> elements[j] == old(elements[j])
      {
        elements[i] := Hole;
        i := i + 1;
      }
    }

    // ---- sparse storage

    /** sparse_element_addr without create: the arraylet covering idx, or -1. */
    method Find(idx: nat) returns (lo: nat, found: bool)
      requires sparse && Valid()
      ensures InsertionPoint(Chunks(), idx - idx % SIZE, lo)
      ensures found ==>
        lo < |arraylets| && arraylets[lo].start == idx - idx % SIZE && arraylets[lo].elements.Length == SIZE
      ensures found ==> Lookup(Chunks(), idx) == arraylets[lo].elements[idx % SIZE]
      ensures !found ==> (lo < |arraylets| ==> arraylets[lo].start != idx - idx % SIZE) && Lookup(Chunks(), idx) == Hole
    {
      var chunkStart := idx - idx % SIZE;
      ghost var cs := Chunks();
      lo := 0;
      var hi := |arraylets|;
      while lo < hi
        invariant 0 <= lo <= hi <= |arraylets|
        invariant forall k :: 0 <= k < lo ==> cs[k].start < chunkStart
        invariant forall k :: hi <= k < |arraylets| ==> chunkStart <= cs[k].start
      {
        var mid := (lo + hi) / 2;
        assert cs[mid].start == arraylets[mid].start;
        if arraylets[mid].start < chunkStart { lo := mid + 1; } else { hi := mid; }
      }
      found := lo < |arraylets| && arraylets[lo].start == chunkStart;
      LookupAfterSearch(cs, idx, lo);
    }

    /** sparse_element_addr with create: makes an all-hole arraylet when none covers idx. */
    method FindOrCreate(idx: nat) returns (lo: nat)
      requires sparse && Valid()
      modifies this`arraylets
      ensures ChunksValid() && lo < |arraylets|
      ensures arraylets[lo].start == idx - idx % SIZE && arraylets[lo].elements.Length == SIZE
      ensures forall i: nat :: Lookup(Chunks(), i) == Lookup(old(Chunks()), i)
      ensures fresh(Storage() - old(Storage()))
    {
      var found;
      lo, found := Find(idx);
      if !found { Insert(lo, idx - idx % SIZE); }
    }

    method Insert(lo: nat, start: nat)
      requires sparse && ChunksValid() && start % SIZE == 0 && InsertionPoint(Chunks(), start, lo)
      requires lo < |arraylets| ==> arraylets[lo].start != start
      modifies this`arraylets
      ensures ChunksValid() && lo < |arraylets|
      ensures arraylets[lo].start == start && arraylets[lo].elements.Length == SIZE
      ensures forall i: nat :: Lookup(Chunks(), i) == Lookup(old(Chunks()), i)
      ensures fresh(Storage() - old(Storage()))
    {
      hide Lookup, Ordered;
      var block := new Slot[SIZE](_ => Hole);
      ghost var cs := Chunks();
      arraylets := arraylets[..lo] + [Arraylet(start, block)] + arraylets[lo..];
      assert block[..] == Holes(SIZE);
      assert Chunks() == InsertAt(cs, lo, Chunk(start, Holes(SIZE)));
      InsertKeepsMap(cs, start, lo);
    }

    /** A store through the slot address of idx, which FindOrCreate or Find returned. */
    method Poke(lo: nat, idx: nat, slot: Slot)
      requires sparse && ChunksValid() && lo < |arraylets| && arraylets[lo].start == idx - idx % SIZE
      requires arraylets[lo].elements.Length == SIZE
      modifies arraylets[lo].elements
      ensures ChunksValid()
      ensures forall i: nat :: Lookup(Chunks(), i) == if i == idx then slot else Lookup(old(Chunks()), i)
    {
      ghost var cs := Chunks();
      ghost var off := idx % SIZE;
      arraylets[lo].elements[idx - arraylets[lo].start] := slot;
      assert Chunks() == cs[lo := Chunk(cs[lo].start, cs[lo].slots[off := slot])];
      forall i: nat ensures Ordered(Chunks()) && Lookup(Chunks(), i) == if i == idx then slot else Lookup(cs, i) {
        WriteSlot(cs, lo, off, slot, i);
      }
    }

    method SparseStore(idx: nat, val: JSValue)
      requires sparse && Valid()
      modifies this`arraylets, Storage()
      ensures ChunksValid() && fresh(Storage() - old(Storage()))
      ensures forall i: nat :: Lookup(Chunks(), i) == if i == idx then Val(val) else Lookup(old(Chunks()), i)
    {
      var lo := FindOrCreate(idx);
      Poke(lo, idx, Val(val));
    }

    /** sparse_truncate: drops element storage at and above n. */
    method Truncate(n: nat)
      requires sparse && Valid()
      modifies this`arraylets, Storage()
      ensures ChunksValid() && Storage() <= old(Storage())
      ensures forall i: nat :: Lookup(Chunks(), i) == if i < n then Lookup(old(Chunks()), i) else Hole
    {
      DropArraylets(n);
      if arraylets != [] { ClearLast(n); }
    }

    /** The arraylets that start at or above n. */
    method DropArraylets(n: nat)
      requires sparse && ChunksValid()
      modifies this`arraylets
      ensures ChunksValid() && arraylets <= old(arraylets)
      ensures arraylets == [] || arraylets[|arraylets| - 1].start < n
      ensures forall i: nat :: i < n ==> Lookup(Chunks(), i) == Lookup(old(Chunks()), i)
    {
      ghost var cs := Chunks();
      while arraylets != [] && n <= arraylets[|arraylets| - 1].start
        invariant arraylets <= old(arraylets)
        invariant ChunksValid()
        invariant forall i: nat :: i < n ==> Lookup(Chunks(), i) == Lookup(cs, i)
        decreases |arraylets|
      {
        ghost var before := Chunks();
        arraylets := arraylets[..|arraylets| - 1];
        assert Chunks() == before[..|before| - 1];
      }
    }

    method ClearLast(n: nat)
      requires sparse && ChunksValid() && arraylets != [] && arraylets[|arraylets| - 1].start < n
      modifies arraylets[|arraylets| - 1].elements
      ensures ChunksValid()
      ensures forall i: nat :: Lookup(Chunks(), i) == if i < n then Lookup(old(Chunks()), i) else Hole
    {
      // sorted: only the last surviving arraylet can straddle n
      var last := arraylets[|arraylets| - 1];
      ghost var cs := Chunks();
      ghost var c := cs[|cs| - 1];
      assert c == Chunk(last.start, last.elements[..]);
      var i := n - last.start;
      while i < SIZE
        invariant n - last.start <= i
        invariant forall j :: 0 <= j < SIZE ==>
          last.elements[j] == if n - last.start <= j < i then Hole else c.slots[j]
        modifies last.elements
      {
        last.elements[i] := Hole;
        i := i + 1;
      }
      assert last.elements[..] == Cleared(c, n);
      assert Chunks() == cs[|cs| - 1 := Chunk(c.start, Cleared(c, n))];
      forall k: nat ensures Ordered(Chunks()) && Lookup(Chunks(), k) == if k < n then Lookup(cs, k) else Hole {
        ClearTail(cs, n, k);
      }
    }

    // ---- the internal methods, for integer keys

    method Get(idx: nat) returns (v: JSValue)
      requires Valid() && idx <= MAX_KEY
      ensures v == ValueAt(View(), idx)
    {
      var slot := Read(idx);
      // a hole falls through to the prototype, which has no index properties here
      v := if slot.Val? then slot.v else Undefined;
    }

    method Has(idx: nat) returns (present: bool)
      requires Valid() && idx <= MAX_KEY
      ensures present <==> At(View(), idx).Val?
    {
      var slot := Read(idx);
      present := slot.Val?;
    }

    /** The own element at an index: what Get, HasProperty and GetOwnProperty look at first. */
    method Read(idx: nat) returns (slot: Slot)
      requires Valid() && idx <= MAX_KEY
      ensures slot == At(View(), idx)
    {
      slot := Hole;
      if idx < length {
        if sparse {
          var lo, found := Find(idx);
          if found { slot := arraylets[lo].elements[idx - arraylets[lo].start]; }
        } else {
          slot := elements[idx];
        }
      }
    }

    /** The dense half of Set. */
    method DenseSet(idx: nat, val: JSValue)
      requires !sparse && Valid() && idx <= MAX_KEY
      modifies this, elements
      ensures Valid() && idx < elements.Length && length == old(length)
      ensures elements == old(elements) || fresh(elements)
      ensures forall j :: 0 <= j < elements.Length && (j < length || j <= idx) ==>
        elements[j] == At(Put(old(View()), idx, val), j)
    {
      MaybeRealloc(idx);
      FillHoles(idx);
      elements[idx] := Val(val);
    }

    /** The dense half of Define. */
    method DenseDefine(idx: nat, desc: Slot)
      requires !sparse && Valid() && idx <= MAX_KEY && desc.Val?
      modifies this, elements
      ensures Valid() && idx < elements.Length && length == old(length)
      ensures elements == old(elements) || fresh(elements)
      ensures forall j :: 0 <= j < elements.Length && (j < length || j <= idx) ==>
        elements[j] == At(Put(old(View()), idx, desc.v), j)
    {
      if elements.Length <= idx { MaybeRealloc(idx); }
      if length < idx { FillHoles(idx + 1); }
      elements[idx] := desc;
    }

    method Set(idx: nat, val: JSValue)
      requires Valid() && idx <= MAX_KEY
      modifies this, Storage()
      ensures Valid() && View() == Put(old(View()), idx, val)
      ensures fresh(Storage() - old(Storage()))
    {
      hide Lookup, Ordered;
      ghost var before := View();
      if !sparse {
        DenseSet(idx, val);
      } else {
        SparseStore(idx, val);
      }
      if length < idx + 1 { length := idx + 1; }
      assert View() == Put(before, idx, val);
    }

    method Delete(idx: nat)
      requires Valid() && idx <= MAX_KEY
      modifies Storage()
      ensures Valid() && View() == Removed(old(View()), idx)
      ensures Storage() == old(Storage())
    {
      hide Lookup, Ordered;
      ghost var before := View();
      if idx < length {
        if sparse {
          var lo, found := Find(idx);
          if found { Poke(lo, idx, Hole); }
        } else {
          elements[idx] := Hole;
        }
      }
      assert View() == Removed(before, idx);
    }

    /** [[DefineOwnProperty]] with a data descriptor; without a value it changes nothing. */
    method Define(idx: nat, desc: Slot)
      requires Valid() && idx <= MAX_KEY
      modifies this, Storage()
      ensures Valid() && View() == Step(old(View()), Op.Define(idx, desc))
      ensures fresh(Storage() - old(Storage()))
    {
      if desc.Hole? { return; }
      hide Lookup, Ordered;
      ghost var before := View();
      if !sparse {
        DenseDefine(idx, desc);
      } else {
        SparseStore(idx, desc.v);
      }
      if length < idx + 1 { length := idx + 1; }
      assert View() == Put(before, idx, desc.v);
    }

    /** What [[DefineOwnProperty]] with an accessor does to the elements; the accessor becomes a named property. */
    method DefineAccessor(idx: nat)
      requires Valid() && idx <= MAX_KEY
      modifies this, Storage()
      ensures Valid() && View() == Hollowed(old(View()), idx)
      ensures fresh(Storage() - old(Storage()))
    {
      hide Lookup, Ordered;
      ghost var before := View();
      if !sparse {
        DenseHollow(idx);
      } else {
        var lo, found := Find(idx);
        if found { Poke(lo, idx, Hole); }
      }
      if length < idx + 1 { length := idx + 1; }
      assert View() == Hollowed(before, idx);
    }

    /** The dense half of DefineAccessor. */
    method DenseHollow(idx: nat)
      requires !sparse && Valid() && idx <= MAX_KEY
      modifies this, elements
      ensures Valid() && idx < elements.Length && length == old(length)
      ensures elements == old(elements) || fresh(elements)
      ensures forall j :: 0 <= j < elements.Length && (j < length || j <= idx) ==>
        elements[j] == At(Hollowed(old(View()), idx), j)
    {
      if elements.Length <= idx { MaybeRealloc(idx); }
      FillHoles(idx);
      elements[idx] := Hole;
    }

    /** Setting "length". */
    method SetLength(n: nat)
      requires Valid() && n <= MAX_KEY
      modifies this, Storage()
      ensures Valid() && View() == Resize(old(View()), n)
      ensures fresh(Storage() - old(Storage()))
    {
      ghost var before := View();
      if !sparse {
        if elements.Length < n { MaybeRealloc(n); }
        if length < n { FillHoles(n); }
      } else if n < length {
        // growth needs no storage: holes are implicit
        Truncate(n);
      }
      length := n;
      assert View() == Resize(before, n);
    }

    // ---- listing and runs

    /** The end of the indices listed once the first i arraylets have been walked. */
    ghost function Walked(i: nat): (n: nat)
      requires Valid() && i <= |arraylets|
      reads this, Storage()
      ensures n <= length
    {
      if i == 0 then 0
      else if arraylets[i - 1].start + SIZE < length then arraylets[i - 1].start + SIZE else length
    }

    /** The indices _ejs_array_push_own_index_names pushes, as numbers. */
    method OwnIndexNames() returns (names: seq<nat>)
      requires Valid()
      ensures names == PresentBelow(View(), length)
    {
      if sparse {
        names := WalkArraylets();
      } else {
        names := [];
        var i := 0;
        while i < length
          invariant 0 <= i <= length
          invariant names == PresentBelow(View(), i)
        {
          if !elements[i].Hole? { names := names + [i]; }
          i := i + 1;
        }
      }
    }

    method WalkArraylets() returns (names: seq<nat>)
      requires sparse && Valid()
      ensures names == PresentBelow(View(), length)
    {
      names := [];
      var i := 0;
      while i < |arraylets|
        invariant 0 <= i <= |arraylets|
        invariant names == PresentBelow(View(), Walked(i))
      {
        names := WalkArraylet(i, names);
        i := i + 1;
      }
      SkipGap(i);
    }

    /** Between arraylets there is nothing to list. */
    lemma SkipGap(i: nat)
      requires sparse && Valid() && i <= |arraylets|
      ensures var next := if i < |arraylets| && arraylets[i].start < length then arraylets[i].start else length;
        Walked(i) <= next && PresentBelow(View(), next) == PresentBelow(View(), Walked(i))
    {
      var cs := Chunks();
      var next := if i < |arraylets| && arraylets[i].start < length then arraylets[i].start else length;
      if 0 < i < |arraylets| {
        assert cs[i - 1].start < cs[i].start;
        OnlyLastStraddles(cs[..i + 1], cs[i].start + 1, i - 1);
        assert cs[i - 1].start % SIZE == 0 && cs[i].start % SIZE == 0;
      }
      forall x: nat | Walked(i) <= x < next ensures View()[x] == Hole { GapIsHole(cs, i, x); }
      NothingBetween(View(), Walked(i), next);
    }

    method WalkArraylet(i: nat, before: seq<nat>) returns (names: seq<nat>)
      requires sparse && Valid() && i < |arraylets|
      requires before == PresentBelow(View(), Walked(i))
      ensures names == PresentBelow(View(), Walked(i + 1))
    {
      hide PresentBelow, Chunks, ChunksValid, Lookup, Ordered;
      SkipGap(i);
      names := before;
      var al := arraylets[i];
      var j := 0;
      while j < SIZE
        invariant 0 <= j <= SIZE && Valid() && al == arraylets[i]
        invariant names == PresentBelow(View(), if al.start + j < length then al.start + j else length)
      {
        if length <= al.start + j { break; }
        ListOne(i, j);
        if !al.elements[j].Hole? { names := names + [al.start + j]; }
        j := j + 1;
      }
    }

    lemma ListOne(i: nat, j: nat)
      requires sparse && Valid() && i < |arraylets| && j < SIZE && arraylets[i].start + j < length
      ensures arraylets[i].elements.Length == SIZE
      ensures PresentBelow(View(), arraylets[i].start + j + 1) ==
        PresentBelow(View(), arraylets[i].start + j) +
        if arraylets[i].elements[j].Hole? then [] else [arraylets[i].start + j]
    {
      var cs := Chunks();
      assert cs[i] == Chunk(arraylets[i].start, arraylets[i].elements[..]);
      LookupCovered(cs, i, arraylets[i].start + j);
    }

    method Do(op: Op) returns (answer: Answer)
      requires Valid() && InRange(op)
      modifies this, Storage()
      ensures Valid() && View() == Step(old(View()), op)
      ensures answer == Reply(old(View()), op)
      ensures fresh(Storage() - old(Storage()))
    {
      answer := Flag(true);
      match op {
        case Get(i) =>
          var v := Get(i);
          answer := Value(v);
        case Has(i) =>
          var b := Has(i);
          answer := Flag(b);
        case Set(i, v) => Set(i, v);
        case Define(i, desc) => Define(i, desc);
        case Delete(i) => Delete(i);
        case SetLength(n) => SetLength(n);
      }
    }

    /** A run of operations, whichever representation the array has. */
    method Run(ops: seq<Op>) returns (answers: seq<Answer>)
      requires Valid() && forall k :: 0 <= k < |ops| ==> InRange(ops[k])
      modifies this, Storage()
      ensures Valid() && View() == After(old(View()), ops)
      ensures answers == Replies(old(View()), ops)
      ensures fresh(Storage() - old(Storage()))
    {
      hide Valid, View, Step, Reply, After, Replies;
      ghost var start := View();
      RunNil(start, ops[..0]);
      answers := [];
      var k := 0;
      while k < |ops|
        invariant 0 <= k <= |ops|
        invariant Valid() && View() == After(start, ops[..k])
        invariant answers == Replies(start, ops[..k])
        invariant fresh(Storage() - old(Storage()))
      {
        RunSnoc(start, ops[..k], ops[k]);
        assert ops[..k + 1] == ops[..k] + [ops[k]];
        var answer := Do(ops[k]);
        answers := answers + [answer];
        k := k + 1;
      }
      assert ops[..k] == ops;
    }
  }

  /** An array of n holes, in the representation its length selects. */
  method NewArray(n: nat) returns (a: EJSArray)
    requires n <= MAX_KEY
    ensures a.Valid() && a.View() == Holes(n) && fresh(a) && fresh(a.Storage())
    ensures a.sparse <==> SPARSE_CUTOFF < n
  {
    a := new EJSArray(n);
  }

  predicate InRange(op: Op) {
    if op.SetLength? then op.n <= MAX_KEY else op.i <= MAX_KEY
  }

  /** Two arrays that start equal answer every run identically, whatever their representations. */
  method RunBoth(a: EJSArray, b: EJSArray, ops: seq<Op>) returns (fromA: seq<Answer>, fromB: seq<Answer>)
    requires a.Valid() && b.Valid() && a != b && a.Storage() !! b.Storage() && a.View() == b.View()
    requires forall k :: 0 <= k < |ops| ==> InRange(ops[k])
    modifies a, b, a.Storage(), b.Storage()
    ensures a.Valid() && b.Valid()
    ensures fromA == fromB && a.View() == b.View() && a.length == b.length
  {
    hide EJSArray.ChunksValid, EJSArray.Chunks, After, Replies, InRange;
    fromA := a.Run(ops);
    fromB := b.Run(ops);
  }

  /** In either representation: what a shrink drops stays absent over any run that does not store it again. */
  method ShrinkHides(a: EJSArray, n: nat, ops: seq<Op>, i: nat) returns (present: bool, v: JSValue)
    requires a.Valid() && n <= i <= MAX_KEY && n <= MAX_KEY
    requires forall k :: 0 <= k < |ops| ==> InRange(ops[k]) && !Stores(ops[k], i)
    modifies a, a.Storage()
    ensures a.Valid() && !present && v == Undefined
  {
    hide EJSArray.ChunksValid, EJSArray.Chunks;
    ghost var s := a.View();
    a.SetLength(n);
    var answers := a.Run(ops);
    StaleSlackStaysHidden(s, n, ops, i);
    assert ([SetLength(n)] + ops)[1..] == ops;
    present := a.Has(i);
    v := a.Get(i);
  }

  /** What the end of the search says about the index searched for. */
  lemma LookupAfterSearch(cs: seq<Chunk>, idx: nat, lo: nat)
    requires Ordered(cs) && InsertionPoint(cs, idx - idx % SIZE, lo)
    ensures Lookup(cs, idx) ==
      if lo < |cs| && cs[lo].start == idx - idx % SIZE then cs[lo].slots[idx % SIZE] else Hole
  {
    var start := idx - idx % SIZE;
    if lo < |cs| && cs[lo].start == start {
      LookupCovered(cs, lo, idx);
    } else {
      forall k | 0 <= k < |cs| ensures !Covers(cs[k], idx) {
        var a := cs[k].start / SIZE;
        assert cs[k].start == a * SIZE && start == idx / SIZE * SIZE;
      }
      LookupUncovered(cs, idx);
    }
  }
}
