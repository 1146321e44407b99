/** The sorted list of fixed-size, aligned chunks that stores a sparse array's elements, as a value. */
module Arraylets {
  import opened Elements

  const SIZE := 512  // EJS_ARRAYLET_SIZE

  datatype Chunk = Chunk(start: nat, slots: View)

  predicate Covers(c: Chunk, i: nat) { c.start <= i < c.start + SIZE }

  /** Chunk-aligned, 512 long and strictly sorted by start index. */
  ghost predicate Ordered(cs: seq<Chunk>) {
    && (forall k :: 0 <= k < |cs| ==> cs[k].start % SIZE == 0 && |cs[k].slots| == SIZE)
    && (forall j, k :: 0 <= j < k < |cs| ==> cs[j].start < cs[k].start)
  }

  /** Aligned chunks in strict order never overlap. */
  lemma NoOverlap(cs: seq<Chunk>, j: nat, k: nat, i: nat)
    requires Ordered(cs) && j < |cs| && k < |cs| && Covers(cs[j], i) && Covers(cs[k], i)
    ensures j == k
  {
    var a, b := cs[j].start / SIZE, cs[k].start / SIZE;
    assert cs[j].start == a * SIZE && cs[k].start == b * SIZE;
  }

  /** The partial map the list stands for: the slot of index i. */
  function Lookup(cs: seq<Chunk>, i: nat): Slot
    decreases |cs|
  {
    if cs == [] then Hole
    else
      var c := cs[|cs| - 1];
      if Covers(c, i) && i - c.start < |c.slots| then c.slots[i - c.start]
      else Lookup(cs[..|cs| - 1], i)
  }

  lemma {:induction false} LookupCovered(cs: seq<Chunk>, k: nat, i: nat)
    requires Ordered(cs) && k < |cs| && Covers(cs[k], i)
    ensures Lookup(cs, i) == cs[k].slots[i - cs[k].start]
  {
    var n := |cs| - 1;
    if Covers(cs[n], i) {
      NoOverlap(cs, k, n, i);
    } else {
      assert cs[..n][k] == cs[k];
      LookupCovered(cs[..n], k, i);
    }
  }

  lemma {:induction false} LookupUncovered(cs: seq<Chunk>, i: nat)
    requires forall k :: 0 <= k < |cs| ==> !Covers(cs[k], i)
    ensures Lookup(cs, i) == Hole
  {
    if cs != [] {
      var n := |cs| - 1;
      assert forall k :: 0 <= k < n ==> cs[..n][k] == cs[k];
      LookupUncovered(cs[..n], i);
    }
  }

  /** The index of the chunk covering i, or -1. */
  ghost function Covering(cs: seq<Chunk>, i: nat): (k: int)
    ensures -1 <= k < |cs|
    ensures 0 <= k ==> Covers(cs[k], i)
    ensures k < 0 ==> forall j :: 0 <= j < |cs| ==> !Covers(cs[j], i)
  {
    if exists k :: 0 <= k < |cs| && Covers(cs[k], i) then
      var k :| 0 <= k < |cs| && Covers(cs[k], i);
      k
    else -1
  }

  lemma LookupByCovering(cs: seq<Chunk>, i: nat)
    requires Ordered(cs)
    ensures var k := Covering(cs, i);
      Lookup(cs, i) == if 0 <= k then cs[k].slots[i - cs[k].start] else Hole
  {
    var k := Covering(cs, i);
    if 0 <= k { LookupCovered(cs, k, i); } else { LookupUncovered(cs, i); }
  }

  // ---- what the three mutations do to the map

  /** Writing one slot of chunk k changes the map at that index and nowhere else. */
  lemma WriteSlot(cs: seq<Chunk>, k: nat, off: nat, slot: Slot, i: nat)
    requires Ordered(cs) && k < |cs| && off < SIZE
    ensures var ds := cs[k := Chunk(cs[k].start, cs[k].slots[off := slot])];
      Ordered(ds) && Lookup(ds, i) == if i == cs[k].start + off then slot else Lookup(cs, i)
  {
    var ds := cs[k := Chunk(cs[k].start, cs[k].slots[off := slot])];
    assert forall j :: 0 <= j < |cs| ==> ds[j].start == cs[j].start && |ds[j].slots| == |cs[j].slots|;
    var j := Covering(cs, i);
    if 0 <= j {
      LookupCovered(cs, j, i);
      LookupCovered(ds, j, i);
      if Covers(cs[k], i) { NoOverlap(cs, j, k, i); }
    } else {
      LookupUncovered(cs, i);
      LookupUncovered(ds, i);
    }
  }

  /** Where the binary search for a chunk start ends. */
  ghost predicate InsertionPoint(cs: seq<Chunk>, start: nat, lo: nat) {
    && lo <= |cs|
    && (forall k :: 0 <= k < lo ==> cs[k].start < start)
    && (forall k :: lo <= k < |cs| ==> start <= cs[k].start)
  }

  function InsertAt(cs: seq<Chunk>, lo: nat, c: Chunk): (ds: seq<Chunk>)
    requires lo <= |cs|
    ensures |ds| == |cs| + 1
    ensures forall k :: 0 <= k < |ds| ==> ds[k] == if k < lo then cs[k] else if k == lo then c else cs[k - 1]
  {
    cs[..lo] + [c] + cs[lo..]
  }

  lemma InsertOrdered(cs: seq<Chunk>, start: nat, lo: nat)
    requires Ordered(cs) && start % SIZE == 0 && InsertionPoint(cs, start, lo)
    requires lo < |cs| ==> cs[lo].start != start
    ensures Ordered(InsertAt(cs, lo, Chunk(start, Holes(SIZE))))
  {
    assert forall k :: lo < k < |cs| ==> cs[lo].start < cs[k].start;
  }

  /** Inserting an empty chunk where the search ended keeps the order and leaves the map as it was. */
  lemma InsertEmpty(cs: seq<Chunk>, start: nat, lo: nat, i: nat)
    requires Ordered(cs) && start % SIZE == 0 && InsertionPoint(cs, start, lo)
    requires lo < |cs| ==> cs[lo].start != start
    ensures var ds := InsertAt(cs, lo, Chunk(start, Holes(SIZE)));
      Ordered(ds) && Lookup(ds, i) == Lookup(cs, i)
  {
    InsertOrdered(cs, start, lo);
    InsertedLookup(cs, lo, Chunk(start, Holes(SIZE)), i);
  }

  lemma InsertKeepsMap(cs: seq<Chunk>, start: nat, lo: nat)
    requires Ordered(cs) && start % SIZE == 0 && InsertionPoint(cs, start, lo)
    requires lo < |cs| ==> cs[lo].start != start
    ensures var ds := InsertAt(cs, lo, Chunk(start, Holes(SIZE)));
      Ordered(ds) && forall i: nat :: Lookup(ds, i) == Lookup(cs, i)
  {
    InsertOrdered(cs, start, lo);
    forall i: nat ensures Lookup(InsertAt(cs, lo, Chunk(start, Holes(SIZE))), i) == Lookup(cs, i) {
      InsertEmpty(cs, start, lo, i);
    }
  }

  lemma InsertedLookup(cs: seq<Chunk>, lo: nat, c: Chunk, i: nat)
    requires lo <= |cs| && Ordered(cs) && Ordered(InsertAt(cs, lo, c)) && c.slots == Holes(SIZE)
    ensures Lookup(InsertAt(cs, lo, c), i) == Lookup(cs, i)
  {
    hide Ordered, Lookup, Covers;
    var ds := InsertAt(cs, lo, c);
    var j, k := Covering(cs, i), Covering(ds, i);
    LookupByCovering(cs, i);
    LookupByCovering(ds, i);
    if 0 <= j {
      var j' := if j < lo then j else j + 1;
      assert ds[j'] == cs[j];
      LookupCovered(ds, j', i);
    } else if k == lo {
      HoleInside(c, i);
    }
  }

  lemma HoleInside(c: Chunk, i: nat)
    requires c.slots == Holes(SIZE) && Covers(c, i)
    ensures c.slots[i - c.start] == Hole
  {
  }

  /** Dropping the last chunk when it starts at or past n loses only indices from n up. */
  lemma DropLast(cs: seq<Chunk>, n: nat, i: nat)
    requires Ordered(cs) && cs != [] && n <= cs[|cs| - 1].start
    ensures Ordered(cs[..|cs| - 1])
    ensures i < n ==> Lookup(cs[..|cs| - 1], i) == Lookup(cs, i)
  {
  }

  /** Once the last chunk starts below n, every chunk before it ends at or below n. */
  lemma OnlyLastStraddles(cs: seq<Chunk>, n: nat, k: nat)
    requires Ordered(cs) && k < |cs| - 1 && cs[|cs| - 1].start < n
    ensures cs[k].start + SIZE <= n
  {
    var a, b := cs[k].start / SIZE, cs[|cs| - 1].start / SIZE;
    assert cs[k].start == a * SIZE && cs[|cs| - 1].start == b * SIZE;
  }

  /** The slots of the last chunk with everything from index n up made a hole. */
  function Cleared(c: Chunk, n: nat): (slots: View)
    requires c.start < n && |c.slots| == SIZE
    ensures |slots| == SIZE
    ensures forall j :: 0 <= j < SIZE ==> slots[j] == if c.start + j < n then c.slots[j] else Hole
  {
    seq(SIZE, j requires 0 <= j < SIZE => if c.start + j < n then c.slots[j] else Hole)
  }

  lemma ClearTail(cs: seq<Chunk>, n: nat, i: nat)
    requires Ordered(cs) && cs != [] && cs[|cs| - 1].start < n
    ensures var last := |cs| - 1; var ds := cs[last := Chunk(cs[last].start, Cleared(cs[last], n))];
      Ordered(ds) && Lookup(ds, i) == if i < n then Lookup(cs, i) else Hole
  {
    var last := |cs| - 1;
    var ds := cs[last := Chunk(cs[last].start, Cleared(cs[last], n))];
    assert forall j :: 0 <= j < |cs| ==> ds[j].start == cs[j].start && |ds[j].slots| == SIZE;
    var j := Covering(cs, i);
    if 0 <= j {
      LookupCovered(cs, j, i);
      LookupCovered(ds, j, i);
      if j < last { OnlyLastStraddles(cs, n, j); }
    } else {
      LookupUncovered(cs, i);
      LookupUncovered(ds, i);
    }
  }

  /** An index after chunk i - 1 and before chunk i is covered by nothing. */
  lemma GapIsHole(cs: seq<Chunk>, i: nat, x: nat)
    requires Ordered(cs) && i <= |cs|
    requires 0 < i ==> cs[i - 1].start + SIZE <= x
    requires i < |cs| ==> x < cs[i].start
    ensures Lookup(cs, x) == Hole
  {
    forall k | 0 <= k < |cs| ensures !Covers(cs[k], x) {
      if k < i - 1 { assert cs[k].start < cs[i - 1].start; }
      if i < k { assert cs[i].start < cs[k].start; }
    }
    LookupUncovered(cs, x);
  }

  ghost function ViewOf(cs: seq<Chunk>, len: nat): (s: View)
    ensures |s| == len
  {
    seq(len, i requires 0 <= i < len => Lookup(cs, i))
  }

  /** No value is stored at or past the length. */
  ghost predicate NothingPast(cs: seq<Chunk>, len: nat) {
    forall i: nat :: len <= i ==> Lookup(cs, i) == Hole
  }
}
