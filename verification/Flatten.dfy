/** FlattenIntoArray, on nested arrays of finite depth: runtime/ejs-array.c. */
module Flatten {
  import opened Elements
  import opened Arrays
  import opened Options
  import Doubles
  import Truncation

  /** flat truncates its depth argument; Infinity flattens without bound. */
  datatype Depth = Finite(n: int) | Infinite {
    predicate Positive() { Infinite? || 0 < n }

    function Less(): Depth { if Infinite? then this else Finite(n - 1) }
  }

  /** A mapper, called with an element and its index, for flatMap; Unmapped for flat. */
  datatype Mapper = Unmapped | Map(f: (JSValue, nat) -> JSValue)
  {
    function Apply(v: JSValue, i: nat): JSValue { if Unmapped? then v else f(v, i) }
  }

  // ---- the flattening, as the standard describes it

  /** What an element that is kept or entered contributes. */
  function Contribution(v: JSValue, depth: Depth): seq<JSValue>
    decreases v, 0
  {
    if depth.Positive() && v.Arr? then FlatValues(v.elems, |v.elems|, depth.Less()) else [v]
  }

  /** Holes contribute nothing. */
  function SlotContribution(slot: Slot, depth: Depth): seq<JSValue>
    decreases slot, 0
  {
    if slot.Val? then Contribution(slot.v, depth) else []
  }

  /** The values the first n slots flatten to. */
  function FlatValues(elems: View, n: nat, depth: Depth): seq<JSValue>
    requires n <= |elems|
    decreases elems, n
  {
    if n == 0 then []
    else FlatValues(elems, n - 1, depth) + SlotContribution(elems[n - 1], depth)
  }

  /** The same with each top-level element mapped first. */
  function MappedValues(elems: View, n: nat, depth: Depth, m: Mapper): seq<JSValue>
    requires n <= |elems|
  {
    if n == 0 then []
    else
      MappedValues(elems, n - 1, depth, m)
      + if elems[n - 1].Val? then Contribution(m.Apply(elems[n - 1].v, n - 1), depth) else []
  }

  lemma {:induction false} UnmappedValues(elems: View, n: nat, depth: Depth)
    requires n <= |elems|
    ensures MappedValues(elems, n, depth, Unmapped) == FlatValues(elems, n, depth)
  {
    if n != 0 { UnmappedValues(elems, n - 1, depth); }
  }

  // ---- what bounded depth means

  /** How many arrays deep a value is. */
  function Nesting(v: JSValue): nat
    decreases v, 0
  {
    if v.Arr? then 1 + NestingOf(v.elems, |v.elems|) else 0
  }

  function SlotNesting(slot: Slot): nat
    decreases slot, 0
  {
    if slot.Val? then Nesting(slot.v) else 0
  }

  function NestingOf(elems: View, n: nat): nat
    requires n <= |elems|
    decreases elems, n
  {
    if n == 0 then 0
    else if NestingOf(elems, n - 1) < SlotNesting(elems[n - 1]) then SlotNesting(elems[n - 1])
    else NestingOf(elems, n - 1)
  }

  /** Unbounded flattening leaves no array behind. */
  lemma {:induction false} InfiniteLeavesNoArray(elems: View, n: nat)
    requires n <= |elems|
    ensures forall v :: v in FlatValues(elems, n, Infinite) ==> !v.Arr?
    decreases elems, n
  {
    if n != 0 {
      InfiniteLeavesNoArray(elems, n - 1);
      InfiniteSlot(elems[n - 1]);
    }
  }

  lemma {:induction false} InfiniteSlot(slot: Slot)
    ensures forall v :: v in SlotContribution(slot, Infinite) ==> !v.Arr?
    decreases slot, 0
  {
    if slot.Val? && slot.v.Arr? { InfiniteLeavesNoArray(slot.v.elems, |slot.v.elems|); }
  }

  /** A depth at least the nesting flattens as far as Infinity does. */
  lemma {:induction false} DeepEnough(elems: View, n: nat, d: nat)
    requires n <= |elems| && NestingOf(elems, n) <= d
    ensures FlatValues(elems, n, Finite(d)) == FlatValues(elems, n, Infinite)
    decreases elems, n
  {
    if n != 0 {
      DeepEnough(elems, n - 1, d);
      DeepEnoughSlot(elems[n - 1], d);
    }
  }

  lemma {:induction false} DeepEnoughSlot(slot: Slot, d: nat)
    requires SlotNesting(slot) <= d
    ensures SlotContribution(slot, Finite(d)) == SlotContribution(slot, Infinite)
    decreases slot, 0
  {
    if slot.Val? && slot.v.Arr? { DeepEnough(slot.v.elems, |slot.v.elems|, d - 1); }
  }

  /** Flattening a list of values. */
  function FlatList(values: seq<JSValue>, depth: Depth): seq<JSValue> {
    if values == [] then []
    else FlatList(values[..|values| - 1], depth) + Contribution(values[|values| - 1], depth)
  }

  lemma {:induction false} FlatListAppend(a: seq<JSValue>, b: seq<JSValue>, depth: Depth)
    ensures FlatList(a + b, depth) == FlatList(a, depth) + FlatList(b, depth)
    decreases |b|
  {
    hide Contribution;
    if b == [] {
      assert a + b == a;
    } else {
      var n := |b| - 1;
      assert (a + b)[..|a + b| - 1] == a + b[..n];
      FlatListAppend(a, b[..n], depth);
    }
  }

  /** Flattening a levels and then b more is flattening a + b levels. */
  lemma {:induction false} FlatCompose(elems: View, n: nat, a: nat, b: nat)
    requires n <= |elems|
    ensures FlatList(FlatValues(elems, n, Finite(a)), Finite(b)) == FlatValues(elems, n, Finite(a + b))
    decreases elems, n
  {
    hide SlotContribution, Contribution;
    assert FlatList([], Finite(b)) == [];
    hide FlatList;
    if n != 0 {
      FlatCompose(elems, n - 1, a, b);
      FlatComposeSlot(elems[n - 1], a, b);
      FlatListAppend(FlatValues(elems, n - 1, Finite(a)), SlotContribution(elems[n - 1], Finite(a)), Finite(b));
    }
  }

  lemma {:induction false} FlatComposeSlot(slot: Slot, a: nat, b: nat)
    ensures FlatList(SlotContribution(slot, Finite(a)), Finite(b)) == SlotContribution(slot, Finite(a + b))
    decreases slot, 0
  {
    if slot.Val? {
      if slot.v.Arr? && a != 0 {
        FlatCompose(slot.v.elems, |slot.v.elems|, a - 1, b);
      } else {
        assert SlotContribution(slot, Finite(a)) == [slot.v];
        assert FlatList([slot.v], Finite(b)) == Contribution(slot.v, Finite(b));
      }
    }
  }

  // ---- the same, level by level

  /** Every array among some values replaced by its present values, once. */
  function Opened(values: seq<JSValue>): seq<JSValue> {
    if values == [] then []
    else
      var last := values[|values| - 1];
      Opened(values[..|values| - 1]) + if last.Arr? then PresentValues(last.elems, |last.elems|) else [last]
  }

  function OpenedTimes(values: seq<JSValue>, d: nat): seq<JSValue>
    decreases d
  {
    if d == 0 then values else OpenedTimes(Opened(values), d - 1)
  }

  /** What the mapper answers for the present indices below n, ascending. */
  function Mapped(s: View, n: nat, f: (JSValue, nat) -> JSValue): seq<JSValue>
    requires n <= |s|
  {
    PresentIsExact(s, n);
    var p := PresentBelow(s, n);
    assert forall k :: 0 <= k < |p| ==> p[k] in p;
    seq(|p|, k requires 0 <= k < |p| => f(s[p[k]].v, p[k]))
  }

  lemma {:induction false} FlatOfPresent(elems: View, n: nat, depth: Depth)
    requires n <= |elems|
    ensures FlatValues(elems, n, depth) == FlatList(PresentValues(elems, n), depth)
  {
    if n != 0 {
      FlatOfPresent(elems, n - 1, depth);
      PresentNext(elems, n);
      hide PresentValues, Contribution;
      var before := PresentValues(elems, n - 1);
      if elems[n - 1].Val? {
        assert (before + [elems[n - 1].v])[..|before|] == before;
      } else {
        assert before + [] == before;
      }
    } else {
      assert PresentValues(elems, 0) == [];
    }
  }

  lemma PresentNext(elems: View, n: nat)
    requires 0 < n <= |elems|
    ensures PresentValues(elems, n) == PresentValues(elems, n - 1) + if elems[n - 1].Val? then [elems[n - 1].v] else []
  {
  }

  /** Flattening after mapping is flattening what the mapper answers, index by index. */
  lemma {:induction false} FlatOfMapped(elems: View, n: nat, depth: Depth, f: (JSValue, nat) -> JSValue)
    requires n <= |elems|
    ensures MappedValues(elems, n, depth, Map(f)) == FlatList(Mapped(elems, n, f), depth)
  {
    if n != 0 {
      FlatOfMapped(elems, n - 1, depth, f);
      MappedNext(elems, n, f);
      hide Mapped, Contribution;
      var before := Mapped(elems, n - 1, f);
      if elems[n - 1].Val? {
        var v := f(elems[n - 1].v, n - 1);
        assert (before + [v])[..|before|] == before;
      } else {
        assert before + [] == before;
      }
    } else {
      assert Mapped(elems, 0, f) == [];
    }
  }

  lemma MappedNext(elems: View, n: nat, f: (JSValue, nat) -> JSValue)
    requires 0 < n <= |elems|
    ensures Mapped(elems, n, f) ==
      Mapped(elems, n - 1, f) + if elems[n - 1].Val? then [f(elems[n - 1].v, n - 1)] else []
  {
  }

  /** The depth-first flattening of some values is what opening them that many times leaves. */
  lemma {:induction false} FlatIsOpened(values: seq<JSValue>, d: nat)
    ensures FlatList(values, Finite(d)) == OpenedTimes(values, d)
    decreases d
  {
    if d == 0 {
      FlatListKeeps(values);
    } else {
      FlatListOpens(values, d);
      FlatIsOpened(Opened(values), d - 1);
    }
  }

  lemma {:induction false} FlatListKeeps(values: seq<JSValue>)
    ensures FlatList(values, Finite(0)) == values
  {
    if values != [] {
      FlatListKeeps(values[..|values| - 1]);
      assert values == values[..|values| - 1] + [values[|values| - 1]];
    }
  }

  lemma {:induction false} FlatListOpens(values: seq<JSValue>, d: nat)
    requires 0 < d
    ensures FlatList(values, Finite(d)) == FlatList(Opened(values), Finite(d - 1))
  {
    if values != [] {
      var n, last := |values| - 1, values[|values| - 1];
      var inner := if last.Arr? then PresentValues(last.elems, |last.elems|) else [last];
      FlatListOpens(values[..n], d);
      OpensOne(last, inner, d);
      assert FlatList(values, Finite(d)) == FlatList(values[..n], Finite(d)) + Contribution(last, Finite(d));
      assert Opened(values) == Opened(values[..n]) + inner;
      hide FlatList, Opened, Contribution, PresentValues;
      FlatListAppend(Opened(values[..n]), inner, Finite(d - 1));
    }
  }

  lemma OpensOne(v: JSValue, inner: seq<JSValue>, d: nat)
    requires 0 < d && inner == if v.Arr? then PresentValues(v.elems, |v.elems|) else [v]
    ensures Contribution(v, Finite(d)) == FlatList(inner, Finite(d - 1))
  {
    if v.Arr? {
      FlatOfPresent(v.elems, |v.elems|, Finite(d - 1));
    } else {
      assert FlatList([v], Finite(d - 1)) == Contribution(v, Finite(d - 1));
    }
  }

  /** Mapping an array without holes to values that are not arrays: element i is the mapper's answer for i. */
  lemma {:induction false} MapsEach(elems: View, n: nat, f: (JSValue, nat) -> JSValue)
    requires n <= |elems| && forall i :: 0 <= i < n ==> elems[i].Val? && !f(elems[i].v, i).Arr?
    ensures Opened(Mapped(elems, n, f)) == seq(n, i requires 0 <= i < n => f(elems[i].v, i))
  {
    if n != 0 {
      MapsEach(elems, n - 1, f);
      var before, v := Mapped(elems, n - 1, f), f(elems[n - 1].v, n - 1);
      MappedNext(elems, n, f);
      assert (before + [v])[..|before|] == before;
    } else {
      assert Mapped(elems, 0, f) == [];
    }
  }

  // ---- the algorithm

  /** s with the values stored from index start on. */
  ghost predicate Stored(s: View, t: View, start: nat, values: seq<JSValue>) {
    && |s| <= |t| && |t| <= (if |s| < start + |values| then start + |values| else |s|)
    && forall j: nat ::
         At(t, j) == (if start <= j < start + |values| then Val(values[j - start]) else At(s, j))
  }

  lemma StoredNothing(s: View, start: nat)
    ensures Stored(s, s, start, [])
  {
  }

  lemma StoredSnoc(s: View, t: View, start: nat, values: seq<JSValue>, v: JSValue)
    requires Stored(s, t, start, values)
    ensures Stored(s, Put(t, start + |values|, v), start, values + [v])
  {
    var u := Put(t, start + |values|, v);
    assert forall j: nat :: At(u, j) == if j == start + |values| then Val(v) else At(t, j);
  }

  lemma StoredAppend(s: View, t: View, u: View, start: nat, a: seq<JSValue>, b: seq<JSValue>)
    requires Stored(s, t, start, a) && Stored(t, u, start + |a|, b)
    ensures Stored(s, u, start, a + b)
  {
  }

  /** FlattenIntoArray, for flat and flatMap.  The target has room in int range, far below the TypeError. */
  method FlattenIntoArray(target: EJSArray, source: EJSArray, start: nat, depth: Depth, m: Mapper)
    returns (targetIndex: nat)
    requires target.Valid() && source.Valid() && source != target && source.Storage() !! target.Storage()
    requires start + |MappedValues(source.View(), |source.View()|, depth, m)| <= MAX_KEY
    modifies target, target.Storage()
    ensures target.Valid() && fresh(target.Storage() - old(target.Storage()))
    ensures source.Valid() && source.View() == old(source.View())
    ensures targetIndex == start + |MappedValues(source.View(), |source.View()|, depth, m)|
    ensures Stored(old(target.View()), target.View(), start, MappedValues(source.View(), |source.View()|, depth, m))
    ensures m.Map? ==>
      Stored(old(target.View()), target.View(), start, FlatList(Mapped(source.View(), |source.View()|, m.f), depth))
  {
    hide EJSArray.ChunksValid, EJSArray.Chunks, Stored, Contribution, MappedValues;
    ghost var s, elems := target.View(), source.View();
    targetIndex := start;
    StoredNothing(s, start);
    MappedNothing(elems, depth, m);
    if m.Map? { FlatOfMapped(elems, |elems|, depth, m.f); }
    hide Mapped;
    var sourceIndex := 0;
    while sourceIndex < source.length
      invariant 0 <= sourceIndex <= source.length
      invariant source.Valid() && source.View() == elems && source.Storage() == old(source.Storage())
      invariant target.Valid() && fresh(target.Storage() - old(target.Storage()))
      invariant targetIndex == start + |MappedValues(elems, sourceIndex, depth, m)|
      invariant Stored(s, target.View(), start, MappedValues(elems, sourceIndex, depth, m))
    {
      targetIndex := FlattenSlot(target, source, sourceIndex, s, start, targetIndex, depth, m);
      sourceIndex := sourceIndex + 1;
    }
  }

  /** Steps a to c: an element that is present is mapped, and entered or stored. */
  method FlattenSlot(target: EJSArray, source: EJSArray, sourceIndex: nat, ghost s: View, ghost start: nat, at: nat,
                     depth: Depth, m: Mapper)
    returns (targetIndex: nat)
    requires target.Valid() && source.Valid() && source != target && source.Storage() !! target.Storage()
    requires sourceIndex < |source.View()|
    requires start + |MappedValues(source.View(), |source.View()|, depth, m)| <= MAX_KEY
    requires at == start + |MappedValues(source.View(), sourceIndex, depth, m)|
    requires Stored(s, target.View(), start, MappedValues(source.View(), sourceIndex, depth, m))
    modifies target, target.Storage()
    ensures target.Valid() && fresh(target.Storage() - old(target.Storage()))
    ensures source.Valid() && source.View() == old(source.View()) && source.Storage() == old(source.Storage())
    ensures targetIndex == start + |MappedValues(source.View(), sourceIndex + 1, depth, m)|
    ensures Stored(s, target.View(), start, MappedValues(source.View(), sourceIndex + 1, depth, m))
  {
    hide EJSArray.ChunksValid, EJSArray.Chunks, Stored, Contribution, MappedValues, Mapper.Apply;
    ghost var elems, t := source.View(), target.View();
    PrefixShorter(elems, sourceIndex + 1, depth, m);
    MappedStep(elems, sourceIndex, depth, m);
    targetIndex := at;
    var present := source.Has(sourceIndex);
    if present {
      var element := source.Get(sourceIndex);
      element := m.Apply(element, sourceIndex);
      targetIndex := FlattenElement(target, element, at, depth);
    }
    SlotStored(s, t, target.View(), start, elems, sourceIndex, depth, m);
  }

  lemma SlotStored(s: View, t: View, u: View, start: nat, elems: View, n: nat, depth: Depth, m: Mapper)
    requires n < |elems| && Stored(s, t, start, MappedValues(elems, n, depth, m))
    requires var at := start + |MappedValues(elems, n, depth, m)|;
      if elems[n].Val? then Stored(t, u, at, Contribution(m.Apply(elems[n].v, n), depth)) else u == t
    ensures Stored(s, u, start, MappedValues(elems, n + 1, depth, m))
  {
    hide Stored, Contribution, MappedValues, Mapper.Apply;
    MappedStep(elems, n, depth, m);
    var values := MappedValues(elems, n, depth, m);
    if elems[n].Val? {
      StoredAppend(s, t, u, start, values, Contribution(m.Apply(elems[n].v, n), depth));
    } else {
      assert values + [] == values;
    }
  }

  /** FlattenIntoArray called for a nested array, which is a value here and has no mapper. */
  method FlattenNested(target: EJSArray, source: View, start: nat, depth: Depth) returns (targetIndex: nat)
    requires target.Valid() && start + |FlatValues(source, |source|, depth)| <= MAX_KEY
    modifies target, target.Storage()
    ensures target.Valid() && fresh(target.Storage() - old(target.Storage()))
    ensures targetIndex == start + |FlatValues(source, |source|, depth)|
    ensures Stored(old(target.View()), target.View(), start, FlatValues(source, |source|, depth))
    decreases source, 1
  {
    hide EJSArray.ChunksValid, EJSArray.Chunks, Stored, Contribution;
    ghost var s := target.View();
    targetIndex := start;
    StoredNothing(s, start);
    var sourceIndex := 0;
    while sourceIndex < |source|
      invariant 0 <= sourceIndex <= |source|
      invariant target.Valid() && fresh(target.Storage() - old(target.Storage()))
      invariant targetIndex == start + |FlatValues(source, sourceIndex, depth)|
      invariant Stored(s, target.View(), start, FlatValues(source, sourceIndex, depth))
    {
      ghost var values := FlatValues(source, sourceIndex, depth);
      ghost var t := target.View();
      FlatPrefixShorter(source, sourceIndex + 1, depth);
      if source[sourceIndex].Val? {
        var element := source[sourceIndex].v;
        assert source decreases to source[sourceIndex];
        targetIndex := FlattenElement(target, element, targetIndex, depth);
        StoredAppend(s, t, target.View(), start, values, Contribution(element, depth));
      } else {
        assert values + [] == values;
      }
      sourceIndex := sourceIndex + 1;
    }
  }

  /** Steps iii to vi: one element is entered or stored. */
  method FlattenElement(target: EJSArray, element: JSValue, start: nat, depth: Depth) returns (targetIndex: nat)
    requires target.Valid() && start + |Contribution(element, depth)| <= MAX_KEY
    modifies target, target.Storage()
    ensures target.Valid() && fresh(target.Storage() - old(target.Storage()))
    ensures targetIndex == start + |Contribution(element, depth)|
    ensures Stored(old(target.View()), target.View(), start, Contribution(element, depth))
    decreases element, 0
  {
    hide EJSArray.ChunksValid, EJSArray.Chunks, Stored, Contribution;
    ContributionCases(element, depth);
    var shouldFlatten := false;
    if depth.Positive() { shouldFlatten := element.Arr?; }
    if shouldFlatten {
      targetIndex := FlattenNested(target, element.elems, start, depth.Less());
    } else {
      ghost var s := target.View();
      StoredNothing(s, start);
      target.Define(start, Val(element));
      StoredSnoc(s, s, start, [], element);
      assert [] + [element] == [element];
      targetIndex := start + 1;
    }
  }

  lemma MappedNothing(elems: View, depth: Depth, m: Mapper)
    ensures MappedValues(elems, 0, depth, m) == []
  {
  }

  lemma MappedStep(elems: View, n: nat, depth: Depth, m: Mapper)
    requires n < |elems|
    ensures MappedValues(elems, n + 1, depth, m) ==
      MappedValues(elems, n, depth, m)
      + if elems[n].Val? then Contribution(m.Apply(elems[n].v, n), depth) else []
  {
  }

  lemma ContributionCases(v: JSValue, depth: Depth)
    ensures Contribution(v, depth) ==
      if depth.Positive() && v.Arr? then FlatValues(v.elems, |v.elems|, depth.Less()) else [v]
  {
  }

  lemma {:induction false} PrefixShorter(elems: View, n: nat, depth: Depth, m: Mapper)
    requires n <= |elems|
    ensures |MappedValues(elems, n, depth, m)| <= |MappedValues(elems, |elems|, depth, m)|
    decreases |elems| - n
  {
    hide Contribution;
    if n < |elems| { PrefixShorter(elems, n + 1, depth, m); }
  }

  lemma {:induction false} FlatPrefixShorter(elems: View, n: nat, depth: Depth)
    requires n <= |elems|
    ensures |FlatValues(elems, n, depth)| <= |FlatValues(elems, |elems|, depth)|
    decreases |elems| - n
  {
    hide SlotContribution;
    if n < |elems| { FlatPrefixShorter(elems, n + 1, depth); }
  }

  // ---- Array.prototype.flat and flatMap

  /** The depth flat takes from its argument: 1 if it has none, 0 for NaN and below. */
  function DepthOf(depth: Option<Doubles.Double>): Depth {
    if depth.None? then Finite(1)
    else
      match Truncation.Truncated(depth.value)
      case Infinite(neg) => if neg then Finite(0) else Infinite
      case Int(n) => if n < 0 then Finite(0) else Finite(n)
  }

  /** Array.prototype.flat. */
  method Flat(o: EJSArray, depth: Option<Doubles.Double>) returns (a: EJSArray)
    requires o.Valid()
    requires |FlatValues(o.View(), |o.View()|, DepthOf(depth))| <= MAX_KEY
    ensures a.Valid() && fresh(a) && fresh(a.Storage())
    ensures a.View() == Values(FlatValues(o.View(), |o.View()|, DepthOf(depth)))
    ensures var present := PresentValues(o.View(), |o.View()|);
      && (depth.None? ==> a.View() == Values(Opened(present)))
      && forall d: nat ::
           depth.Some? && Doubles.IsDouble(depth.value) && AsksFor(depth.value, d, NestingOf(o.View(), |o.View()|))
           ==> a.View() == Values(OpenedTimes(present, d))
  {
    hide FlatValues, MappedValues, Stored;
    ghost var s := o.View();
    UnmappedValues(s, |s|, DepthOf(depth));
    a := NewArray(0);
    var n := FlattenIntoArray(a, o, 0, DepthOf(depth), Unmapped);
    StoredInEmpty(a.View(), FlatValues(s, |s|, DepthOf(depth)));
    FlatForms(s, depth);
  }

  /** flat opens the values of an array as often as it is asked to, for Infinity as often as they are nested. */
  lemma FlatForms(s: View, depth: Option<Doubles.Double>)
    ensures var flat, present := FlatValues(s, |s|, DepthOf(depth)), PresentValues(s, |s|);
      && (depth.None? ==> flat == Opened(present))
      && forall d: nat :: depth.Some? && Doubles.IsDouble(depth.value) && AsksFor(depth.value, d, NestingOf(s, |s|))
           ==> flat == OpenedTimes(present, d)
  {
    hide FlatValues, PresentValues, Opened, Truncation.Truncated;
    FlatOfPresent(s, |s|, DepthOf(depth));
    var present := PresentValues(s, |s|);
    if depth.None? {
      FlatIsOpened(present, 1);
      assert OpenedTimes(present, 1) == OpenedTimes(Opened(present), 0);
    }
    forall d: nat | depth.Some? && Doubles.IsDouble(depth.value) && AsksFor(depth.value, d, NestingOf(s, |s|))
      ensures FlatValues(s, |s|, DepthOf(depth)) == OpenedTimes(present, d)
    {
      Truncation.TruncatedIff(depth.value, d);
      FlatIsOpened(present, d);
      FlatOfPresent(s, |s|, Finite(d));
      if depth.value == Doubles.Inf(false) { DeepEnough(s, |s|, d); }
      if depth.value.Fin? && d == 0 { BelowZero(depth.value); }
    }
  }

  lemma BelowZero(d: Doubles.Double)
    requires d.Fin? && Doubles.IsDouble(d) && Doubles.Units(d) < Doubles.IntUnits(1)
    ensures Truncation.Truncated(d).Int? && Truncation.Truncated(d).n <= 0
  {
    hide Truncation.Truncated;
    Truncation.TruncatedIff(d, 0);
    var n := Truncation.Truncated(d).n;
    Truncation.TruncatedIff(d, n);
    if 0 < n { Doubles.IntUnitsMono(1, n); }
  }

  /** A depth argument asks for d levels: its integer part, none below one and for NaN, all of them for Infinity. */
  ghost predicate AsksFor(depth: Doubles.Double, d: nat, nesting: nat)
    requires Doubles.IsDouble(depth)
  {
    match depth
    case NaN => d == 0
    case Inf(neg) => if neg then d == 0 else nesting <= d
    case Fin(_, _) =>
      if d == 0 then Doubles.Units(depth) < Doubles.IntUnits(1)
      else Doubles.IntUnits(d) <= Doubles.Units(depth) < Doubles.IntUnits(d + 1)
  }

  /** Array.prototype.flatMap; None is the TypeError for a mapper that cannot be called. */
  method FlatMap(o: EJSArray, mapper: Option<(JSValue, nat) -> JSValue>) returns (r: Option<EJSArray>)
    requires o.Valid()
    requires mapper.Some? ==> |MappedValues(o.View(), |o.View()|, Finite(1), Map(mapper.value))| <= MAX_KEY
    ensures r.None? <==> mapper.None?
    ensures r.Some? ==>
      && r.value.Valid() && fresh(r.value) && fresh(r.value.Storage())
      && r.value.View() == Values(MappedValues(o.View(), |o.View()|, Finite(1), Map(mapper.value)))
      && r.value.View() == Values(Opened(Mapped(o.View(), |o.View()|, mapper.value)))
  {
    hide MappedValues, Stored;
    if mapper.None? { return None; }
    ghost var s := o.View();
    var a := NewArray(0);
    var n := FlattenIntoArray(a, o, 0, Finite(1), Map(mapper.value));
    StoredInEmpty(a.View(), MappedValues(s, |s|, Finite(1), Map(mapper.value)));
    FlatMapForms(s, mapper.value);
    r := Some(a);
  }

  /** flatMap opens what the mapper answers for the present indices, once. */
  lemma FlatMapForms(s: View, f: (JSValue, nat) -> JSValue)
    ensures MappedValues(s, |s|, Finite(1), Map(f)) == Opened(Mapped(s, |s|, f))
  {
    hide Opened, Mapped;
    FlatOfMapped(s, |s|, Finite(1), f);
    FlatIsOpened(Mapped(s, |s|, f), 1);
    assert OpenedTimes(Mapped(s, |s|, f), 1) == OpenedTimes(Opened(Mapped(s, |s|, f)), 0);
  }

  lemma StoredInEmpty(t: View, values: seq<JSValue>)
    requires Stored(Holes(0), t, 0, values)
    ensures t == Values(values)
  {
    assert forall j: nat :: j < |values| ==> At(t, j) == Val(values[j]);
    assert |t| < |values| ==> At(t, |t|).Val?;
  }
}
