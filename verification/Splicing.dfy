/** Array.prototype.splice and Array.prototype.toSpliced: runtime/ejs-array.c. */
module Splicing {
  import opened Arith
  import opened Elements
  import opened Arrays

  /** The arguments after ToInteger: how many there are decides the defaults. */
  datatype Args =
    | NoArgs
    | OnlyStart(start: int)
    | StartAndCount(start: int, count: int, items: seq<JSValue>)
  {
    function Items(): seq<JSValue> { if StartAndCount? then items else [] }
  }

  // ---- argument clamping

  /** The implicit conversion of an int64_t argument to int. */
  function ToInt(x: int): (r: int)
    ensures -0x8000_0000 <= r < 0x8000_0000
    ensures -0x8000_0000 <= x < 0x8000_0000 ==> r == x
    ensures (x - r) % 0x1_0000_0000 == 0
  {
    (x + 0x8000_0000) % 0x1_0000_0000 - 0x8000_0000
  }

  /** The file's max and min take int parameters. */
  function IntMax(a: int, b: int): int { Max(ToInt(a), ToInt(b)) }

  function IntMin(a: int, b: int): int { Min(ToInt(a), ToInt(b)) }

  function SpliceStart(len: nat, a: Args): int {
    if a.NoArgs? then IntMin(0, len)
    else if a.start < 0 then IntMax(len + a.start, 0)
    else IntMin(a.start, len)
  }

  function SpliceCount(len: nat, start: int, a: Args): int {
    match a
    case NoArgs => 0
    case OnlyStart(_) => len - start
    case StartAndCount(_, count, _) => IntMin(IntMax(count, 0), len - start)
  }

  /** toSpliced clamps in doubles, which is exact here. */
  function ToSplicedStart(len: nat, a: Args): (r: nat)
    ensures r <= len
  {
    if a.NoArgs? then 0
    else if a.start < 0 then Max(len + a.start, 0)
    else Min(a.start, len)
  }

  function ToSplicedCount(len: nat, start: nat, a: Args): (r: nat)
    requires start <= len
    ensures r <= len - start
  {
    match a
    case NoArgs => 0
    case OnlyStart(_) => len - start
    case StartAndCount(_, count, _) => Min(Max(count, 0), len - start)
  }

  /** The arguments that splice's conversion to int leaves where they belong. */
  predicate StartInRange(len: nat, a: Args) {
    a.NoArgs?
    || (if a.start < 0 then len + a.start < -0x8000_0000 ==> ToInt(len + a.start) <= 0
        else 0x8000_0000 <= a.start ==> len <= ToInt(a.start))
  }

  predicate CountInRange(room: nat, a: Args) {
    a.StartAndCount? && room != 0 ==>
      && (0x8000_0000 <= a.count ==> room <= ToInt(a.count))
      && (a.count < -0x8000_0000 ==> ToInt(a.count) <= 0)
  }

  /** splice and toSpliced work on the same range exactly for the arguments in range. */
  lemma ClampsAgreeIff(len: nat, a: Args)
    requires len < 0x8000_0000
    ensures SpliceStart(len, a) == ToSplicedStart(len, a) <==> StartInRange(len, a)
    ensures SpliceStart(len, a) == ToSplicedStart(len, a) ==>
              var start := ToSplicedStart(len, a);
              (SpliceCount(len, start, a) == ToSplicedCount(len, start, a) <==> CountInRange(len - start, a))
  {
  }

  /** The starts whose narrowing leaves splice inside the array. */
  lemma SpliceStartInsideIff(len: nat, a: Args)
    requires len < 0x8000_0000
    ensures 0 <= SpliceStart(len, a) <= len <==>
      a.NoArgs? || (if a.start < 0 then ToInt(len + a.start) <= len else 0 <= ToInt(a.start))
  {
  }

  /** Arguments in int range are in range; 2^32 is not: splice(2^32) starts at 0, toSpliced at the end. */
  lemma WrappedStart(len: nat, start: int)
    requires len < 0x8000_0000
    ensures -0x8000_0000 <= start < 0x8000_0000 ==> StartInRange(len, OnlyStart(start))
    ensures 0 < len ==>
              && SpliceStart(len, OnlyStart(0x1_0000_0000)) == 0
              && ToSplicedStart(len, OnlyStart(0x1_0000_0000)) == len
  {
  }

  // ---- what both compute

  /** Prefix, items, suffix. */
  function Spliced(s: View, start: nat, count: nat, items: seq<JSValue>): View
    requires start + count <= |s|
  {
    s[..start] + Values(items) + s[start + count..]
  }

  lemma SplicedIs(s: View, start: nat, count: nat, items: seq<JSValue>)
    requires start + count <= |s|
    ensures Spliced(s, start, count, items) == s[..start] + Values(items) + s[start + count..]
  {
  }

  /** Holes read as undefined. */
  function Filled(s: View): (r: View)
    ensures |r| == |s| && forall i :: 0 <= i < |s| ==> r[i] == Val(ValueAt(s, i))
  {
    seq(|s|, i requires 0 <= i < |s| => Val(ValueAt(s, i)))
  }

  // ---- the range the arguments ask for

  /** p is the position asked for, or the end of lo..hi on its side. */
  predicate Clamped(at: int, lo: int, hi: int, p: int) {
    lo <= p <= hi && (at < p ==> p == lo) && (p < at ==> p == hi)
  }

  /**
   * c elements from p on are the range asked for: a negative start counts from the end, a missing
   * count reaches to the end, no arguments ask for nothing.  splice looks at narrowed numbers.
   */
  predicate AskedFor(len: nat, a: Args, narrow: bool, p: nat, c: nat) {
    p + c <= len &&
    if a.NoArgs? then p == 0 && c == 0
    else
      var at := if a.start < 0 then len + a.start else a.start;
      && Clamped(if narrow then ToInt(at) else at, 0, len, p)
      && if a.OnlyStart? then p + c == len
         else Clamped(if narrow then ToInt(a.count) else a.count, 0, len - p, c)
  }

  /** The clamps of both find that range, and there is no other. */
  lemma AskedForIff(len: nat, a: Args, p: nat, c: nat)
    requires len < 0x8000_0000
    ensures AskedFor(len, a, false, p, c) <==>
      p == ToSplicedStart(len, a) && c == ToSplicedCount(len, ToSplicedStart(len, a), a)
    ensures Inside(len, a) ==>
      (AskedFor(len, a, true, p, c) <==> p == SpliceStart(len, a) && c == SpliceCount(len, SpliceStart(len, a), a))
  {
    var start := ToSplicedStart(len, a);
    assert a.NoArgs? ==> start == 0;
  }

  /** splice removes and leaves these slots, and toSpliced makes the same of the array, holes filled. */
  ghost predicate Edits(s: View, a: Args, removed: View, left: View) {
    && Inside(|s|, a) && RemovedBySplice(s, a) == removed && LeftBySplice(s, a) == left
    && ToSplicedView(s, a) == Filled(left)
  }

  lemma EditsRange(s: View, a: Args, p: nat, c: nat)
    requires Inside(|s|, a) && AskedFor(|s|, a, true, p, c) && AskedFor(|s|, a, false, p, c)
    ensures Edits(s, a, s[p..p + c], s[..p] + Values(a.Items()) + s[p + c..])
  {
    AskedForIff(|s|, a, p, c);
    hide AskedFor, Inside, SpliceStart, SpliceCount, ToSplicedStart, ToSplicedCount, Filled;
  }

  /** The results in slices, for a start k from the front or the back. */
  lemma SliceForms(s: View, k: int)
    requires 0 <= k <= |s| < 0x8000_0000
    ensures Edits(s, NoArgs, [], s)
    ensures Edits(s, OnlyStart(k), s[k..], s[..k])
    ensures 0 < k ==> Edits(s, OnlyStart(-k), s[|s| - k..], s[..|s| - k])
  {
    hide Edits, Filled;
    EditsRange(s, NoArgs, 0, 0);
    assert s[0..0] == [] && s[..0] + Values([]) + s[0..] == s;
    EditsRange(s, OnlyStart(k), k, |s| - k);
    assert s[..k] + Values([]) + s[|s|..] == s[..k] && s[k..k + (|s| - k)] == s[k..];
    if 0 < k {
      EditsRange(s, OnlyStart(-k), |s| - k, k);
      assert s[..|s| - k] + Values([]) + s[|s|..] == s[..|s| - k] && s[|s| - k..|s| - k + k] == s[|s| - k..];
    }
  }

  /** And with a count that fits. */
  lemma CountForms(s: View, k: int, c: nat, items: seq<JSValue>)
    requires 0 <= k <= |s| < 0x8000_0000
    ensures k + c <= |s| ==> Edits(s, StartAndCount(k, c, items), s[k..k + c], s[..k] + Values(items) + s[k + c..])
    ensures 0 < k && c <= k ==> var p := |s| - k;
      Edits(s, StartAndCount(-k, c, items), s[p..p + c], s[..p] + Values(items) + s[p + c..])
  {
    if k + c <= |s| { EditsRange(s, StartAndCount(k, c, items), k, c); }
    if 0 < k && c <= k { EditsRange(s, StartAndCount(-k, c, items), |s| - k, c); }
  }

  // ---- when the two agree

  /** Two edits of arrays of one length, holes read as undefined, are the same edit. */
  ghost predicate SameEdit(len: nat, start: nat, count: nat, start': nat, count': nat, items: seq<JSValue>)
    requires start + count <= len && start' + count' <= len
  {
    forall s: View :: |s| == len ==>
      Filled(Spliced(s, start, count, items)) == Filled(Spliced(s, start', count', items))
  }

  /** An array the edits at two different starts change differently. */
  function Witness(len: nat, start: nat, count: nat, items: seq<JSValue>): (s: View)
    ensures |s| == len
  {
    var v := if items != [] && items[0] == Undefined then Prim(0) else Undefined;
    seq(len, i => if items == [] && i == start + count then Val(Prim(0)) else Val(v))
  }

  /** At the earlier of two starts, an edit that does something shows a difference. */
  lemma StartsDiffer(len: nat, start: nat, start': nat, count: nat, items: seq<JSValue>)
    requires start < start' && start' + count <= len && (count != 0 || items != [])
    ensures var s := Witness(len, start, count, items);
      Filled(Spliced(s, start, count, items)) != Filled(Spliced(s, start', count, items))
  {
    var s := Witness(len, start, count, items);
    var a, b := Filled(Spliced(s, start, count, items)), Filled(Spliced(s, start', count, items));
    assert b[start] == Val(ValueAt(s, start));
    if items != [] {
      assert a[start] == Val(items[0]);
    } else {
      assert a[start] == Val(ValueAt(s, start + count));
    }
  }

  /** Two edits with the same items agree on every array exactly if they are one edit, or change nothing. */
  lemma SameEditIff(len: nat, start: nat, count: nat, start': nat, count': nat, items: seq<JSValue>)
    requires start + count <= len && start' + count' <= len
    ensures SameEdit(len, start, count, start', count', items) <==>
      count == count' && (start == start' || (count == 0 && items == []))
  {
    if count != count' {
      assert |Filled(Spliced(Holes(len), start, count, items))| != |Filled(Spliced(Holes(len), start', count', items))|;
    } else if count == 0 && items == [] {
      forall s: View | |s| == len
        ensures Filled(Spliced(s, start, count, items)) == Filled(Spliced(s, start', count', items))
      {
        assert Spliced(s, start, 0, []) == s && Spliced(s, start', 0, []) == s;
      }
    } else if start != start' {
      hide Filled, Spliced, Witness;
      if start < start' {
        StartsDiffer(len, start, start', count, items);
        assert |Witness(len, start, count, items)| == len;
      } else {
        StartsDiffer(len, start', start, count, items);
        assert |Witness(len, start', count, items)| == len;
      }
    }
  }

  /** Neither clamping leaves anything to delete, and there is nothing to insert. */
  predicate ChangesNothing(len: nat, a: Args) {
    && a.StartAndCount? && a.items == []
    && (a.count <= 0 || ToSplicedStart(len, a) == len)
    && (ToInt(a.count) <= 0 || SpliceStart(len, a) == len)
  }

  /** The arguments for which splice and toSpliced agree. */
  predicate Agreeable(len: nat, a: Args) {
    (StartInRange(len, a) && CountInRange(len - ToSplicedStart(len, a), a)) || ChangesNothing(len, a)
  }

  /** splice's start lies in an array of this length. */
  predicate Inside(len: nat, a: Args) { len < 0x8000_0000 && 0 <= SpliceStart(len, a) <= len }

  /** What splice removes from an array. */
  ghost function RemovedBySplice(s: View, a: Args): View
    requires Inside(|s|, a)
  {
    CountFits(|s|, SpliceStart(|s|, a), a);
    s[SpliceStart(|s|, a)..SpliceStart(|s|, a) + SpliceCount(|s|, SpliceStart(|s|, a), a)]
  }

  /** What it leaves. */
  ghost function LeftBySplice(s: View, a: Args): View
    requires Inside(|s|, a)
  {
    CountFits(|s|, SpliceStart(|s|, a), a);
    Spliced(s, SpliceStart(|s|, a), SpliceCount(|s|, SpliceStart(|s|, a), a), a.Items())
  }

  /** What toSpliced makes of it. */
  ghost function ToSplicedView(s: View, a: Args): View {
    Filled(Spliced(s, ToSplicedStart(|s|, a), ToSplicedCount(|s|, ToSplicedStart(|s|, a), a), a.Items()))
  }

  /** In terms of the clamped ranges. */
  lemma AgreeableRanges(len: nat, a: Args)
    requires Inside(len, a)
    ensures var start, start' := SpliceStart(len, a), ToSplicedStart(len, a);
      var count, count' := SpliceCount(len, start, a), ToSplicedCount(len, start', a);
      Agreeable(len, a) <==> count == count' && (start == start' || (count == 0 && a.Items() == []))
  {
    ClampsAgreeIff(len, a);
  }

  /**
   * splice leaves in every array what toSpliced makes of it exactly for the agreeable arguments,
   * wherever the start stays inside the array.
   */
  lemma SpliceAgreesIff(len: nat, a: Args)
    requires Inside(len, a)
    ensures Agreeable(len, a) <==> forall s: View :: |s| == len ==> Filled(LeftBySplice(s, a)) == ToSplicedView(s, a)
  {
    var start, start' := SpliceStart(len, a), ToSplicedStart(len, a);
    CountFits(len, start, a);
    AgreeableRanges(len, a);
    hide SpliceStart, SpliceCount, ToSplicedStart, ToSplicedCount, Filled, Spliced, Agreeable;
    SameEditIff(len, start, SpliceCount(len, start, a), start', ToSplicedCount(len, start', a), a.Items());
  }

  /** splice(2^32) empties an array, and toSpliced(2^32) copies it. */
  lemma WrappedResultsDiffer(s: View)
    requires 0 < |s| < 0x8000_0000
    ensures var a := OnlyStart(0x1_0000_0000);
      Inside(|s|, a) && !Agreeable(|s|, a) && LeftBySplice(s, a) == [] && ToSplicedView(s, a) == Filled(s)
  {
    WrappedStart(|s|, 0);
    assert Spliced(s, |s|, 0, []) == s;
  }

  lemma CountFits(len: nat, start: nat, args: Args)
    requires start <= len < 0x8000_0000
    ensures 0 <= SpliceCount(len, start, args) <= len - start
  {
  }

  // ---- splice, loop by loop

  /** Copies one slot to another, or deletes the target when the source is absent. */
  method MoveSlot(o: EJSArray, from: nat, to: nat)
    requires o.Valid() && from <= MAX_KEY && to <= MAX_KEY
    modifies o, o.Storage()
    ensures o.Valid() && fresh(o.Storage() - old(o.Storage()))
    ensures forall j: nat :: At(o.View(), j) == if j == to then At(old(o.View()), from) else At(old(o.View()), j)
    ensures old(o.length) <= o.length <= Max(old(o.length), to + 1)
  {
    hide EJSArray.ChunksValid, EJSArray.Chunks;
    var present := o.Has(from);
    if present {
      var value := o.Get(from);
      o.Set(to, value);
    } else {
      o.Delete(to);
    }
  }

  /** Copies one slot into another array, leaving the target alone when the source is absent. */
  method CopySlot(o: EJSArray, from: nat, a: EJSArray, to: nat)
    requires o.Valid() && a.Valid() && from <= MAX_KEY && to < a.length <= MAX_KEY
    requires o != a && o.Storage() !! a.Storage()
    modifies a, a.Storage()
    ensures a.Valid() && fresh(a.Storage() - old(a.Storage()))
    ensures o.Valid() && o.View() == old(o.View()) && o.Storage() == old(o.Storage()) && o.length == old(o.length)
    ensures a.View() == if At(o.View(), from).Val? then old(a.View())[to := At(o.View(), from)] else old(a.View())
  {
    hide EJSArray.ChunksValid, EJSArray.Chunks;
    var present := o.Has(from);
    if present {
      var value := o.Get(from);
      SetInside(a, to, value);
    }
  }

  method SetInside(a: EJSArray, i: nat, v: JSValue)
    requires a.Valid() && i < a.length <= MAX_KEY
    modifies a, a.Storage()
    ensures a.Valid() && fresh(a.Storage() - old(a.Storage()))
    ensures a.View() == old(a.View())[i := Val(v)]
  {
    PutInside(a.View(), i, v);
    hide EJSArray.ChunksValid, EJSArray.Chunks, Put;
    a.Set(i, v);
  }

  lemma PutInside(s: View, i: nat, v: JSValue)
    requires i < |s|
    ensures Put(s, i, v) == s[i := Val(v)]
  {
  }

  /** Steps 14-16: the removed elements, holes included. */
  method CollectRemoved(o: EJSArray, start: nat, count: nat) returns (a: EJSArray)
    requires o.Valid() && start + count <= o.length <= MAX_KEY
    ensures a.Valid() && fresh(a) && fresh(a.Storage())
    ensures a.View() == o.View()[start..start + count]
  {
    a := NewArray(count);
    CopyAndTrim(o, start, a);
  }

  method CopyAndTrim(o: EJSArray, start: nat, a: EJSArray)
    requires o.Valid() && a.Valid() && start + a.length <= o.length <= MAX_KEY
    requires o != a && o.Storage() !! a.Storage() && a.View() == Holes(a.length)
    modifies a, a.Storage()
    ensures a.Valid() && fresh(a.Storage() - old(a.Storage()))
    ensures a.View() == old(o.View()[start..start + a.length])
  {
    hide EJSArray.ChunksValid, EJSArray.Chunks;
    ghost var removed := o.View()[start..start + a.length];
    CopyPresent(o, start, a);
    a.SetLength(a.length);
    ResizeSame(removed);
  }

  lemma ResizeSame(s: View)
    ensures Resize(s, |s|) == s
  {
  }

  method CopyPresent(o: EJSArray, start: nat, a: EJSArray)
    requires o.Valid() && a.Valid() && start + a.length <= o.length <= MAX_KEY
    requires o != a && o.Storage() !! a.Storage() && a.View() == Holes(a.length)
    modifies a, a.Storage()
    ensures a.Valid() && fresh(a.Storage() - old(a.Storage()))
    ensures o.Valid() && o.View() == old(o.View())
    ensures a.View() == o.View()[start..start + old(a.length)]
  {
    hide EJSArray.ChunksValid, EJSArray.Chunks;
    ghost var source := o.View();
    var count := a.length;
    var k := 0;
    while k < count
      invariant 0 <= k <= count
      invariant o.Valid() && o.View() == source && o.Storage() == old(o.Storage())
      invariant a.Valid() && fresh(a.Storage() - old(a.Storage())) && a.length == count
      invariant forall j :: 0 <= j < count ==> a.View()[j] == if j < k then source[start + j] else Hole
    {
      CopySlot(o, start + k, a, k);
      k := k + 1;
    }
  }

  /** How far a slot moves: past the items instead of the deleted elements. */
  function Shifted(s: View, count: nat, items: nat, j: int): Slot
    requires items <= j
  {
    At(s, j - items + count)
  }

  /** Step 20 a-b: the suffix moves down, front first. */
  method ShiftDown(o: EJSArray, start: nat, count: nat, items: nat)
    requires o.Valid() && start + count <= o.length <= MAX_KEY && items < count
    modifies o, o.Storage()
    ensures o.Valid() && fresh(o.Storage() - old(o.Storage())) && o.length == old(o.length)
    ensures forall j: nat ::
              At(o.View(), j) == (if start + items <= j < old(o.length) - count + items
                                  then Shifted(old(o.View()), count, items, j) else At(old(o.View()), j))
  {
    hide EJSArray.ChunksValid, EJSArray.Chunks;
    ghost var s := o.View();
    var len := o.length;
    var k := start;
    while k < len - count
      invariant start <= k <= len - count
      invariant o.Valid() && fresh(o.Storage() - old(o.Storage())) && o.length == len
      invariant forall j: nat ::
                  At(o.View(), j) == (if start + items <= j < k + items
                                      then Shifted(s, count, items, j) else At(s, j))
    {
      assert At(o.View(), k + count) == Shifted(s, count, items, k + items);
      MoveSlot(o, k + count, k + items);
      k := k + 1;
    }
  }

  /** Step 20 c-d: the tail left over is deleted, last first. */
  method DeleteTail(o: EJSArray, newLen: nat)
    requires o.Valid() && newLen <= o.length <= MAX_KEY
    modifies o, o.Storage()
    ensures o.Valid() && fresh(o.Storage() - old(o.Storage())) && o.length == old(o.length)
    ensures forall j :: 0 <= j < o.length ==> o.View()[j] == if j < newLen then old(o.View())[j] else Hole
  {
    hide EJSArray.ChunksValid, EJSArray.Chunks;
    ghost var s := o.View();
    var k := o.length;
    while newLen < k
      invariant newLen <= k <= o.length == |s|
      invariant o.Valid() && fresh(o.Storage() - old(o.Storage()))
      invariant forall j :: 0 <= j < |s| ==> o.View()[j] == if j < k then s[j] else Hole
    {
      o.Delete(k - 1);
      k := k - 1;
    }
  }

  /** Step 21: the suffix moves up (or stays), last first; the array grows as it goes. */
  method ShiftUp(o: EJSArray, start: nat, count: nat, items: nat)
    requires o.Valid() && start + count <= o.length && count <= items && o.length - count + items <= MAX_KEY
    modifies o, o.Storage()
    ensures o.Valid() && fresh(o.Storage() - old(o.Storage()))
    ensures old(o.length) <= o.length <= old(o.length) - count + items
    ensures forall j: nat ::
              At(o.View(), j) == (if start + items <= j < old(o.length) - count + items
                                  then Shifted(old(o.View()), count, items, j) else At(old(o.View()), j))
  {
    hide EJSArray.ChunksValid, EJSArray.Chunks;
    ghost var s := o.View();
    var len := o.length;
    var k := len - count;
    while start < k
      invariant start <= k <= len - count
      invariant o.Valid() && fresh(o.Storage() - old(o.Storage()))
      invariant len <= o.length <= len - count + items
      invariant forall j: nat ::
                  At(o.View(), j) == (if k + items <= j < len - count + items
                                      then Shifted(s, count, items, j) else At(s, j))
    {
      assert At(o.View(), k + count - 1) == Shifted(s, count, items, k + items - 1);
      MoveSlot(o, k + count - 1, k + items - 1);
      k := k - 1;
    }
  }

  lemma PutAt(s: View, i: nat, v: JSValue)
    ensures forall j: nat :: At(Put(s, i, v), j) == if j == i then Val(v) else At(s, j)
    ensures |Put(s, i, v)| == Max(|s|, i + 1)
  {
  }

  /** The first n items stored one after the other from start on. */
  function PutAll(s: View, start: nat, items: seq<JSValue>, n: nat): View
    requires n <= |items|
  {
    if n == 0 then s else Put(PutAll(s, start, items, n - 1), start + n - 1, items[n - 1])
  }

  lemma {:induction false} PutAllAt(s: View, start: nat, items: seq<JSValue>, n: nat)
    requires n <= |items|
    ensures forall j: nat ::
              At(PutAll(s, start, items, n), j) == (if start <= j < start + n then Val(items[j - start]) else At(s, j))
    ensures |s| <= |PutAll(s, start, items, n)| <= Max(|s|, start + n)
  {
    hide Put, At;
    if n != 0 {
      PutAllAt(s, start, items, n - 1);
      PutAt(PutAll(s, start, items, n - 1), start + n - 1, items[n - 1]);
    }
  }

  /** Steps 22-23. */
  method StoreItems(o: EJSArray, start: nat, items: seq<JSValue>)
    requires o.Valid() && start + |items| <= MAX_KEY
    modifies o, o.Storage()
    ensures o.Valid() && fresh(o.Storage() - old(o.Storage()))
    ensures old(o.length) <= o.length <= Max(old(o.length), start + |items|)
    ensures forall j: nat ::
              At(o.View(), j) == (if start <= j < start + |items| then Val(items[j - start])
                                  else At(old(o.View()), j))
  {
    hide EJSArray.ChunksValid, EJSArray.Chunks, Put;
    ghost var s := o.View();
    var i := 0;
    while i < |items|
      invariant 0 <= i <= |items|
      invariant o.Valid() && fresh(o.Storage() - old(o.Storage()))
      invariant o.View() == PutAll(s, start, items, i)
    {
      o.Set(start + i, items[i]);
      i := i + 1;
    }
    PutAllAt(s, start, items, i);
  }

  /** What is known between moving the suffix and storing the items. */
  ghost predicate GapOpened(s: View, v: View, start: nat, count: nat, items: nat)
    requires start + count <= |s|
  {
    forall j: nat ::
      && (j < start ==> At(v, j) == At(s, j))
      && (start + items <= j < |s| - count + items ==> At(v, j) == Shifted(s, count, items, j))
  }

  lemma StoredIsSpliced(s: View, v: View, w: View, start: nat, count: nat, items: seq<JSValue>)
    requires start + count <= |s| && GapOpened(s, v, start, count, |items|)
    requires forall j: nat ::
               At(w, j) == (if start <= j < start + |items| then Val(items[j - start]) else At(v, j))
    ensures Resize(w, |s| - count + |items|) == Spliced(s, start, count, items)
  {
    var n := |s| - count + |items|;
    forall j: nat | j < n ensures At(w, j) == Spliced(s, start, count, items)[j] {
      assert At(v, j) == At(v, j);
    }
    assert forall j :: 0 <= j < n ==> Resize(w, n)[j] == At(w, j);
  }

  method OpenGap(o: EJSArray, start: nat, count: nat, items: nat)
    requires o.Valid() && start + count <= o.length <= MAX_KEY && o.length - count + items <= MAX_KEY
    modifies o, o.Storage()
    ensures o.Valid() && fresh(o.Storage() - old(o.Storage()))
    ensures GapOpened(old(o.View()), o.View(), start, count, items)
  {
    hide EJSArray.ChunksValid, EJSArray.Chunks;
    var len := o.length;
    if items < count {
      ShiftDown(o, start, count, items);
      DeleteTail(o, len - count + items);
    } else {
      ShiftUp(o, start, count, items);
    }
  }

  /** Steps 20-25: the array with count elements from start replaced by the items. */
  method Replace(o: EJSArray, start: nat, count: nat, items: seq<JSValue>)
    requires o.Valid() && start + count <= o.length <= MAX_KEY && o.length + |items| <= MAX_KEY
    modifies o, o.Storage()
    ensures o.Valid() && fresh(o.Storage() - old(o.Storage()))
    ensures o.View() == Spliced(old(o.View()), start, count, items)
  {
    hide EJSArray.ChunksValid, EJSArray.Chunks;
    ghost var s := o.View();
    var len := o.length;
    OpenGap(o, start, count, |items|);
    ghost var v := o.View();
    StoreItems(o, start, items);
    StoredIsSpliced(s, v, o.View(), start, count, items);
    o.SetLength(len - count + |items|);
  }

  /**
   * Array.prototype.splice.  The start must not have wrapped to outside the array, where the keys
   * would no longer be indices; lengths are in int range.
   */
  method Splice(o: EJSArray, args: Args) returns (a: EJSArray)
    requires o.Valid() && o.length <= MAX_KEY && Inside(o.length, args)
    requires o.length + |args.Items()| <= MAX_KEY
    modifies o, o.Storage()
    ensures o.Valid() && fresh(o.Storage() - old(o.Storage()))
    ensures a.Valid() && fresh(a) && fresh(a.Storage()) && a.Storage() !! o.Storage()
    ensures a.View() == RemovedBySplice(old(o.View()), args)
    ensures o.View() == LeftBySplice(old(o.View()), args)
    ensures var s := old(o.View());
      forall p: nat, c: nat :: AskedFor(|s|, args, true, p, c) ==>
        a.View() == s[p..p + c] && o.View() == s[..p] + Values(args.Items()) + s[p + c..]
  {
    ghost var s := o.View();
    var start := SpliceStart(o.length, args);
    var count := SpliceCount(o.length, start, args);
    CountFits(o.length, start, args);
    forall p: nat, c: nat | AskedFor(|s|, args, true, p, c) ensures p == start && c == count {
      AskedForIff(|s|, args, p, c);
    }
    SplicedIs(s, start, count, args.Items());
    hide AskedFor;
    hide EJSArray.ChunksValid, EJSArray.Chunks, SpliceStart, SpliceCount, Spliced;
    a := TakeAndReplace(o, start, count, args.Items());
  }

  /** Steps 14-25, once the range is known. */
  method TakeAndReplace(o: EJSArray, start: nat, count: nat, items: seq<JSValue>) returns (a: EJSArray)
    requires o.Valid() && start + count <= o.length <= MAX_KEY && o.length + |items| <= MAX_KEY
    modifies o, o.Storage()
    ensures o.Valid() && fresh(o.Storage() - old(o.Storage()))
    ensures a.Valid() && fresh(a) && fresh(a.Storage()) && a.Storage() !! o.Storage()
    ensures a.View() == old(o.View())[start..start + count]
    ensures o.View() == Spliced(old(o.View()), start, count, items)
  {
    hide EJSArray.ChunksValid, EJSArray.Chunks, Spliced;
    a := CollectRemoved(o, start, count);
    Replace(o, start, count, items);
  }

  // ---- toSpliced

  /** Array.prototype.toSpliced: the same edit on a fresh array, holes read as undefined. */
  method ToSpliced(o: EJSArray, args: Args) returns (a: EJSArray)
    requires o.Valid() && o.length <= MAX_KEY && o.length + |args.Items()| <= MAX_KEY
    ensures a.Valid() && fresh(a) && fresh(a.Storage())
    ensures a.View() == ToSplicedView(o.View(), args)
    ensures var s := o.View();
      forall p: nat, c: nat :: AskedFor(|s|, args, false, p, c) ==>
        a.View() == Filled(s[..p] + Values(args.Items()) + s[p + c..])
  {
    var start := ToSplicedStart(o.length, args);
    var skip := ToSplicedCount(o.length, start, args);
    forall p: nat, c: nat | AskedFor(o.length, args, false, p, c) ensures p == start && c == skip {
      AskedForIff(o.length, args, p, c);
    }
    hide AskedFor;
    a := NewArray(o.length + |args.Items()| - skip);
    FillSpliced(o, start, skip, args.Items(), a);
  }

  method FillSpliced(o: EJSArray, start: nat, skip: nat, items: seq<JSValue>, a: EJSArray)
    requires o.Valid() && a.Valid() && start + skip <= o.length <= MAX_KEY && o != a && o.Storage() !! a.Storage()
    requires a.length == o.length + |items| - skip <= MAX_KEY
    modifies a, a.Storage()
    ensures a.Valid() && fresh(a.Storage() - old(a.Storage()))
    ensures o.Valid() && o.View() == old(o.View())
    ensures a.View() == Filled(Spliced(o.View(), start, skip, items))
  {
    hide EJSArray.ChunksValid, EJSArray.Chunks, Filled, Spliced, ValueAt;
    ghost var want := Filled(Spliced(o.View(), start, skip, items));
    FilledParts(o.View(), start, skip, items);
    var newLen := a.length;
    CopyValues(o, 0, a, 0, start, want);
    StoreValues(o, a, start, items, want);
    CopyValues(o, start + skip, a, start + |items|, newLen, want);
    assert a.View() == a.View()[..newLen] && want == want[..newLen];
  }

  lemma FilledParts(s: View, start: nat, skip: nat, items: seq<JSValue>)
    requires start + skip <= |s|
    ensures var want := Filled(Spliced(s, start, skip, items));
      && |want| == |s| - skip + |items|
      && (forall j :: 0 <= j < start ==> want[j] == Val(ValueAt(s, j)))
      && (forall j :: 0 <= j < |items| ==> want[start + j] == Val(items[j]))
      && (forall j :: start + |items| <= j < |want| ==>
            want[j] == Val(ValueAt(s, start + skip + (j - (start + |items|)))))
  {
    hide ValueAt;
    var u := Spliced(s, start, skip, items);
    forall j | 0 <= j < start ensures ValueAt(u, j) == ValueAt(s, j) { SameSlot(u, j, s, j); }
    forall j | 0 <= j < |items| ensures Val(ValueAt(u, start + j)) == Val(items[j]) {
      SameSlot(u, start + j, Values(items), j);
      SameSlot(Values(items), j, [Val(items[j])], 0);
      ReadBack(items[j]);
    }
    forall j | start + |items| <= j < |u|
      ensures ValueAt(u, j) == ValueAt(s, start + skip + (j - (start + |items|)))
    {
      SameSlot(u, j, s, start + skip + (j - (start + |items|)));
    }
  }

  lemma SameSlot(s: View, i: nat, t: View, j: nat)
    requires i < |s| && j < |t| && s[i] == t[j]
    ensures ValueAt(s, i) == ValueAt(t, j)
  {
  }

  lemma ReadBack(v: JSValue)
    ensures ValueAt([Val(v)], 0) == v
  {
  }

  /** Copies values read from o, from index from on, to indices to up to end. */
  method CopyValues(o: EJSArray, from: nat, a: EJSArray, to: nat, end: nat, ghost want: View)
    requires o.Valid() && a.Valid() && o != a && o.Storage() !! a.Storage()
    requires to <= end <= a.length == |want| && a.length <= MAX_KEY && from + (end - to) <= o.length <= MAX_KEY
    requires a.View()[..to] == want[..to]
    requires forall j :: to <= j < end ==> want[j] == Val(ValueAt(o.View(), from + (j - to)))
    modifies a, a.Storage()
    ensures a.Valid() && fresh(a.Storage() - old(a.Storage())) && a.length == old(a.length)
    ensures o.Valid() && o.View() == old(o.View()) && o.Storage() == old(o.Storage()) && o.length == old(o.length)
    ensures a.View()[..end] == want[..end]
  {
    hide EJSArray.ChunksValid, EJSArray.Chunks, ValueAt;
    ghost var s := o.View();
    var i, r := to, from;
    while i < end
      invariant to <= i <= end && r == from + (i - to)
      invariant o.Valid() && o.View() == s && o.Storage() == old(o.Storage()) && o.length == old(o.length)
      invariant a.Valid() && fresh(a.Storage() - old(a.Storage())) && a.length == old(a.length)
      invariant a.View()[..i] == want[..i]
    {
      CopyValue(o, r, a, i, want);
      i, r := i + 1, r + 1;
    }
  }

  method CopyValue(o: EJSArray, r: nat, a: EJSArray, i: nat, ghost want: View)
    requires o.Valid() && a.Valid() && o != a && o.Storage() !! a.Storage() && r <= MAX_KEY
    requires i < a.length == |want| && a.length <= MAX_KEY
    requires a.View()[..i] == want[..i] && want[i] == Val(ValueAt(o.View(), r))
    modifies a, a.Storage()
    ensures a.Valid() && fresh(a.Storage() - old(a.Storage())) && a.length == old(a.length)
    ensures o.Valid() && o.View() == old(o.View()) && o.Storage() == old(o.Storage()) && o.length == old(o.length)
    ensures a.View()[..i + 1] == want[..i + 1]
  {
    hide EJSArray.ChunksValid, EJSArray.Chunks, ValueAt;
    var v := o.Get(r);
    StoreValue(o, a, i, v, want);
  }

  /** Stores the items; the other array is left as it was. */
  method StoreValues(o: EJSArray, a: EJSArray, start: nat, items: seq<JSValue>, ghost want: View)
    requires o.Valid() && a.Valid() && o != a && o.Storage() !! a.Storage()
    requires start + |items| <= a.length == |want| && a.length <= MAX_KEY
    requires a.View()[..start] == want[..start]
    requires forall j :: 0 <= j < |items| ==> want[start + j] == Val(items[j])
    modifies a, a.Storage()
    ensures a.Valid() && fresh(a.Storage() - old(a.Storage())) && a.length == old(a.length)
    ensures o.Valid() && o.View() == old(o.View()) && o.Storage() == old(o.Storage()) && o.length == old(o.length)
    ensures a.View()[..start + |items|] == want[..start + |items|]
  {
    hide EJSArray.ChunksValid, EJSArray.Chunks;
    ghost var s := o.View();
    var k := 0;
    while k < |items|
      invariant 0 <= k <= |items|
      invariant o.Valid() && o.View() == s && o.Storage() == old(o.Storage()) && o.length == old(o.length)
      invariant a.Valid() && fresh(a.Storage() - old(a.Storage())) && a.length == old(a.length)
      invariant a.View()[..start + k] == want[..start + k]
    {
      StoreValue(o, a, start + k, items[k], want);
      k := k + 1;
    }
  }

  /** One store; any other array is left as it was. */
  method StoreValue(o: EJSArray, a: EJSArray, i: nat, v: JSValue, ghost want: View)
    requires o.Valid() && a.Valid() && o != a && o.Storage() !! a.Storage()
    requires i < a.length == |want| && a.length <= MAX_KEY
    requires a.View()[..i] == want[..i] && want[i] == Val(v)
    modifies a, a.Storage()
    ensures a.Valid() && fresh(a.Storage() - old(a.Storage())) && a.length == old(a.length)
    ensures o.Valid() && o.View() == old(o.View()) && o.Storage() == old(o.Storage()) && o.length == old(o.length)
    ensures a.View()[..i + 1] == want[..i + 1]
  {
    hide EJSArray.ChunksValid, EJSArray.Chunks;
    ghost var before := a.View();
    a.Set(i, v);
    assert a.View() == before[i := Val(v)];
  }

  /**
   * For the arguments on which the edits agree, toSpliced of an array is what splice leaves in an
   * equal array, with its holes read as undefined.
   */
  method SpliceAndToSpliced(o: EJSArray, copy: EJSArray, args: Args) returns (result: EJSArray, removed: EJSArray)
    requires o.Valid() && copy.Valid() && o != copy && o.Storage() !! copy.Storage() && o.View() == copy.View()
    requires o.length <= MAX_KEY && o.length + |args.Items()| <= MAX_KEY && Inside(o.length, args)
    modifies copy, copy.Storage()
    ensures o.Valid() && o.View() == old(o.View())
    ensures copy.Valid() && result.Valid() && removed.Valid()
    ensures removed.View() == RemovedBySplice(o.View(), args)
    ensures Agreeable(o.length, args) ==> result.View() == Filled(copy.View())
  {
    hide EJSArray.ChunksValid, EJSArray.Chunks, Filled, LeftBySplice, RemovedBySplice, ToSplicedView;
    hide Agreeable, Inside, AskedFor;
    SpliceAgreesIff(o.length, args);
    result := ToSpliced(o, args);
    removed := Splice(copy, args);
  }
}
