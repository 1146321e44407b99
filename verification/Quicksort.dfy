/** SortCompare, partition and the in-place quicksort of a dense array: runtime/ejs-array.c. */
module Quicksort {
  import opened Elements
  import opened Arrays
  import opened Splicing

  /** What a comparator's answer is once converted to a number. */
  datatype Verdict = NotANumber | Num(r: real)

  /**
   * A comparator that leaves the array alone; without one, elements compare by their strings.  The code
   * does not look for holes: it hands them over like any other element.
   */
  datatype Comparator = User(f: (Slot, Slot) -> Verdict) | Default(str: Slot -> seq<nat>)

  const UNDEFINED := Val(Undefined)

  /** Code-unit order of two strings. */
  predicate StringLess(a: seq<nat>, b: seq<nat>)
    decreases |a|
  {
    if a == [] || b == [] then b != [] && a == []
    else a[0] < b[0] || (a[0] == b[0] && StringLess(a[1..], b[1..]))
  }

  function SortCompare(c: Comparator, x: Slot, y: Slot): real {
    if x == UNDEFINED && y == UNDEFINED then 0.0
    else if x == UNDEFINED then 1.0
    else if y == UNDEFINED then -1.0
    else match c
      case User(f) => if f(x, y).NotANumber? then 0.0 else f(x, y).r
      case Default(str) =>
        if StringLess(str(x), str(y)) then -1.0
        else if StringLess(str(y), str(x)) then 1.0
        else 0.0
  }

  /** The test the partition makes. */
  predicate Before(c: Comparator, x: Slot, pivot: Slot) { SortCompare(c, x, pivot) < 1.0 }

  // ---- the algorithm on values

  function Swap(s: seq<Slot>, i: nat, j: nat): (r: seq<Slot>)
    requires i < |s| && j < |s|
    ensures |r| == |s| && r[i] == s[j] && r[j] == s[i]
    ensures forall k :: 0 <= k < |s| && k != i && k != j ==> r[k] == s[k]
  {
    s[i := s[j]][j := s[i]]
  }

  /** The scan of partition from i on, with the pivot parked at hi and the store index at p. */
  function Scan(c: Comparator, s: seq<Slot>, i: nat, p: nat, hi: nat): (r: (seq<Slot>, nat))
    requires p <= i <= hi < |s|
    ensures |r.0| == |s| && p <= r.1 <= hi
    decreases hi - i
  {
    if i == hi then (Swap(s, p, hi), p)
    else if Before(c, s[i], s[hi]) then Scan(c, Swap(s, i, p), i + 1, p + 1, hi)
    else Scan(c, s, i + 1, p, hi)
  }

  function Partitioned(c: Comparator, s: seq<Slot>, lo: nat, hi: nat): (r: (seq<Slot>, nat))
    requires lo <= hi < |s|
    ensures |r.0| == |s| && lo <= r.1 <= hi
  {
    Scan(c, Swap(s, lo + (hi - lo) / 2, hi), lo, lo, hi)
  }

  /** The array after quicksort of the indices lo to hi - 1. */
  function Sorted(c: Comparator, s: seq<Slot>, lo: nat, hi: nat): (r: seq<Slot>)
    requires lo <= hi <= |s|
    ensures |r| == |s|
    decreases hi - lo
  {
    if hi <= lo + 1 then s
    else
      var (t, p) := Partitioned(c, s, lo, hi - 1);
      Sorted(c, Sorted(c, t, lo, p), p + 1, hi)
  }

  // ---- the algorithm in place

  method SwapDense(a: array<Slot>, i: nat, j: nat)
    requires i < a.Length && j < a.Length
    modifies a
    ensures a[..] == Swap(old(a[..]), i, j)
  {
    a[i], a[j] := a[j], a[i];
  }

  method Partition(c: Comparator, a: array<Slot>, low: nat, high: nat) returns (storeIndex: nat)
    requires low <= high < a.Length
    modifies a
    ensures (a[..], storeIndex) == Partitioned(c, old(a[..]), low, high)
  {
    hide Before, Swap;
    var pivotIndex := low + (high - low) / 2;
    var pivotValue := a[pivotIndex];
    SwapDense(a, pivotIndex, high);
    storeIndex := low;
    for i := low to high
      invariant low <= storeIndex <= i && a[high] == pivotValue
      invariant Scan(c, a[..], i, storeIndex, high) == Partitioned(c, old(a[..]), low, high)
    {
      if Before(c, a[i], pivotValue) {
        SwapDense(a, i, storeIndex);
        storeIndex := storeIndex + 1;
      }
    }
    SwapDense(a, storeIndex, high);
  }

  /** _ejs_array_quicksort_dense, both bounds inclusive. */
  method QuicksortDense(c: Comparator, a: array<Slot>, low: int, high: int)
    requires 0 <= low <= high + 1 <= a.Length
    modifies a
    ensures a[..] == Sorted(c, old(a[..]), low, high + 1)
    decreases high - low
  {
    hide Partitioned;
    if low >= high { return; }
    var p: int := Partition(c, a, low, high);
    QuicksortDense(c, a, low, p - 1);
    QuicksortDense(c, a, p + 1, high);
  }

  // ---- what it does to the array

  /** t permutes the values of s at the indices from lo to hi - 1 and has the same ones elsewhere. */
  ghost predicate Permutes(s: seq<Slot>, t: seq<Slot>, lo: nat, hi: nat)
  {
    && |s| == |t| && multiset(s) == multiset(t)
    && forall k :: 0 <= k < |s| && !(lo <= k < hi) ==> t[k] == s[k]
  }

  lemma PermutesTrans(s: seq<Slot>, t: seq<Slot>, u: seq<Slot>, lo: nat, hi: nat, lo': nat, hi': nat)
    requires Permutes(s, t, lo, hi) && Permutes(t, u, lo', hi') && lo <= lo' && hi' <= hi
    ensures Permutes(s, u, lo, hi)
  {
  }

  lemma SwapPermutes(s: seq<Slot>, i: nat, j: nat, lo: nat, hi: nat)
    requires lo <= i < hi <= |s| && lo <= j < hi
    ensures Permutes(s, Swap(s, i, j), lo, hi)
  {
  }

  lemma {:induction false} ScanPermutes(c: Comparator, s: seq<Slot>, i: nat, p: nat, hi: nat, lo: nat)
    requires lo <= p <= i <= hi < |s|
    ensures Permutes(s, Scan(c, s, i, p, hi).0, lo, hi + 1)
    decreases hi - i
  {
    hide Permutes, Before, Swap;
    if i == hi {
      SwapPermutes(s, p, hi, lo, hi + 1);
    } else if Before(c, s[i], s[hi]) {
      var t := Swap(s, i, p);
      SwapPermutes(s, i, p, lo, hi + 1);
      ScanPermutes(c, t, i + 1, p + 1, hi, lo);
      PermutesTrans(s, t, Scan(c, t, i + 1, p + 1, hi).0, lo, hi + 1, lo, hi + 1);
    } else {
      ScanPermutes(c, s, i + 1, p, hi, lo);
    }
  }

  lemma PartitionPermutes(c: Comparator, s: seq<Slot>, lo: nat, hi: nat)
    requires lo <= hi < |s|
    ensures Permutes(s, Partitioned(c, s, lo, hi).0, lo, hi + 1)
  {
    hide Permutes, Scan;
    var t := Swap(s, lo + (hi - lo) / 2, hi);
    SwapPermutes(s, lo + (hi - lo) / 2, hi, lo, hi + 1);
    ScanPermutes(c, t, lo, lo, hi, lo);
    PermutesTrans(s, t, Partitioned(c, s, lo, hi).0, lo, hi + 1, lo, hi + 1);
  }

  /** Quicksort permutes its range, whatever the comparator answers. */
  lemma {:induction false} SortedPermutes(c: Comparator, s: seq<Slot>, lo: nat, hi: nat)
    requires lo <= hi <= |s|
    ensures Permutes(s, Sorted(c, s, lo, hi), lo, hi)
    decreases hi - lo
  {
    hide Partitioned;
    if lo + 1 < hi {
      hide Permutes;
      var (t, p) := Partitioned(c, s, lo, hi - 1);
      var u := Sorted(c, t, lo, p);
      PartitionPermutes(c, s, lo, hi - 1);
      SortedPermutes(c, t, lo, p);
      SortedPermutes(c, u, p + 1, hi);
      PermutesTrans(s, t, u, lo, hi, lo, p);
      PermutesTrans(s, u, Sorted(c, u, p + 1, hi), lo, hi, p + 1, hi);
    }
  }

  lemma CountInParts(s: seq<Slot>, lo: nat, hi: nat, v: Slot)
    requires lo <= hi <= |s|
    ensures multiset(s)[v] == multiset(s[..lo])[v] + multiset(s[lo..hi])[v] + multiset(s[hi..])[v]
  {
    assert s == s[..lo] + s[lo..hi] + s[hi..];
  }

  /** The values of a permuted range come from that range. */
  lemma FromRange(s: seq<Slot>, t: seq<Slot>, lo: nat, hi: nat, k: nat) returns (j: nat)
    requires lo <= k < hi <= |s| && Permutes(s, t, lo, hi)
    ensures lo <= j < hi && t[k] == s[j]
  {
    var v := t[k];
    CountInParts(s, lo, hi, v);
    CountInParts(t, lo, hi, v);
    assert s[..lo] == t[..lo] && s[hi..] == t[hi..];
    assert t[lo..hi][k - lo] in multiset(t[lo..hi]);
    assert v in s[lo..hi];
    var i :| 0 <= i < hi - lo && s[lo..hi][i] == v;
    j := lo + i;
  }

  /** What the scan leaves: everything before the store index went before the pivot, the rest did not. */
  ghost predicate Split(c: Comparator, t: seq<Slot>, lo: nat, q: nat, hi: nat)
    requires lo <= q < hi <= |t|
  {
    && (forall k :: lo <= k < q ==> Before(c, t[k], t[q]))
    && (forall k :: q < k < hi ==> !Before(c, t[k], t[q]))
  }

  lemma {:induction false} ScanSplits(c: Comparator, s: seq<Slot>, i: nat, p: nat, hi: nat, lo: nat)
    requires lo <= p <= i <= hi < |s|
    requires forall k :: lo <= k < p ==> Before(c, s[k], s[hi])
    requires forall k :: p <= k < i ==> !Before(c, s[k], s[hi])
    ensures var (t, q) := Scan(c, s, i, p, hi); Split(c, t, lo, q, hi + 1)
    decreases hi - i
  {
    hide Before;
    if i < hi {
      if Before(c, s[i], s[hi]) {
        ScanSplits(c, Swap(s, i, p), i + 1, p + 1, hi, lo);
      } else {
        ScanSplits(c, s, i + 1, p, hi, lo);
      }
    }
  }

  lemma PartitionSplits(c: Comparator, s: seq<Slot>, lo: nat, hi: nat)
    requires lo <= hi < |s|
    ensures var (t, p) := Partitioned(c, s, lo, hi); Split(c, t, lo, p, hi + 1)
  {
    hide Split, Scan;
    ScanSplits(c, Swap(s, lo + (hi - lo) / 2, hi), lo, lo, hi, lo);
  }

  // ---- when the output is sorted

  /** The order a comparator's signs describe. */
  predicate Leq(c: Comparator, x: Slot, y: Slot) { SortCompare(c, x, y) <= 0.0 }

  /** On the given elements, the signs are those of a total preorder. */
  ghost predicate Consistent(c: Comparator, vs: iset<Slot>) {
    && (forall x, y :: x in vs && y in vs ==> Leq(c, x, y) || Leq(c, y, x))
    && (forall x, y, z :: x in vs && y in vs && z in vs && Leq(c, x, y) && Leq(c, y, z) ==> Leq(c, x, z))
  }

  /** On them, no answer strictly between 0 and 1: the answers on which cmp < 1 and cmp <= 0 differ. */
  ghost predicate NoFractions(c: Comparator, vs: iset<Slot>) {
    forall x, y :: x in vs && y in vs && Before(c, x, y) ==> Leq(c, x, y)
  }

  /** The elements of a range. */
  ghost predicate Within(s: seq<Slot>, lo: nat, hi: nat, vs: iset<Slot>)
    requires lo <= hi <= |s|
  {
    forall k :: lo <= k < hi ==> s[k] in vs
  }

  ghost function Elems(s: seq<Slot>): iset<Slot> { iset v | v in s }

  ghost predicate InOrder(c: Comparator, s: seq<Slot>, lo: nat, hi: nat)
    requires lo <= hi <= |s|
  {
    forall i, j :: lo <= i < j < hi ==> Leq(c, s[i], s[j])
  }

  lemma PermutesWithin(s: seq<Slot>, t: seq<Slot>, lo: nat, hi: nat, lo': nat, hi': nat, vs: iset<Slot>)
    requires lo <= lo' <= hi' <= hi <= |s| && Permutes(s, t, lo', hi') && Within(s, lo, hi, vs)
    ensures Within(t, lo, hi, vs)
  {
    forall k | lo <= k < hi ensures t[k] in vs {
      if lo' <= k < hi' { var j := FromRange(s, t, lo', hi', k); }
    }
  }

  lemma WithinPart(s: seq<Slot>, lo: nat, hi: nat, lo': nat, hi': nat, vs: iset<Slot>)
    requires lo <= lo' <= hi' <= hi <= |s| && Within(s, lo, hi, vs)
    ensures Within(s, lo', hi', vs)
  {
  }

  /** A comparator consistent on the elements sorted, and without fractions on them, sorts them. */
  lemma {:induction false} SortedInOrder(c: Comparator, s: seq<Slot>, lo: nat, hi: nat, vs: iset<Slot>)
    requires lo <= hi <= |s| && Within(s, lo, hi, vs) && Consistent(c, vs) && NoFractions(c, vs)
    ensures InOrder(c, Sorted(c, s, lo, hi), lo, hi)
    decreases hi - lo
  {
    hide *;
    if hi <= lo + 1 {
      ShortInOrder(c, s, lo, hi);
    } else {
      var (t, p) := Partitioned(c, s, lo, hi - 1);
      PartitionPermutes(c, s, lo, hi - 1);
      PartitionSplits(c, s, lo, hi - 1);
      PermutesWithin(s, t, lo, hi, lo, hi, vs);
      var u := Sorted(c, t, lo, p);
      SortedPermutes(c, t, lo, p);
      PermutesWithin(t, u, lo, hi, lo, p, vs);
      var v := Sorted(c, u, p + 1, hi);
      SortedPermutes(c, u, p + 1, hi);
      PermutesWithin(u, v, lo, hi, p + 1, hi, vs);
      WithinPart(t, lo, hi, lo, p, vs);
      WithinPart(u, lo, hi, p + 1, hi, vs);
      SortedInOrder(c, t, lo, p, vs);
      SortedInOrder(c, u, p + 1, hi, vs);
      JoinAtPivot(c, t, u, v, lo, p, hi, vs);
      SortedUnfold(c, s, lo, hi);
    }
  }

  lemma SortedUnfold(c: Comparator, s: seq<Slot>, lo: nat, hi: nat)
    requires lo + 1 < hi <= |s|
    ensures var (t, p) := Partitioned(c, s, lo, hi - 1);
      Sorted(c, s, lo, hi) == Sorted(c, Sorted(c, t, lo, p), p + 1, hi)
  {
    hide Partitioned;
  }

  lemma ShortInOrder(c: Comparator, s: seq<Slot>, lo: nat, hi: nat)
    requires lo <= hi <= |s| && hi <= lo + 1
    ensures InOrder(c, Sorted(c, s, lo, hi), lo, hi)
  {
  }

  /** Two sorted halves around the pivot are one sorted range. */
  lemma JoinAtPivot(c: Comparator, t: seq<Slot>, u: seq<Slot>, v: seq<Slot>, lo: nat, p: nat, hi: nat, vs: iset<Slot>)
    requires lo <= p < hi <= |t| && Consistent(c, vs) && NoFractions(c, vs) && Split(c, t, lo, p, hi)
    requires Permutes(t, u, lo, p) && InOrder(c, u, lo, p)
    requires Permutes(u, v, p + 1, hi) && InOrder(c, v, p + 1, hi)
    requires Within(t, lo, hi, vs) && Within(v, lo, hi, vs)
    ensures InOrder(c, v, lo, hi)
  {
    hide Before, Leq;
    forall k | lo <= k < p ensures Leq(c, v[k], v[p]) {
      var j := FromRange(t, u, lo, p, k);
      assert Before(c, t[j], t[p]);
    }
    forall k | p < k < hi ensures Leq(c, v[p], v[k]) {
      var j := FromRange(u, v, p + 1, hi, k);
      assert !Before(c, t[j], t[p]);
      NotBefore(c, v[k], v[p], vs);
    }
    JoinOrder(c, v, lo, p, hi, vs);
  }

  lemma NotBefore(c: Comparator, x: Slot, y: Slot, vs: iset<Slot>)
    requires Consistent(c, vs) && x in vs && y in vs && !Before(c, x, y)
    ensures Leq(c, y, x)
  {
    assert Leq(c, x, y) || Leq(c, y, x);
  }

  lemma JoinOrder(c: Comparator, v: seq<Slot>, lo: nat, p: nat, hi: nat, vs: iset<Slot>)
    requires lo <= p < hi <= |v| && Consistent(c, vs) && Within(v, lo, hi, vs)
    requires forall i, j :: lo <= i < j < p ==> Leq(c, v[i], v[j])
    requires InOrder(c, v, p + 1, hi)
    requires forall k :: lo <= k < p ==> Leq(c, v[k], v[p])
    requires forall k :: p < k < hi ==> Leq(c, v[p], v[k])
    ensures InOrder(c, v, lo, hi)
  {
    hide Leq;
    forall i, j | lo <= i < j < hi ensures Leq(c, v[i], v[j]) {
      if i < p < j { assert Leq(c, v[i], v[p]) && Leq(c, v[p], v[j]); }
    }
  }

  /** A comparator consistent on some elements sorts every array of them exactly when it never answers in (0, 1). */
  lemma {:induction false} SortsEveryArrayIff(c: Comparator, vs: iset<Slot>)
    requires Consistent(c, vs)
    ensures NoFractions(c, vs) <==>
      forall s: seq<Slot> :: Within(s, 0, |s|, vs) ==> InOrder(c, Sorted(c, s, 0, |s|), 0, |s|)
  {
    if NoFractions(c, vs) {
      forall s: seq<Slot> | Within(s, 0, |s|, vs) ensures InOrder(c, Sorted(c, s, 0, |s|), 0, |s|) {
        SortedInOrder(c, s, 0, |s|, vs);
      }
    } else {
      var x, y :| x in vs && y in vs && Before(c, x, y) && !Leq(c, x, y);
      FractionMissorts(c, x, y);
      assert Within([y, x], 0, 2, vs);
    }
  }

  /** An answer in (0, 1) for x against y leaves x before y, although it says x comes after. */
  lemma FractionMissorts(c: Comparator, x: Slot, y: Slot)
    requires Before(c, x, y) && !Leq(c, x, y)
    ensures Sorted(c, [y, x], 0, 2) == [x, y] && !InOrder(c, Sorted(c, [y, x], 0, 2), 0, 2)
  {
    hide Before, Leq;
    var s := [y, x];
    var t := Swap(s, 0, 1);
    assert t == [x, y];
    assert Swap(t, 0, 0) == t && Swap(t, 1, 1) == t;
    assert Scan(c, t, 0, 0, 1) == Scan(c, Swap(t, 0, 0), 1, 1, 1) == (t, 1);
    assert Partitioned(c, s, 0, 1) == (t, 1);
    assert Sorted(c, t, 0, 1) == t && Sorted(c, t, 2, 2) == t;
    assert Leq(c, t[0], t[1]) ==> false;
  }

  /** Half the difference of two numbers, an answer of one half for 1 and 0. */
  function HalfDifference(x: Slot, y: Slot): Verdict {
    match Minus(x, y)
    case NotANumber => NotANumber
    case Num(r) => Num(r / 2.0)
  }

  /** It says that 1 comes after 0, and the sort puts it first. */
  lemma HalfDifferenceMissorts()
    ensures Sorted(User(HalfDifference), [Val(Prim(0)), Val(Prim(1))], 0, 2) == [Val(Prim(1)), Val(Prim(0))]
    ensures HalfDifference(Val(Prim(1)), Val(Prim(0))) == Num(0.5)
  {
    FractionMissorts(User(HalfDifference), Val(Prim(1)), Val(Prim(0)));
  }

  // ---- what the order means for the array

  /** In a sorted array everything after an undefined is undefined. */
  lemma UndefinedLast(c: Comparator, s: seq<Slot>, i: nat, j: nat)
    requires InOrder(c, s, 0, |s|) && i < j < |s| && s[i] == UNDEFINED
    ensures s[j] == UNDEFINED
  {
    assert Leq(c, s[i], s[j]);
  }

  /** The comparator says that its first argument comes after its second. */
  predicate SaysAfter(v: Verdict) { v.Num? && 0.0 < v.r }

  lemma UserLeq(f: (Slot, Slot) -> Verdict, x: Slot, y: Slot)
    ensures Leq(User(f), x, y) <==> y == UNDEFINED || (x != UNDEFINED && !SaysAfter(f(x, y)))
  {
  }

  /** a comes first at the first code unit where the strings differ, or ends there. */
  predicate FirstDifferenceBelow(a: seq<nat>, b: seq<nat>) {
    exists k :: 0 <= k <= |a| && k < |b| && a[..k] == b[..k] && (k == |a| || a[k] < b[k])
  }

  lemma {:induction false} StringLessIff(a: seq<nat>, b: seq<nat>)
    ensures StringLess(a, b) <==> FirstDifferenceBelow(a, b)
    decreases |a|
  {
    if a == [] || b == [] {
      if b != [] { assert a[..0] == b[..0]; }
    } else if a[0] == b[0] {
      StringLessIff(a[1..], b[1..]);
      if k :| 0 <= k <= |a[1..]| && k < |b[1..]| && a[1..][..k] == b[1..][..k]
              && (k == |a[1..]| || a[1..][k] < b[1..][k]) {
        assert a[..k + 1] == [a[0]] + a[1..][..k] && b[..k + 1] == [b[0]] + b[1..][..k];
      }
      if k :| 0 < k <= |a| && k < |b| && a[..k] == b[..k] && (k == |a| || a[k] < b[k]) {
        assert a[1..][..k - 1] == a[..k][1..] && b[1..][..k - 1] == b[..k][1..];
      }
    } else if a[0] < b[0] {
      assert a[..0] == b[..0];
    } else {
      forall k | 0 < k <= |a| && k < |b| ensures a[..k] != b[..k] {
        assert a[..k][0] == a[0] && b[..k][0] == b[0];
      }
    }
  }

  /** The order, without SortCompare: undefined last, and before it no answer or text the wrong way round. */
  ghost predicate Arranged(c: Comparator, s: seq<Slot>) {
    forall i, j :: 0 <= i < j < |s| ==>
      && (s[i] == UNDEFINED ==> s[j] == UNDEFINED)
      && (s[i] != UNDEFINED && s[j] != UNDEFINED ==>
            match c
            case User(f) => !SaysAfter(f(s[i], s[j]))
            case Default(str) => str(s[i]) == str(s[j]) || FirstDifferenceBelow(str(s[i]), str(s[j])))
  }

  lemma ArrangedIff(c: Comparator, s: seq<Slot>)
    ensures InOrder(c, s, 0, |s|) <==> Arranged(c, s)
  {
    forall i, j | 0 <= i < j < |s|
      ensures Leq(c, s[i], s[j]) <==>
        && (s[i] == UNDEFINED ==> s[j] == UNDEFINED)
        && (s[i] != UNDEFINED && s[j] != UNDEFINED ==>
              match c
              case User(f) => !SaysAfter(f(s[i], s[j]))
              case Default(str) => str(s[i]) == str(s[j]) || FirstDifferenceBelow(str(s[i]), str(s[j])))
    {
      hide Leq, FirstDifferenceBelow;
      match c
      case User(f) => UserLeq(f, s[i], s[j]);
      case Default(str) =>
        DefaultLeq(str, s[i], s[j]);
        StringLessIff(str(s[i]), str(s[j]));
    }
  }

  /** Subtraction of numbers, the usual comparator: NaN unless both are numbers. */
  function Minus(x: Slot, y: Slot): Verdict {
    if x.Val? && x.v.Prim? && y.Val? && y.v.Prim? then Num((x.v.id - y.v.id) as real) else NotANumber
  }

  /** It is not consistent on all values, but puts the numbers of an array in ascending order, then undefined. */
  lemma SubtractionSortsNumbers(s: seq<Slot>)
    requires forall k :: 0 <= k < |s| ==> s[k].Val? && !s[k].v.Arr?
    ensures var t := Sorted(User(Minus), s, 0, |s|);
      && multiset(t) == multiset(s)
      && forall i, j :: 0 <= i < j < |t| ==>
           t[i].Val? && t[j].Val? && (t[j].v == Undefined || (t[i].v.Prim? && t[j].v.Prim? && t[i].v.id <= t[j].v.id))
    ensures !Consistent(User(Minus), iset{Val(Prim(1)), Val(Arr([])), Val(Prim(0))})
  {
    hide Sorted, InOrder;
    SubtractionIsConsistent(Elems(s));
    SortedInOrder(User(Minus), s, 0, |s|, Elems(s));
    var t := Sorted(User(Minus), s, 0, |s|);
    SortedPermutes(User(Minus), s, 0, |s|);
    ArrangedIff(User(Minus), t);
    forall k | 0 <= k < |t| ensures t[k].Val? && !t[k].v.Arr? {
      assert t[k] in multiset(t);
    }
    assert Leq(User(Minus), Val(Prim(1)), Val(Arr([]))) && Leq(User(Minus), Val(Arr([])), Val(Prim(0)));
    assert !Leq(User(Minus), Val(Prim(1)), Val(Prim(0)));
  }

  lemma SubtractionIsConsistent(vs: iset<Slot>)
    requires forall v :: v in vs ==> v.Val? && !v.v.Arr?
    ensures Consistent(User(Minus), vs) && NoFractions(User(Minus), vs)
  {
  }

  /** Array.prototype.sort on a dense array; for a sparse one it is not implemented. */
  method Sort(c: Comparator, o: EJSArray)
    requires !o.sparse && o.Valid()
    modifies o.elements
    ensures o.Valid() && o.length == old(o.length)
    ensures Permutes(old(o.View()), o.View(), 0, o.length)
    ensures Consistent(c, Elems(old(o.View()))) && NoFractions(c, Elems(old(o.View())))
      ==> InOrder(c, o.View(), 0, o.length) && Arranged(c, o.View())
    ensures c.Default? ==> InOrder(c, o.View(), 0, o.length) && Arranged(c, o.View())
  {
    ghost var s, e := o.View(), o.elements[..];
    var n: int := o.length;
    assert s == e[..n];
    hide InOrder, Sorted, Permutes, Consistent, NoFractions, Arranged;
    QuicksortDense(c, o.elements, 0, n - 1);
    SortedPermutes(c, e, 0, n);
    PrefixPermutes(e, o.elements[..], n);
    if c.Default? { DefaultIsConsistent(c.str, Elems(s)); }
    if Consistent(c, Elems(s)) && NoFractions(c, Elems(s)) {
      SortedInOrder(c, e, 0, n, Elems(s));
      PrefixInOrder(c, o.elements[..], n);
      ArrangedIff(c, o.View());
    }
  }

  /** Array.prototype.toSorted, whose copy is dense up to the cutoff: holes are read as undefined, then sorted. */
  method ToSorted(c: Comparator, o: EJSArray) returns (a: EJSArray)
    requires o.Valid() && o.length <= SPARSE_CUTOFF
    ensures a.Valid() && fresh(a) && fresh(a.Storage())
    ensures Permutes(Filled(o.View()), a.View(), 0, o.length)
    ensures Consistent(c, Elems(Filled(o.View()))) && NoFractions(c, Elems(Filled(o.View())))
      ==> InOrder(c, a.View(), 0, o.length) && Arranged(c, a.View())
    ensures c.Default? ==> InOrder(c, a.View(), 0, o.length) && Arranged(c, a.View())
  {
    a := NewArray(o.length);
    CopyAndSort(c, o, a);
  }

  method CopyAndSort(c: Comparator, o: EJSArray, a: EJSArray)
    requires o.Valid() && a.Valid() && !a.sparse && o != a && o.Storage() !! a.Storage()
    requires a.length == o.length <= SPARSE_CUTOFF
    modifies a, a.Storage()
    ensures o.Valid() && o.View() == old(o.View())
    ensures a.Valid() && fresh(a.Storage() - old(a.Storage()))
    ensures Permutes(Filled(o.View()), a.View(), 0, o.length)
    ensures Consistent(c, Elems(Filled(o.View()))) && NoFractions(c, Elems(Filled(o.View())))
      ==> InOrder(c, a.View(), 0, o.length) && Arranged(c, a.View())
    ensures c.Default? ==> InOrder(c, a.View(), 0, o.length) && Arranged(c, a.View())
  {
    hide InOrder, Permutes, Consistent, NoFractions, Arranged, EJSArray.ChunksValid, EJSArray.Chunks;
    CopyValues(o, 0, a, 0, o.length, Filled(o.View()));
    assert a.View() == a.View()[..o.length] == Filled(o.View())[..o.length] == Filled(o.View());
    Sort(c, a);
  }

  lemma PrefixPermutes(s: seq<Slot>, t: seq<Slot>, n: nat)
    requires n <= |s| && Permutes(s, t, 0, n)
    ensures Permutes(s[..n], t[..n], 0, n)
  {
    assert s[n..] == t[n..];
    assert s == s[..n] + s[n..] && t == t[..n] + t[n..];
    CancelSuffix(s[..n], t[..n], s[n..]);
  }

  lemma CancelSuffix(a: seq<Slot>, b: seq<Slot>, c: seq<Slot>)
    requires multiset(a + c) == multiset(b + c)
    ensures multiset(a) == multiset(b)
  {
    assert multiset(a) == multiset(a + c) - multiset(c);
    assert multiset(b) == multiset(b + c) - multiset(c);
  }

  lemma PrefixInOrder(c: Comparator, s: seq<Slot>, n: nat)
    requires n <= |s| && InOrder(c, s, 0, n)
    ensures InOrder(c, s[..n], 0, n)
  {
  }

  // ---- the default comparator

  lemma {:induction false} StringLessIsStrict(a: seq<nat>, b: seq<nat>)
    ensures !(StringLess(a, b) && StringLess(b, a))
    ensures !StringLess(a, b) && !StringLess(b, a) ==> a == b
    decreases |a|
  {
    if a != [] && b != [] {
      StringLessIsStrict(a[1..], b[1..]);
      assert a == [a[0]] + a[1..] && b == [b[0]] + b[1..];
    }
  }

  lemma {:induction false} StringLessTrans(a: seq<nat>, b: seq<nat>, c: seq<nat>)
    requires StringLess(a, b) && StringLess(b, c)
    ensures StringLess(a, c)
    decreases |a|
  {
    if a != [] && b != [] && c != [] && a[0] == b[0] && b[0] == c[0] {
      StringLessTrans(a[1..], b[1..], c[1..]);
    }
  }

  /** Without a comparator the sort is by string, and always sorts. */
  lemma {:induction false} DefaultSorts(str: Slot -> seq<nat>, s: seq<Slot>)
    ensures InOrder(Default(str), Sorted(Default(str), s, 0, |s|), 0, |s|)
  {
    DefaultIsConsistent(str, Elems(s));
    SortedInOrder(Default(str), s, 0, |s|, Elems(s));
  }

  lemma DefaultIsConsistent(str: Slot -> seq<nat>, vs: iset<Slot>)
    ensures Consistent(Default(str), vs) && NoFractions(Default(str), vs)
  {
    var c := Default(str);
    forall x, y ensures Leq(c, x, y) || Leq(c, y, x) { StringLessIsStrict(str(x), str(y)); }
    forall x, y, z | Leq(c, x, y) && Leq(c, y, z) ensures Leq(c, x, z) {
      DefaultLeq(str, x, y);
      DefaultLeq(str, y, z);
      DefaultLeq(str, x, z);
      if x != UNDEFINED && y != UNDEFINED && z != UNDEFINED && str(x) != str(y) && str(y) != str(z) {
        StringLessTrans(str(x), str(y), str(z));
      }
    }
  }

  lemma DefaultLeq(str: Slot -> seq<nat>, x: Slot, y: Slot)
    ensures Leq(Default(str), x, y) <==>
            y == UNDEFINED || (x != UNDEFINED && (str(x) == str(y) || StringLess(str(x), str(y))))
  {
    StringLessIsStrict(str(x), str(y));
  }
}
