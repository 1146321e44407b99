/**
 * The abstract state of an array: a length and a partial map from the indices below it, kept as
 * the sequence of its slots.  Both element representations are proved to be this sequence.
 */
module Elements {

  datatype JSValue = Undefined | Prim(id: int) | Arr(elems: seq<Slot>)

  datatype Slot = Hole | Val(v: JSValue)

  type View = seq<Slot>

  function At(s: View, i: nat): Slot { if i < |s| then s[i] else Hole }

  /** What a read answers: holes and indices past the end are undefined. */
  function ValueAt(s: View, i: nat): JSValue { if At(s, i).Val? then At(s, i).v else Undefined }

  function Holes(n: nat): (s: View)
    ensures |s| == n && forall i :: 0 <= i < n ==> s[i] == Hole
  {
    seq(n, _ => Hole)
  }

  /** A state with no holes. */
  function Values(items: seq<JSValue>): (s: View)
    ensures |s| == |items| && forall i :: 0 <= i < |items| ==> s[i] == Val(items[i])
  {
    seq(|items|, i requires 0 <= i < |items| => Val(items[i]))
  }

  function Pad(s: View, n: nat): (r: View)
    ensures |r| == if |s| < n then n else |s|
    ensures forall i: nat :: At(r, i) == At(s, i)
  {
    if |s| < n then s + Holes(n - |s|) else s
  }

  function Put(s: View, i: nat, v: JSValue): View { Pad(s, i + 1)[i := Val(v)] }

  function Removed(s: View, i: nat): View { if i < |s| then s[i := Hole] else s }

  function Resize(s: View, n: nat): View { Pad(s, n)[..n] }

  /** A hole at i, with the length raised to cover it. */
  function Hollowed(s: View, i: nat): View { Pad(s, i + 1)[i := Hole] }

  // ---- runs of array operations

  datatype Op =
    | Get(i: nat)
    | Has(i: nat)
    | Set(i: nat, v: JSValue)
    | Define(i: nat, desc: Slot)  // a data descriptor, Hole when it carries no value
    | Delete(i: nat)
    | SetLength(n: nat)

  datatype Answer = Value(v: JSValue) | Flag(b: bool)

  function Step(s: View, op: Op): View {
    match op
    case Get(_) => s
    case Has(_) => s
    case Set(i, v) => Put(s, i, v)
    case Define(i, desc) => if desc.Val? then Put(s, i, desc.v) else s
    case Delete(i) => Removed(s, i)
    case SetLength(n) => Resize(s, n)
  }

  function Reply(s: View, op: Op): Answer {
    match op
    case Get(i) => Value(ValueAt(s, i))
    case Has(i) => Flag(At(s, i).Val?)
    case _ => Flag(true)
  }

  /** The value each slot holds after an operation, and the length: stores, deletes and cuts, slot by slot. */
  lemma StepSlots(s: View, op: Op)
    ensures var t := Step(s, op);
      && |t| == (match op
                 case Set(i, _) => if |s| <= i then i + 1 else |s|
                 case Define(i, desc) => if desc.Val? && |s| <= i then i + 1 else |s|
                 case SetLength(n) => n
                 case _ => |s|)
      && forall j :: 0 <= j < |t| ==>
           t[j] == (if op == Delete(j) then Hole
                    else if op.Set? && op.i == j then Val(op.v)
                    else if op.Define? && op.i == j && op.desc.Val? then op.desc
                    else if j < |s| then s[j]
                    else Hole)
  {
  }

  /** What a read or a presence test answers, slot by slot; the other operations succeed. */
  lemma ReplySlots(s: View, op: Op)
    ensures match op
      case Get(i) =>
        && (i < |s| && s[i].Val? ==> Reply(s, op) == Value(s[i].v))
        && (i < |s| && s[i].Hole? ==> Reply(s, op) == Value(Undefined))
        && (|s| <= i ==> Reply(s, op) == Value(Undefined))
      case Has(i) => Reply(s, op) == Flag(true) || Reply(s, op) == Flag(false)
      case _ => Reply(s, op) == Flag(true)
    ensures op.Has? ==> (Reply(s, op) == Flag(true) <==> op.i < |s| && s[op.i].Val?)
  {
  }

  /** What an accessor define leaves, slot by slot. */
  lemma HollowedSlots(s: View, i: nat)
    ensures var t := Hollowed(s, i);
      && |t| == (if |s| <= i then i + 1 else |s|)
      && forall j :: 0 <= j < |t| ==> t[j] == if j == i || |s| <= j then Hole else s[j]
  {
  }

  function After(s: View, ops: seq<Op>): View
    decreases |ops|
  {
    if ops == [] then s else After(Step(s, ops[0]), ops[1..])
  }

  function Replies(s: View, ops: seq<Op>): seq<Answer>
    decreases |ops|
  {
    if ops == [] then [] else [Reply(s, ops[0])] + Replies(Step(s, ops[0]), ops[1..])
  }

  lemma RunNil(s: View, ops: seq<Op>)
    requires ops == []
    ensures After(s, ops) == s && Replies(s, ops) == []
  {
  }

  lemma {:induction false} RunSnoc(s: View, ops: seq<Op>, op: Op)
    ensures After(s, ops + [op]) == Step(After(s, ops), op)
    ensures Replies(s, ops + [op]) == Replies(s, ops) + [Reply(After(s, ops), op)]
    decreases |ops|
  {
    if ops != [] {
      assert (ops + [op])[1..] == ops[1..] + [op];
      RunSnoc(Step(s, ops[0]), ops[1..], op);
    } else {
      assert ([op])[1..] == [];
    }
  }

  /** Operations that store a value at index i. */
  predicate Stores(op: Op, i: nat) {
    (op.Set? && op.i == i) || (op.Define? && op.desc.Val? && op.i == i)
  }

  /** An index that is absent stays absent, whatever else runs, until something is stored there. */
  lemma {:induction false} AbsentUntilStored(s: View, ops: seq<Op>, i: nat)
    requires At(s, i) == Hole
    requires forall k :: 0 <= k < |ops| ==> !Stores(ops[k], i)
    ensures At(After(s, ops), i) == Hole
    decreases |ops|
  {
    if ops != [] {
      var t := Step(s, ops[0]);
      assert !Stores(ops[0], i);
      assert At(t, i) == Hole;
      AbsentUntilStored(t, ops[1..], i);
    }
  }

  /** A shrink hides the elements it drops for good: growing again brings none of them back. */
  lemma StaleSlackStaysHidden(s: View, n: nat, ops: seq<Op>, i: nat)
    requires n <= i
    requires forall k :: 0 <= k < |ops| ==> !Stores(ops[k], i)
    ensures At(After(s, [SetLength(n)] + ops), i) == Hole
  {
    assert ([SetLength(n)] + ops)[1..] == ops;
    AbsentUntilStored(Resize(s, n), ops, i);
  }

  // ---- listing the present indices

  /** The indices below n that hold a value, ascending. */
  function PresentBelow(s: View, n: nat): seq<nat>
    requires n <= |s|
  {
    if n == 0 then [] else PresentBelow(s, n - 1) + if s[n - 1].Val? then [n - 1] else []
  }

  /** The listing is strictly ascending and has exactly the present indices. */
  lemma {:induction false} PresentIsExact(s: View, n: nat)
    requires n <= |s|
    ensures var p := PresentBelow(s, n);
      && (forall i, j :: 0 <= i < j < |p| ==> p[i] < p[j])
      && (forall i :: 0 <= i < |p| ==> p[i] < n)
      && (forall i: nat :: i in p <==> i < n && s[i].Val?)
  {
    if n != 0 { PresentIsExact(s, n - 1); }
  }

  /** The present values below n, in the order of their indices. */
  function PresentValues(s: View, n: nat): seq<JSValue>
    requires n <= |s|
  {
    PresentIsExact(s, n);
    var p := PresentBelow(s, n);
    assert forall k :: 0 <= k < |p| ==> p[k] in p;
    seq(|p|, k requires 0 <= k < |p| => s[p[k]].v)
  }

  lemma {:induction false} NothingBetween(s: View, a: nat, b: nat)
    requires a <= b <= |s| && forall i :: a <= i < b ==> s[i] == Hole
    ensures PresentBelow(s, b) == PresentBelow(s, a)
  {
    if a < b { NothingBetween(s, a, b - 1); }
  }
}
