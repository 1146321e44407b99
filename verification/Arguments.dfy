/** The arguments object, whose side buffer answers for its property map: runtime/ejs-arguments.c. */
module Arguments {
  import opened Elements
  import opened Options
  import opened Properties

  const INT32_MAX := 0x7FFF_FFFF

  /** A key as callers pass it: numbers are not yet strings. */
  datatype Key =
    | Num(n: int)            // a number with an integral value
    | OtherNum(text: string) // any other number, and its text
    | Str(text: string)
    | Sym(id: nat)

  // ---- decimal text

  function DigitChar(d: nat): char
    requires d < 10
  {
    '0' + d as char
  }

  predicate IsDigit(c: char) { '0' <= c <= '9' }

  function DigitValue(c: char): (d: nat)
    requires IsDigit(c)
    ensures d < 10
  {
    (c - '0') as nat
  }

  predicate AllDigits(s: string) { forall i :: 0 <= i < |s| ==> IsDigit(s[i]) }

  /** The text of a number with an integral value. */
  function Decimal(n: nat): (s: string)
    ensures AllDigits(s) && s != ""
  {
    if n < 10 then [DigitChar(n)] else Decimal(n / 10) + [DigitChar(n % 10)]
  }

  /** The number some digits denote. */
  function Read(s: string): nat
    requires AllDigits(s)
    decreases |s|
  {
    if s == "" then 0 else 10 * Read(s[..|s| - 1]) + DigitValue(s[|s| - 1])
  }

  /** Digits without a leading zero, except "0" itself. */
  predicate Canonical(s: string) { s != "" && AllDigits(s) && (1 < |s| ==> s[0] != '0') }

  lemma {:induction false} ReadDecimal(n: nat)
    ensures Canonical(Decimal(n)) && Read(Decimal(n)) == n
    ensures 0 < n ==> Decimal(n)[0] != '0'
  {
    if 10 <= n {
      ReadDecimal(n / 10);
      assert Decimal(n)[..|Decimal(n)| - 1] == Decimal(n / 10);
    } else {
      assert Decimal(n)[..0] == "";
    }
  }

  lemma {:induction false} DecimalRead(s: string)
    requires Canonical(s)
    ensures Decimal(Read(s)) == s
    ensures s[0] != '0' ==> 0 < Read(s)
    decreases |s|
  {
    var n := |s| - 1;
    if n == 0 {
      assert s[..0] == "" && s == [s[0]];
    } else {
      DecimalRead(s[..n]);
      assert s == s[..n] + [s[n]];
    }
  }

  lemma {:induction false} DecimalLength(n: nat, k: nat, p: nat)
    requires 0 < k && p == Power10(k)
    ensures |Decimal(n)| <= k <==> n < p
    decreases k
  {
    if k == 1 {
      assert Power10(1) == 10 * Power10(0);
    } else {
      if 10 <= n { DecimalLength(n / 10, k - 1, Power10(k - 1)); } else { assert Power10(k - 1) >= 1; }
    }
  }

  function Power10(k: nat): (p: nat)
    ensures 1 <= p
  {
    if k == 0 then 1 else 10 * Power10(k - 1)
  }

  // ---- reading a key as an index

  function ToPropertyKey(k: Key): PropKey {
    match k
    case Num(n) => Name(if 0 <= n then Decimal(n) else "-" + Decimal(-n))
    case OtherNum(text) => Name(text)
    case Str(text) => Name(text)
    case Sym(id) => Symbol(id)
  }

  /** What arguments_index answers; -1 when the key is not read as an index. */
  function IndexOf(k: Key): int {
    match k
    case Num(n) => if 0 <= n <= INT32_MAX then n else -1
    case OtherNum(_) => -1
    case Str(text) => if |text| <= 9 && Canonical(text) then Read(text) else -1
    case Sym(_) => -1
  }

  lemma ReadOneMore(s: string, i: nat)
    requires i < |s| && AllDigits(s[..i]) && IsDigit(s[i])
    ensures AllDigits(s[..i + 1]) && Read(s[..i + 1]) == 10 * Read(s[..i]) + DigitValue(s[i])
  {
    assert s[..i + 1][..i] == s[..i];
  }

  method ArgumentsIndex(k: Key) returns (r: int)
    ensures r == IndexOf(k)
  {
    match k
    case Num(n) =>
      if 0 <= n && n <= INT32_MAX { return n; }
      return -1;
    case Str(chars) =>
      var len := |chars|;
      if len < 1 || len > 9 { return -1; }
      if len > 1 && chars[0] == '0' { return -1; }
      var v := 0;
      for i := 0 to len
        invariant AllDigits(chars[..i]) && v == Read(chars[..i])
      {
        var c := chars[i];
        if c < '0' || c > '9' { return -1; }
        ReadOneMore(chars, i);
        v := v * 10 + (c - '0') as int;
      }
      assert chars[..len] == chars;
      return v;
    case _ => return -1;
  }

  /** A key read as index i is the key of property i: by number or by string alike. */
  lemma IndexNamesItsProperty(k: Key)
    requires 0 <= IndexOf(k)
    ensures ToPropertyKey(k) == Name(Decimal(IndexOf(k)))
  {
    if k.Str? { DecimalRead(k.text); }
  }

  /** The string of property i is read as i exactly when it has at most nine digits. */
  lemma IndexTextIsReadIff(i: nat)
    ensures IndexOf(Str(Decimal(i))) == i <==> i < 1_000_000_000
    ensures 1_000_000_000 <= i ==> IndexOf(Str(Decimal(i))) == -1
  {
    ReadDecimal(i);
    var p := Power10(9);
    DecimalLength(i, 9, p);
    assert p == 1_000_000_000;
  }

  // ---- the object a call starts with

  const ITERATOR := Symbol(0)

  function PlainData(v: JSValue): Property { Data(v, true, true, true) }

  /** The index properties of the first n arguments. */
  function IndexProps(values: seq<JSValue>, n: nat): (m: PropertyMap)
    requires n <= |values|
  {
    if n == 0 then map[] else IndexProps(values, n - 1)[Name(Decimal(n - 1)) := PlainData(values[n - 1])]
  }

  /** The properties of a new unmapped arguments object. */
  function InitialProps(values: seq<JSValue>, thrower: JSValue, valuesFn: JSValue): PropertyMap {
    IndexProps(values, |values|)
    [Name("length") := Data(Prim(|values|), true, false, true)]
    [Name("callee") := Accessor(thrower, thrower, false, false)]
    [ITERATOR := Data(valuesFn, true, false, true)]
  }

  /** k names one of the first n indices. */
  predicate IsIndexKey(k: PropKey, n: nat) { k.Name? && Canonical(k.text) && Read(k.text) < n }

  lemma {:induction false} IndexPropsExact(values: seq<JSValue>, n: nat, k: PropKey)
    requires n <= |values|
    ensures k in IndexProps(values, n) <==> IsIndexKey(k, n)
    ensures IsIndexKey(k, n) ==> IndexProps(values, n)[k] == PlainData(values[Read(k.text)])
  {
    if n != 0 {
      IndexPropsExact(values, n - 1, k);
      ReadDecimal(n - 1);
      if k.Name? && Canonical(k.text) { DecimalRead(k.text); }
    }
  }

  /** A new object has every argument as a plain data property, and besides them three other properties. */
  lemma InitialPropsExact(values: seq<JSValue>, thrower: JSValue, valuesFn: JSValue, k: PropKey)
    ensures var m := InitialProps(values, thrower, valuesFn);
      && (k in m <==> k in {Name("length"), Name("callee"), ITERATOR} || IsIndexKey(k, |values|))
      && (IsIndexKey(k, |values|) ==> m[k] == PlainData(values[Read(k.text)]))
      && m[Name("length")] == Data(Prim(|values|), true, false, true)
      && m[Name("callee")] == Accessor(thrower, thrower, false, false)
      && m[ITERATOR] == Data(valuesFn, true, false, true)
  {
    IndexPropsExact(values, |values|, k);
    assert !IsDigit("length"[0]) && !IsDigit("callee"[0]);
  }

  lemma InitialPropsMirror(values: seq<JSValue>, thrower: JSValue, valuesFn: JSValue)
    ensures Mirrors(InitialProps(values, thrower, valuesFn), values)
  {
    forall i: nat | i < |values|
      ensures Name(Decimal(i)) in InitialProps(values, thrower, valuesFn)
      ensures InitialProps(values, thrower, valuesFn)[Name(Decimal(i))] == PlainData(values[i])
    {
      ReadDecimal(i);
      InitialPropsExact(values, thrower, valuesFn, Name(Decimal(i)));
    }
  }

  /** Defining a property that is not there yet. */
  lemma DefineNew(o: Object, k: PropKey, d: Desc)
    requires k !in o.props && o.extensible
    ensures Properties.Define(o, k, d) == (Object(o.props[k := Created(d)], true), Ok(true))
  {
  }

  // ---- runs

  datatype Op =
    | Get(k: Key)
    | Has(k: Key)
    | Set(k: Key, v: JSValue, r: Receiver)
    | Define(k: Key, d: Desc)
    | Delete(k: Key)
    | PreventExtensions

  /** What an ordinary object with the same properties does. */
  function OrdinaryStep(o: Object, proto: PropertyMap, op: Op): (Object, Reply) {
    match op
    case Get(k) => (o, Properties.Get(o, proto, ToPropertyKey(k)))
    case Has(k) => (o, Properties.Has(o, proto, ToPropertyKey(k)))
    case Set(k, v, r) => Properties.Set(o, proto, ToPropertyKey(k), v, r)
    case Define(k, d) => Properties.Define(o, ToPropertyKey(k), d)
    case Delete(k) => Properties.Delete(o, ToPropertyKey(k))
    case PreventExtensions => (o.(extensible := false), Ok(true))
  }

  function OrdinarySteps(o: Object, proto: PropertyMap, ops: seq<Op>): (Object, seq<Reply>)
    decreases |ops|
  {
    if ops == [] then (o, [])
    else
      var (o', reply) := OrdinaryStep(o, proto, ops[0]);
      var (o'', replies) := OrdinarySteps(o', proto, ops[1..]);
      (o'', [reply] + replies)
  }

  /** Over any run, a property that nothing may change stays as it is: callee, from the start. */
  lemma {:induction false} UnchangeableStays(o: Object, proto: PropertyMap, ops: seq<Op>, k: PropKey)
    requires k in o.props && Unchangeable(o.props[k])
    ensures k in OrdinarySteps(o, proto, ops).0.props && OrdinarySteps(o, proto, ops).0.props[k] == o.props[k]
    decreases |ops|
  {
    if ops != [] {
      hide Properties.Define, Properties.Delete, Properties.Set;
      UnchangeableStep(o, proto, ops[0], k);
      UnchangeableStays(OrdinaryStep(o, proto, ops[0]).0, proto, ops[1..], k);
    }
  }

  lemma UnchangeableStep(o: Object, proto: PropertyMap, op: Op, k: PropKey)
    requires k in o.props && Unchangeable(o.props[k])
    ensures var o' := OrdinaryStep(o, proto, op).0; k in o'.props && o'.props[k] == o.props[k]
  {
    hide Properties.Define, Unchangeable;
    match op
    case Set(key, v, _) => DefineKeeps(o, ToPropertyKey(key), SetDesc(o, ToPropertyKey(key), v), k);
    case Define(key, d) => DefineKeeps(o, ToPropertyKey(key), d, k);
    case Delete(key) => UnchangeableIsKept(o, ToPropertyKey(key), k);
    case _ =>
  }

  /** Once extensions are prevented, a property that is absent stays absent over any run. */
  lemma {:induction false} NoNewProperties(o: Object, proto: PropertyMap, ops: seq<Op>, k: PropKey)
    requires k !in o.props && !o.extensible
    ensures k !in OrdinarySteps(o, proto, ops).0.props && !OrdinarySteps(o, proto, ops).0.extensible
    decreases |ops|
  {
    if ops != [] { NoNewProperties(OrdinaryStep(o, proto, ops[0]).0, proto, ops[1..], k); }
  }

  /** A property that is absent, deleted for one, stays absent over any run until it is set or defined. */
  lemma {:induction false} AbsentStays(o: Object, proto: PropertyMap, ops: seq<Op>, k: PropKey)
    requires k !in o.props
    requires forall i :: 0 <= i < |ops| && (ops[i].Set? || ops[i].Define?) ==> ToPropertyKey(ops[i].k) != k
    ensures k !in OrdinarySteps(o, proto, ops).0.props
    decreases |ops|
  {
    if ops != [] {
      hide ToPropertyKey;
      AbsentStays(OrdinaryStep(o, proto, ops[0]).0, proto, ops[1..], k);
    }
  }

  /** Preventing them changes no property. */
  lemma PreventIs(o: Object, proto: PropertyMap)
    ensures OrdinaryStep(o, proto, PreventExtensions) == (Object(o.props, false), Ok(true))
  {
  }

  /** Texts and symbols are keys as they are. */
  lemma OtherKeys(text: string, id: nat)
    ensures ToPropertyKey(Str(text)) == ToPropertyKey(OtherNum(text)) == Name(text)
    ensures ToPropertyKey(Sym(id)) == Symbol(id)
  {
  }

  /** A number and a text are the same key exactly if the text is the number's. */
  lemma NumberIsText(n: int, text: string)
    ensures ToPropertyKey(Num(n)) == ToPropertyKey(Str(text)) <==>
      if 0 <= n then Canonical(text) && Read(text) == n
      else 1 < |text| && text[0] == '-' && Canonical(text[1..]) && Read(text[1..]) == -n
  {
    hide Decimal, Read, Canonical;
    if 0 <= n {
      TextIsDecimal(text, n);
    } else {
      var d := "-" + Decimal(-n);
      assert d[1..] == Decimal(-n);
      if 1 < |text| && text[0] == '-' {
        assert text == "-" + text[1..];
        TextIsDecimal(text[1..], -n);
      }
    }
  }

  lemma TextIsDecimal(text: string, n: nat)
    ensures text == Decimal(n) <==> Canonical(text) && Read(text) == n
  {
    ReadDecimal(n);
    if Canonical(text) { DecimalRead(text); }
  }

  /** The operations after which the map alone answers: defines, deletes, and sets that store into the object. */
  predicate Taints(o: Object, proto: PropertyMap, op: Op) {
    match op
    case Set(k, _, r) => Properties.SetDefines(o, proto, ToPropertyKey(k), r)
    case Define(_, _) => true
    case Delete(_) => true
    case _ => false
  }

  class ArgumentsObject {
    const buffer: array<JSValue>  // argc values
    const proto: PropertyMap      // what the prototype chain answers
    var props: PropertyMap
    var extensible: bool
    var overridden: bool

    /** Until the object is overridden, every index below argc is a plain data property equal to its buffer slot. */
    ghost predicate Valid()
      reads this, buffer
    {
      overridden || Mirrors(props, buffer[..])
    }

    ghost function State(): Object
      reads this
    {
      Object(props, extensible)
    }

    /** _ejs_arguments_new: every property is defined through the object's own hook, which taints it. */
    constructor (args: seq<JSValue>, thrower: JSValue, valuesFn: JSValue, proto: PropertyMap)
      ensures Valid() && !overridden && buffer[..] == args && this.proto == proto && fresh(buffer)
      ensures State() == Object(InitialProps(args, thrower, valuesFn), true)
    {
      buffer := new JSValue[|args|](i requires 0 <= i < |args| => args[i]);
      this.proto := proto;
      props := map[];
      extensible := true;
      overridden := false;
      new;
      assert buffer[..] == args;
      DefineIndices(args);
      DefineOthers(args, thrower, valuesFn);
      overridden := false;
      InitialPropsMirror(args, thrower, valuesFn);
    }

    method DefineIndices(ghost args: seq<JSValue>)
      requires buffer[..] == args && State() == Object(map[], true)
      modifies this
      ensures State() == Object(IndexProps(args, |args|), true)
    {
      hide Properties.Define;
      var i := 0;
      while i < buffer.Length
        invariant 0 <= i <= buffer.Length
        invariant State() == Object(IndexProps(args, i), true)
      {
        ReadDecimal(i);
        IndexPropsExact(args, i, Name(Decimal(i)));
        var d := DataDesc(buffer[i], true, true, true);
        DefineNew(State(), Name(Decimal(i)), d);
        var ok := DefineOwnProperty(Num(i), d);
        i := i + 1;
      }
    }

    method DefineOthers(ghost args: seq<JSValue>, thrower: JSValue, valuesFn: JSValue)
      requires buffer.Length == |args| && State() == Object(IndexProps(args, |args|), true)
      modifies this
      ensures State() == Object(InitialProps(args, thrower, valuesFn), true)
    {
      hide Properties.Define, IndexProps;
      assert !IsDigit("length"[0]) && !IsDigit("callee"[0]);
      IndexPropsExact(args, |args|, Name("length"));
      IndexPropsExact(args, |args|, Name("callee"));
      IndexPropsExact(args, |args|, ITERATOR);
      var length := DataDesc(Prim(buffer.Length), true, false, true);
      var callee := Desc(None, None, Some(thrower), Some(thrower), Some(false), Some(false));
      var values := DataDesc(valuesFn, true, false, true);
      DefineNew(State(), Name("length"), length);
      var ok := DefineOwnProperty(Str("length"), length);
      DefineNew(State(), Name("callee"), callee);
      ok := DefineOwnProperty(Str("callee"), callee);
      DefineNew(State(), ITERATOR, values);
      ok := DefineOwnProperty(Sym(0), values);
    }

    /** _ejs_arguments_specop_get */
    method Get(k: Key) returns (reply: Reply)
      requires Valid()
      ensures reply == Properties.Get(State(), proto, ToPropertyKey(k))
    {
      if !overridden {
        var idx := ArgumentsIndex(k);
        if 0 <= idx && idx < buffer.Length {
          IndexNamesItsProperty(k);
          return Got(buffer[idx]);
        }
      }
      reply := Properties.Get(Object(props, extensible), proto, ToPropertyKey(k));
    }

    /** _ejs_arguments_specop_has_property */
    method Has(k: Key) returns (reply: Reply)
      requires Valid()
      ensures reply == Properties.Has(State(), proto, ToPropertyKey(k))
    {
      if !overridden {
        var idx := ArgumentsIndex(k);
        if 0 <= idx && idx < buffer.Length {
          IndexNamesItsProperty(k);
          return Ok(true);
        }
      }
      reply := Properties.Has(Object(props, extensible), proto, ToPropertyKey(k));
    }

    /** _ejs_arguments_specop_define_own_property */
    method DefineOwnProperty(k: Key, d: Desc) returns (reply: Reply)
      modifies this
      ensures Valid() && overridden
      ensures (State(), reply) == Properties.Define(old(State()), ToPropertyKey(k), d)
    {
      overridden := true;
      var (o, r) := Properties.Define(Object(props, extensible), ToPropertyKey(k), d);
      props, reply := o.props, r;
    }

    /** _ejs_arguments_specop_delete */
    method Delete(k: Key) returns (reply: Reply)
      modifies this
      ensures Valid() && overridden
      ensures (State(), reply) == Properties.Delete(old(State()), ToPropertyKey(k))
      ensures var pk := ToPropertyKey(k);
        && (reply == Ok(false) <==> pk in old(props) && !old(props[pk].configurable))
        && (reply != Ok(false) ==> reply == Ok(true) && pk !in props)
    {
      overridden := true;
      var (o, r) := Properties.Delete(Object(props, extensible), ToPropertyKey(k));
      props, reply := o.props, r;
    }

    /** The ordinary [[Set]], whose stores into the object go through its own define hook. */
    method OrdinarySet(k: Key, v: JSValue, r: Receiver) returns (reply: Reply)
      requires Valid()
      modifies this
      ensures Valid()
      ensures (State(), reply) == Properties.Set(old(State()), proto, ToPropertyKey(k), v, r)
      ensures overridden == (old(overridden) || Properties.SetDefines(old(State()), proto, ToPropertyKey(k), r))
    {
      var o, pk := Object(props, extensible), ToPropertyKey(k);
      if Properties.SetDefines(o, proto, pk, r) {
        reply := DefineOwnProperty(k, Properties.SetDesc(o, pk, v));
      } else {
        reply := Properties.Set(o, proto, pk, v, r).1;
      }
    }

    /** _ejs_arguments_specop_set. Its mirroring store is never reached: a store into an own index property
        has already overridden the object. */
    method Set(k: Key, v: JSValue, r: Receiver) returns (reply: Reply)
      requires Valid()
      modifies this, buffer
      ensures Valid()
      ensures (State(), reply) == Properties.Set(old(State()), proto, ToPropertyKey(k), v, r)
      ensures buffer[..] == old(buffer[..])
      ensures overridden == (old(overridden) || Properties.SetDefines(old(State()), proto, ToPropertyKey(k), r))
    {
      reply := OrdinarySet(k, v, r);
      if reply != Ok(false) && !overridden && r == Self {
        var idx := ArgumentsIndex(k);
        if 0 <= idx && idx < buffer.Length {
          IndexNamesItsProperty(k);
          assert false;
        }
      }
    }

    method Do(op: Op) returns (reply: Reply)
      requires Valid()
      modifies this, buffer
      ensures Valid() && (State(), reply) == OrdinaryStep(old(State()), proto, op)
      ensures overridden == (old(overridden) || Taints(old(State()), proto, op))
    {
      match op
      case Get(k) => reply := Get(k);
      case Has(k) => reply := Has(k);
      case Set(k, v, r) => reply := Set(k, v, r);
      case Define(k, d) => reply := DefineOwnProperty(k, d);
      case Delete(k) => reply := Delete(k);
      case PreventExtensions => extensible := false; reply := Ok(true);
    }

    /** Over any run, the object answers as an ordinary object with its properties would. */
    method Run(ops: seq<Op>) returns (replies: seq<Reply>)
      requires Valid()
      modifies this, buffer
      ensures Valid() && (State(), replies) == OrdinarySteps(old(State()), proto, ops)
    {
      replies := [];
      var i := 0;
      assert ops[0..] == ops;
      while i < |ops|
        invariant 0 <= i <= |ops| && Valid()
        invariant OrdinarySteps(State(), proto, ops[i..]).0 == OrdinarySteps(old(State()), proto, ops).0
        invariant replies + OrdinarySteps(State(), proto, ops[i..]).1 == OrdinarySteps(old(State()), proto, ops).1
      {
        assert ops[i..][1..] == ops[i + 1..];
        ghost var done := replies;
        var reply := Do(ops[i]);
        replies := replies + [reply];
        ghost var rest := OrdinarySteps(State(), proto, ops[i + 1..]).1;
        assert done + ([reply] + rest) == replies + rest;
        i := i + 1;
      }
      assert ops[i..] == [];
      assert replies + [] == replies;
    }
  }

  /** Every index below argc is a plain writable data property holding its buffer slot. */
  ghost predicate Mirrors(props: PropertyMap, buffer: seq<JSValue>) {
    forall i: nat :: i < |buffer| ==>
      Name(Decimal(i)) in props && props[Name(Decimal(i))] == PlainData(buffer[i])
  }
}
