/** Ordinary dictionary-mode objects, as a property map and the operations on it: runtime/ejs-object.c. */
module Properties {
  import opened Elements
  import opened Options

  /** A key of a property map. */
  datatype PropKey = Name(text: string) | Symbol(id: nat)

  datatype Property =
    | Data(value: JSValue, writable: bool, enumerable: bool, configurable: bool)
    | Accessor(getter: JSValue, setter: JSValue, enumerable: bool, configurable: bool)

  /** A property descriptor, each field of which may be absent. */
  datatype Desc = Desc(
    value: Option<JSValue>, writable: Option<bool>, getter: Option<JSValue>, setter: Option<JSValue>,
    enumerable: Option<bool>, configurable: Option<bool>)
  {
    predicate IsData() { value.Some? || writable.Some? }
    predicate IsAccessor() { getter.Some? || setter.Some? }
  }

  type PropertyMap = map<PropKey, Property>

  datatype Object = Object(props: PropertyMap, extensible: bool)

  /** Where an ordinary set stores: the object itself, a primitive, or an object that takes it or not. */
  datatype Receiver = Self | Primitive | Elsewhere(takes: bool)

  /** What an operation answers; a call to a getter or setter of the user is left to the caller. */
  datatype Reply = Got(v: JSValue) | Ok(ok: bool) | Calls(f: JSValue)

  function Or<T>(o: Option<T>, d: T): T { if o.Some? then o.value else d }

  function ValueOnly(v: JSValue): Desc { Desc(Some(v), None, None, None, None, None) }

  function DataDesc(v: JSValue, writable: bool, enumerable: bool, configurable: bool): Desc {
    Desc(Some(v), Some(writable), None, None, Some(enumerable), Some(configurable))
  }

  function Created(d: Desc): Property {
    if !d.IsData() && d.IsAccessor()
    then Accessor(Or(d.getter, Undefined), Or(d.setter, Undefined), Or(d.enumerable, false), Or(d.configurable, false))
    else Data(Or(d.value, Undefined), Or(d.writable, false), Or(d.enumerable, false), Or(d.configurable, false))
  }

  /** Steps 7 to 11 of [[DefineOwnProperty]]: whether a change to an existing property is refused. */
  predicate Refused(p: Property, d: Desc) {
    !p.configurable &&
    (|| d.configurable == Some(true)
     || (d.enumerable.Some? && d.enumerable.value != p.enumerable)
     || ((d.IsData() || d.IsAccessor()) && p.Data? != d.IsData())
     || (p.Data? && d.IsData() && !p.writable &&
         (d.writable == Some(true) || (d.value.Some? && d.value.value != p.value)))
     || (p.Accessor? && !d.IsData() && d.IsAccessor() &&
         ((d.setter.Some? && d.setter.value != p.setter) || (d.getter.Some? && d.getter.value != p.getter))))
  }

  /** Step 6: a descriptor that repeats the whole property is never refused. */
  predicate Repeats(p: Property, d: Desc) {
    match p
    case Data(v, w, e, c) => d == DataDesc(v, w, e, c)
    case Accessor(g, s, e, c) => d == Desc(None, None, Some(g), Some(s), Some(e), Some(c))
  }

  function Updated(p: Property, d: Desc): Property {
    var e, c := Or(d.enumerable, p.enumerable), Or(d.configurable, p.configurable);
    if d.IsData() then
      Data(Or(d.value, if p.Data? then p.value else Undefined), Or(d.writable, p.Data? && p.writable), e, c)
    else if d.IsAccessor() then
      Accessor(Or(d.getter, if p.Accessor? then p.getter else Undefined),
               Or(d.setter, if p.Accessor? then p.setter else Undefined), e, c)
    else p.(enumerable := e, configurable := c)
  }

  function Define(o: Object, k: PropKey, d: Desc): (Object, Reply) {
    if k !in o.props then
      if !o.extensible then (o, Ok(false)) else (o.(props := o.props[k := Created(d)]), Ok(true))
    else if Repeats(o.props[k], d) then (o, Ok(true))
    else if Refused(o.props[k], d) then (o, Ok(false))
    else (o.(props := o.props[k := Updated(o.props[k], d)]), Ok(true))
  }

  function Delete(o: Object, k: PropKey): (Object, Reply) {
    if k !in o.props then (o, Ok(true))
    else if o.props[k].configurable then (o.(props := o.props - {k}), Ok(true))
    else (o, Ok(false))
  }

  /** The property a lookup finds, on the object or along its prototype chain. */
  function Find(o: Object, proto: PropertyMap, k: PropKey): Option<Property> {
    if k in o.props then Some(o.props[k]) else if k in proto then Some(proto[k]) else None
  }

  function Get(o: Object, proto: PropertyMap, k: PropKey): Reply {
    match Find(o, proto, k)
    case None => Got(Undefined)
    case Some(Data(v, _, _, _)) => Got(v)
    case Some(Accessor(g, _, _, _)) => if g == Undefined then Got(Undefined) else Calls(g)
  }

  function Has(o: Object, proto: PropertyMap, k: PropKey): Reply { Ok(Find(o, proto, k).Some?) }

  /** Whether a set of k with this receiver ends in the receiver's own [[DefineOwnProperty]]. */
  predicate SetDefines(o: Object, proto: PropertyMap, k: PropKey, r: Receiver) {
    var found := Find(o, proto, k);
    (found == None || (found.value.Data? && found.value.writable)) && r == Self
  }

  /** The descriptor such a set defines. */
  function SetDesc(o: Object, k: PropKey, v: JSValue): Desc {
    if k in o.props then ValueOnly(v) else DataDesc(v, true, true, true)
  }

  function Set(o: Object, proto: PropertyMap, k: PropKey, v: JSValue, r: Receiver): (Object, Reply) {
    var found := Find(o, proto, k);
    if SetDefines(o, proto, k, r) then Define(o, k, SetDesc(o, k, v))
    else if found == None || (found.value.Data? && found.value.writable) then
      (o, Ok(r.Elsewhere? && r.takes))
    else if found.value.Data? then (o, Ok(false))
    else if found.value.setter == Undefined then (o, Ok(false))
    else (o, Calls(found.value.setter))
  }

  /** A property that no define or delete may change. */
  predicate Unchangeable(p: Property) { !p.configurable && (p.Data? ==> !p.writable) }

  lemma DefineKeeps(o: Object, j: PropKey, d: Desc, k: PropKey)
    requires k in o.props && Unchangeable(o.props[k])
    ensures k in Define(o, j, d).0.props && Define(o, j, d).0.props[k] == o.props[k]
  {
  }

  lemma UnchangeableIsKept(o: Object, j: PropKey, k: PropKey)
    requires k in o.props && Unchangeable(o.props[k])
    ensures k in Delete(o, j).0.props && Delete(o, j).0.props[k] == o.props[k]
  {
  }

  /** After a set that the object itself accepted, the property reads back as what was set. */
  lemma SetThenGet(o: Object, proto: PropertyMap, k: PropKey, v: JSValue)
    requires Set(o, proto, k, v, Self).1 == Ok(true)
    ensures Get(Set(o, proto, k, v, Self).0, proto, k) == Got(v)
    ensures forall j :: j != k ==> Get(Set(o, proto, k, v, Self).0, proto, j) == Get(o, proto, j)
  {
  }

  // ---- what the operations mean, property by property

  /** Every other property, and whether others may be added, is as before. */
  ghost predicate OnlyChanges(o: Object, o': Object, k: PropKey) {
    && o'.extensible == o.extensible
    && forall j :: j != k ==> (j in o'.props <==> j in o.props) && (j in o.props ==> o'.props[j] == o.props[j])
  }

  /** A delete is refused exactly for a present property that is not configurable; otherwise the property is gone. */
  lemma DeleteIs(o: Object, proto: PropertyMap, k: PropKey)
    ensures var (o', reply) := Delete(o, k);
      && (reply == Ok(false) <==> k in o.props && !o.props[k].configurable)
      && (reply == Ok(false) ==> o' == o)
      && (reply != Ok(false) ==> reply == Ok(true) && k !in o'.props)
      && (reply == Ok(true) ==>
            Has(o', proto, k) == Ok(k in proto) && Get(o', proto, k) == Get(Object(proto, true), map[], k))
      && OnlyChanges(o, o', k)
  {
  }

  /** What a lookup answers: own properties before the prototype's, absent ones and absent getters undefined. */
  lemma LookupIs(o: Object, proto: PropertyMap, k: PropKey)
    ensures Has(o, proto, k) == Ok(k in o.props || k in proto)
    ensures k !in o.props && k !in proto ==> Get(o, proto, k) == Got(Undefined)
    ensures k in o.props || k in proto ==>
      var p := if k in o.props then o.props[k] else proto[k];
      && (p.Data? ==> Get(o, proto, k) == Got(p.value))
      && (p.Accessor? && p.getter == Undefined ==> Get(o, proto, k) == Got(Undefined))
      && (p.Accessor? && p.getter != Undefined ==> Get(o, proto, k) == Calls(p.getter))
  {
  }

  /** Each attribute of p is the descriptor's where it has one, and the earlier one's otherwise. */
  predicate TakesFrom(d: Desc, p: Property, earlier: Property) {
    && p.enumerable == (match d.enumerable case Some(e) => e case None => earlier.enumerable)
    && p.configurable == (match d.configurable case Some(c) => c case None => earlier.configurable)
    && (p.Data? <==> d.IsData() || (!d.IsAccessor() && earlier.Data?))
    && (p.Data? ==>
          var value, writable := if earlier.Data? then earlier.value else Undefined, earlier.Data? && earlier.writable;
          && p.value == (match d.value case Some(v) => v case None => value)
          && p.writable == (match d.writable case Some(w) => w case None => writable))
    && (p.Accessor? ==>
          var getter := if earlier.Accessor? then earlier.getter else Undefined;
          var setter := if earlier.Accessor? then earlier.setter else Undefined;
          && p.getter == (match d.getter case Some(g) => g case None => getter)
          && p.setter == (match d.setter case Some(s) => s case None => setter))
  }

  /** What an earlier property may become: anything if configurable, a writable one may lose that or change value. */
  predicate MayBecome(earlier: Property, p: Property) {
    || earlier.configurable
    || p == earlier
    || (earlier.Data? && earlier.writable && p.Data? && p.enumerable == earlier.enumerable && !p.configurable)
  }

  /** What a new property starts from before a descriptor fills it in. */
  const BLANK := Data(Undefined, false, false, false)

  /**
   * A define makes of a property, old or new, exactly what the descriptor says, p; it is refused exactly if
   * the old property may not become that, or a new one may not be added.
   */
  lemma DefineIs(o: Object, k: PropKey, d: Desc, p: Property)
    requires TakesFrom(d, p, if k in o.props then o.props[k] else BLANK)
    ensures var (o', reply) := Define(o, k, d);
      && (reply == Ok(true) <==> if k in o.props then MayBecome(o.props[k], p) else o.extensible)
      && (reply == Ok(true) ==> k in o'.props && o'.props[k] == p && OnlyChanges(o, o', k))
      && (reply != Ok(true) ==> reply == Ok(false) && o' == o)
  {
    if k in o.props {
      UpdatedIs(o.props[k], d, p);
      hide TakesFrom, Refused, Updated, Repeats, MayBecome;
    }
  }

  lemma UpdatedIs(earlier: Property, d: Desc, p: Property)
    requires TakesFrom(d, p, earlier)
    ensures p == Updated(earlier, d)
    ensures Repeats(earlier, d) ==> p == earlier && MayBecome(earlier, p)
    ensures !Repeats(earlier, d) ==> (Refused(earlier, d) <==> !MayBecome(earlier, p))
  {
  }

  /** The property a plain set leaves: an own one keeps its attributes, a new one has all. */
  function PlainlySet(o: Object, k: PropKey, v: JSValue): Property {
    if k in o.props && o.props[k].Data? then o.props[k].(value := v) else Data(v, true, true, true)
  }

  /** A set by every kind of property found and receiver. */
  lemma SetIs(o: Object, proto: PropertyMap, k: PropKey, v: JSValue, r: Receiver)
    ensures var (o', reply) := Set(o, proto, k, v, r);
      var found := k in o.props || k in proto;
      && (found ==>
            var p := if k in o.props then o.props[k] else proto[k];
            && (p.Data? && !p.writable ==> o' == o && reply == Ok(false))
            && (p.Accessor? ==> o' == o && reply == if p.setter == Undefined then Ok(false) else Calls(p.setter)))
      && (!found || (k in o.props && o.props[k].Data? && o.props[k].writable)
          || (k !in o.props && k in proto && proto[k].Data? && proto[k].writable) ==>
            match r
            case Primitive => o' == o && reply == Ok(false)
            case Elsewhere(takes) => o' == o && reply == Ok(takes)
            case Self =>
              if k in o.props || o.extensible
              then reply == Ok(true) && k in o'.props && o'.props[k] == PlainlySet(o, k, v) && OnlyChanges(o, o', k)
              else reply == Ok(false) && o' == o)
  {
  }
}
