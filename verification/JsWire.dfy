/** What the emitted encoders write: the data format that the schema describes. */
module JsWire {
  import opened Wrappers
  import Schema
  import opened Js
  import opened JsBackend
  import opened JsRoundTrip

  /** The tag of a class, and the value it has there: those of a sub-type of a tagged interface. */
  function TagOf(env: Env, cls: Path): Option<(string, string)> {
    if cls in env || SubIndex(env, cls).None? then None
    else
      var d := env[cls[..|cls| - 1]];
      if d.strategy.Tagged? then Some((d.strategy.tag, d.subTypes[SubIndex(env, cls).value].Name())) else None
  }

  predicate IsTuple(env: Env, cls: Path) { cls in env && env[cls].TupleDecl? }

  /** An enum value is written as the text or the number that its variant has. */
  predicate VariantOnWire(value: Schema.VariantValue, e: Val) {
    match value
    case StringValue(text) => e == Str(text)
    case NumberValue(n) => e.Num? && e.n.Finite? && e.n.r == n as real
  }

  /** `e` is how `v` is written. */
  ghost predicate OnWire(env: Env, ty: Schema.RpType, v: Val, e: Val)
    requires WellTyped(env, ty, v)
    decreases v, 1
  {
    match ty
    case Array(inner) =>
      && e.Arr? && |e.elems| == |v.elems|
      && forall i :: 0 <= i < |v.elems| ==> OnWire(env, inner, v.elems[i], e.elems[i])
    case Map(_, value) =>
      && e.Obj? && e.props.Keys == v.props.Keys - {PROTO}
      && forall k :: k in e.props ==> OnWire(env, value, v.props[k], e.props[k])
    case Name(path) => if IsEnumMember(env, path, v) then EnumOnWire(env, path, v, e) else RecordOnWire(env, path, v, e)
    case _ => e == v
  }

  ghost predicate EnumOnWire(env: Env, path: Path, v: Val, e: Val)
    requires IsEnumMember(env, path, v)
  {
    exists i :: 0 <= i < |env[path].variants| &&
      v == EnumMember(path, env[path].variants[i]) && VariantOnWire(env[path].variants[i].value, e)
  }

  /** A tuple is the array of its fields; anything else is an object with the fields that are present,
      under their names, and with the tag if there is one. */
  ghost predicate RecordOnWire(env: Env, path: Path, v: Val, e: Val)
    requires IsRecord(env, path, v)
    decreases v, 0
  {
    var fields := RecordAt(env, v.cls).value.fields;
    if IsTuple(env, v.cls) then
      && e.Arr? && |e.elems| == |fields|
      && forall i :: 0 <= i < |fields| ==>
           var x := v.members[fields[i].Safe()];
           x != Null && OnWire(env, fields[i].ty, x, e.elems[i])
    else
      && e.Obj?
      && e.props.Keys == PresentNames(fields, v) + TagNames(TagOf(env, v.cls))
      && (TagOf(env, v.cls).Some? ==> e.props[TagOf(env, v.cls).value.0] == Str(TagOf(env, v.cls).value.1))
      && forall i :: 0 <= i < |fields| ==>
           var x := v.members[fields[i].Safe()];
           x != Null ==> fields[i].Name() in e.props && OnWire(env, fields[i].ty, x, e.props[fields[i].Name()])
  }

  function TagNames(tag: Option<(string, string)>): set<string> { if tag.Some? then {tag.value.0} else {} }

  lemma ShapeAt(env: Env, cls: Path)
    requires RecordAt(env, cls).Some?
    ensures var shape := RecordAt(env, cls).value.shape;
      && (shape.Tuple? <==> IsTuple(env, cls))
      && (shape.Tagged? <==> TagOf(env, cls).Some?)
      && (shape.Tagged? ==> TagOf(env, cls).value == (shape.tag, shape.name))
  {
  }

  lemma HeldKeys(p: Program, r: Record, v: Val, data: map<string, Val>)
    requires Shaped(r, v) && Holds(p, r, v, data, |r.fields|)
    requires SafeSet(r.fields) <= v.members.Keys
    ensures data.Keys == PresentNames(r.fields, v) + if r.shape.Tagged? then {r.shape.tag} else {}
  {
    forall k | k in data && !(r.shape.Tagged? && k == r.shape.tag)
      ensures k in PresentNames(r.fields, v)
    {
      var i :| 0 <= i < |r.fields| && Present(r, v, i) && r.fields[i].Name() == k;
      assert r.fields[i] in r.fields;
    }
    forall f | f in r.fields && f.Safe() in v.members && v.members[f.Safe()] != Null
      ensures f.Name() in data
    {
      var i :| 0 <= i < |r.fields| && r.fields[i] == f;
      assert Present(r, v, i);
    }
  }

  lemma EnumEncoded(p: Program, env: Env, path: Path, v: Val, e: Val)
    requires EnvSafe(env) && Emitted(p.classes, env) && IsEnumMember(env, path, v) && RunEncode(p, v) == Returns(e)
    ensures EnumOnWire(env, path, v, e)
  {
    var vs := env[path].variants;
    var i :| 0 <= i < |vs| && v == EnumMember(path, vs[i]);
    assert EmittedDecl(p.classes, path, env[path]);
    EnumRuns(p, path, vs, i);
    hide Emitted, EnvSafe, IsEnumMember, RunEncode;
    assert VariantOnWire(vs[i].value, e);
  }

  lemma TypedField(env: Env, path: Path, v: Val, i: nat)
    requires IsRecord(env, path, v) && i < |RecordAt(env, v.cls).value.fields|
    ensures var f := RecordAt(env, v.cls).value.fields[i];
      f.Safe() in v.members && (v.members[f.Safe()] != Null ==> WellTyped(env, f.ty, v.members[f.Safe()]))
  {
    assert RecordAt(env, v.cls).value.fields[i].Safe() in SafeSet(RecordAt(env, v.cls).value.fields);
    hide RecordAt, Accepts, WellTyped;
  }

  lemma {:induction false} FieldEncoded(p: Program, env: Env, path: Path, r: Record, v: Val, i: nat, e: Val)
    requires EnvSafe(env) && Emitted(p.classes, env) && IsRecord(env, path, v) && RecordAt(env, v.cls) == Some(r)
    requires i < |r.fields| && r.fields[i].Safe() in v.members && v.members[r.fields[i].Safe()] != Null
    requires EncodedField(p, r, v, i) == Returns(e)
    ensures WellTyped(env, r.fields[i].ty, v.members[r.fields[i].Safe()])
    ensures OnWire(env, r.fields[i].ty, v.members[r.fields[i].Safe()], e)
    decreases v, 0
  {
    TypedField(env, path, v, i);
    FieldCode(p, r, v, i);
    hide *;
    assert v.members[r.fields[i].Safe()] < v;
    Encoded(p, env, r.fields[i].ty, v.members[r.fields[i].Safe()], e);
  }

  lemma FieldCode(p: Program, r: Record, v: Val, i: nat)
    requires v.Inst? && i < |r.fields| && r.fields[i].Safe() in v.members
    ensures EncodedField(p, r, v, i) == RunEnc(p, Encoder(r.fields[i].ty), v.members[r.fields[i].Safe()])
  {
  }

  lemma {:induction false} TupleEncoded(p: Program, env: Env, path: Path, v: Val, e: Val)
    requires EnvSafe(env) && Emitted(p.classes, env) && IsRecord(env, path, v) && RunEncode(p, v) == Returns(e)
    requires IsTuple(env, v.cls)
    ensures RecordOnWire(env, path, v, e)
    decreases v, 1
  {
    var r := RecordAt(env, v.cls).value;
    RecordShaped(env, path, v);
    hide *;
    ShapeAt(env, v.cls);
    RecordEmitted(p, env, v.cls);
    LocalTrips(p, path, v);
    TupleEncodes(p, r, v);
    forall i | 0 <= i < |r.fields|
      ensures r.fields[i].Safe() in v.members && v.members[r.fields[i].Safe()] != Null
      ensures WellTyped(env, r.fields[i].ty, v.members[r.fields[i].Safe()])
      ensures OnWire(env, r.fields[i].ty, v.members[r.fields[i].Safe()], e.elems[i])
    {
      TypedField(env, path, v, i);
      PresentMember(r, v, i);
      FieldEncoded(p, env, path, r, v, i, e.elems[i]);
    }
    TupleWritten(env, path, r, v, e);
  }

  lemma PresentMember(r: Record, v: Val, i: nat)
    requires v.Inst? && i < |r.fields| && r.fields[i].Safe() in v.members
    ensures Present(r, v, i) <==> v.members[r.fields[i].Safe()] != Null
  {
  }

  lemma TupleWritten(env: Env, path: Path, r: Record, v: Val, e: Val)
    requires IsRecord(env, path, v) && RecordAt(env, v.cls) == Some(r) && IsTuple(env, v.cls)
    requires e.Arr? && |e.elems| == |r.fields|
    requires forall i :: 0 <= i < |r.fields| ==>
      && r.fields[i].Safe() in v.members && v.members[r.fields[i].Safe()] != Null
      && WellTyped(env, r.fields[i].ty, v.members[r.fields[i].Safe()])
      && OnWire(env, r.fields[i].ty, v.members[r.fields[i].Safe()], e.elems[i])
    ensures RecordOnWire(env, path, v, e)
  {
    hide IsTuple, IsRecord, RecordAt, WellTyped, OnWire;
  }

  lemma {:induction false} ObjectEncoded(p: Program, env: Env, path: Path, v: Val, e: Val)
    requires EnvSafe(env) && Emitted(p.classes, env) && IsRecord(env, path, v) && RunEncode(p, v) == Returns(e)
    requires !IsTuple(env, v.cls)
    ensures RecordOnWire(env, path, v, e)
    decreases v, 1
  {
    var r := RecordAt(env, v.cls).value;
    assert v.members.Keys == SafeSet(r.fields);
    RecordShaped(env, path, v);
    hide *;
    ShapeAt(env, v.cls);
    RecordEmitted(p, env, v.cls);
    RecordIsOk(env, v.cls);
    LocalTrips(p, path, v);
    ObjectEncodes(p, r, v);
    HeldKeys(p, r, v, e.props);
    forall i | 0 <= i < |r.fields| && r.fields[i].Safe() in v.members && v.members[r.fields[i].Safe()] != Null
      ensures r.fields[i].Name() in e.props && WellTyped(env, r.fields[i].ty, v.members[r.fields[i].Safe()])
      ensures OnWire(env, r.fields[i].ty, v.members[r.fields[i].Safe()], e.props[r.fields[i].Name()])
    {
      PresentMember(r, v, i);
      HeldField(p, r, v, e.props, i);
      FieldEncoded(p, env, path, r, v, i, e.props[r.fields[i].Name()]);
    }
    HeldTag(p, r, v, e.props);
    ObjectWritten(env, path, r, v, e);
  }

  lemma HeldField(p: Program, r: Record, v: Val, data: map<string, Val>, i: nat)
    requires Shaped(r, v) && Holds(p, r, v, data, |r.fields|) && i < |r.fields| && Present(r, v, i)
    ensures r.fields[i].Name() in data && EncodedField(p, r, v, i) == Returns(data[r.fields[i].Name()])
  {
  }

  lemma HeldTag(p: Program, r: Record, v: Val, data: map<string, Val>)
    requires Shaped(r, v) && Holds(p, r, v, data, |r.fields|)
    ensures r.shape.Tagged? ==> r.shape.tag in data && data[r.shape.tag] == Str(r.shape.name)
  {
  }

  lemma ObjectWritten(env: Env, path: Path, r: Record, v: Val, e: Val)
    requires IsRecord(env, path, v) && RecordAt(env, v.cls) == Some(r) && !IsTuple(env, v.cls)
    requires e.Obj? && v.members.Keys == SafeSet(r.fields)
    requires r.shape.Tagged? <==> TagOf(env, v.cls).Some?
    requires r.shape.Tagged? ==> TagOf(env, v.cls).value == (r.shape.tag, r.shape.name)
    requires e.props.Keys == PresentNames(r.fields, v) + if r.shape.Tagged? then {r.shape.tag} else {}
    requires r.shape.Tagged? ==> e.props[r.shape.tag] == Str(r.shape.name)
    requires forall i :: (0 <= i < |r.fields| &&
                         r.fields[i].Safe() in v.members && v.members[r.fields[i].Safe()] != Null) ==>
      && r.fields[i].Name() in e.props && WellTyped(env, r.fields[i].ty, v.members[r.fields[i].Safe()])
      && OnWire(env, r.fields[i].ty, v.members[r.fields[i].Safe()], e.props[r.fields[i].Name()])
    ensures RecordOnWire(env, path, v, e)
  {
    forall i | 0 <= i < |r.fields|
      ensures r.fields[i].Safe() in v.members
    {
      assert r.fields[i].Safe() in SafeSet(r.fields);
    }
    hide IsTuple, IsRecord, RecordAt, WellTyped, OnWire, TagOf, PresentNames, SafeSet;
  }

  lemma ArrayEncoded(p: Program, inner: Schema.RpType, v: Val, e: Val)
    requires v.Arr? && RunEnc(p, Encoder(Schema.RpType.Array(inner)), v) == Returns(e)
    ensures e.Arr? && |e.elems| == |v.elems|
    ensures forall i :: 0 <= i < |v.elems| ==> RunEnc(p, Encoder(inner), v.elems[i]) == Returns(e.elems[i])
  {
    assert Encoder(Schema.RpType.Array(inner)) == MapElems(Encoder(inner));
  }

  lemma MapEncoded(p: Program, key: Schema.RpType, value: Schema.RpType, v: Val, e: Val)
    requires v.Obj? && (v.props == map[] || TakesStrings(key))
    requires RunEnc(p, Encoder(Schema.RpType.Map(key, value)), v) == Returns(e)
    ensures e.Obj? && e.props.Keys == v.props.Keys - {PROTO}
    ensures forall k :: k in e.props ==> RunEnc(p, Encoder(value), v.props[k]) == Returns(e.props[k])
  {
    MapCode(key, value);
    hide Encoder, TakesStrings;
    MapEncodes(p, Encoder(key), Encoder(value), v);
  }

  lemma ScalarEncoded(p: Program, env: Env, ty: Schema.RpType, v: Val, e: Val)
    requires WellTyped(env, ty, v) && !ty.Array? && !ty.Map? && !ty.Name?
    requires RunEnc(p, Encoder(ty), v) == Returns(e)
    ensures OnWire(env, ty, v, e)
  {
    ScalarTrips(p, env, ty, v);
  }

  lemma InstanceTyped(env: Env, path: Path, v: Val)
    requires WellTyped(env, Schema.RpType.Name(path), v)
    ensures v.Inst? && (IsEnumMember(env, path, v) || IsRecord(env, path, v))
  {
    hide Accepts, RecordAt;
  }

  lemma NameWritten(env: Env, path: Path, v: Val, e: Val)
    requires WellTyped(env, Schema.RpType.Name(path), v)
    requires if IsEnumMember(env, path, v) then EnumOnWire(env, path, v, e)
      else IsRecord(env, path, v) && RecordOnWire(env, path, v, e)
    ensures OnWire(env, Schema.RpType.Name(path), v, e)
  {
    hide IsEnumMember, IsRecord, EnumOnWire, RecordOnWire;
  }

  lemma ElemsTyped(env: Env, inner: Schema.RpType, v: Val)
    requires WellTyped(env, Schema.RpType.Array(inner), v)
    ensures v.Arr? && forall i :: 0 <= i < |v.elems| ==> v.elems[i] < v && WellTyped(env, inner, v.elems[i])
  {
  }

  lemma PropsTyped(env: Env, key: Schema.RpType, value: Schema.RpType, v: Val)
    requires WellTyped(env, Schema.RpType.Map(key, value), v)
    ensures v.Obj? && (v.props == map[] || TakesStrings(key))
    ensures forall k :: k in v.props ==> v.props[k] < v && WellTyped(env, value, v.props[k])
  {
  }

  lemma ArrayWritten(env: Env, inner: Schema.RpType, v: Val, e: Val)
    requires WellTyped(env, Schema.RpType.Array(inner), v) && e.Arr? && |e.elems| == |v.elems|
    requires forall i :: 0 <= i < |v.elems| ==>
      WellTyped(env, inner, v.elems[i]) && OnWire(env, inner, v.elems[i], e.elems[i])
    ensures OnWire(env, Schema.RpType.Array(inner), v, e)
  {
  }

  lemma MapWritten(env: Env, key: Schema.RpType, value: Schema.RpType, v: Val, e: Val)
    requires WellTyped(env, Schema.RpType.Map(key, value), v) && e.Obj? && e.props.Keys == v.props.Keys - {PROTO}
    requires forall k :: k in e.props ==>
      WellTyped(env, value, v.props[k]) && OnWire(env, value, v.props[k], e.props[k])
    ensures OnWire(env, Schema.RpType.Map(key, value), v, e)
  {
  }

  /** Whatever an emitted encoder returns is the value as the schema says it is written. */
  lemma {:induction false} Encoded(p: Program, env: Env, ty: Schema.RpType, v: Val, e: Val)
    requires EnvSafe(env) && Emitted(p.classes, env) && WellTyped(env, ty, v)
    requires RunEnc(p, Encoder(ty), v) == Returns(e)
    ensures OnWire(env, ty, v, e)
    decreases v, 2
  {
    hide *;
    match ty {
      case Array(inner) =>
        ElemsTyped(env, inner, v);
        ArrayEncoded(p, inner, v, e);
        forall i | 0 <= i < |v.elems| ensures OnWire(env, inner, v.elems[i], e.elems[i]) {
          Encoded(p, env, inner, v.elems[i], e.elems[i]);
        }
        ArrayWritten(env, inner, v, e);
      case Map(key, value) =>
        PropsTyped(env, key, value, v);
        MapEncoded(p, key, value, v, e);
        forall k | k in e.props ensures OnWire(env, value, v.props[k], e.props[k]) {
          Encoded(p, env, value, v.props[k], e.props[k]);
        }
        MapWritten(env, key, value, v, e);
      case Name(path) =>
        InstanceTyped(env, path, v);
        LocalTrips(p, path, v);
        if IsEnumMember(env, path, v) {
          EnumEncoded(p, env, path, v, e);
        } else if IsTuple(env, v.cls) {
          TupleEncoded(p, env, path, v, e);
        } else {
          ObjectEncoded(p, env, path, v, e);
        }
        NameWritten(env, path, v, e);
      case _ =>
        ScalarEncoded(p, env, ty, v, e);
    }
  }
}
