/** The emitted decoders accept nothing but values of their type: whatever is decoded, from any data, is
    well-typed. */
module JsDecoding {
  import opened Wrappers
  import Schema
  import opened Js
  import opened JsBackend
  import opened JsRoundTrip

  /** The classes of a program are those of the declarations. */
  ghost predicate Complete(p: Program, env: Env) {
    EnvSafe(env) && Emitted(p.classes, env) && p.classes.Keys == PathsWithout(env, {})
  }

  lemma IsComplete(p: Program, env: Env)
    requires EnvSafe(env) && Emitted(p.classes, env) && p.classes.Keys == PathsWithout(env, {})
    ensures Complete(p, env)
  {
    hide EnvSafe, Emitted, PathsWithout;
  }

  // Codes

  lemma KeepsAny(ty: Schema.RpType)
    ensures Decoder(ty).Keep? <==> ty.Any?
    ensures Decoder(ty).Keep? || Decoder(ty).CheckString? <==> TakesStrings(ty)
  {
  }

  lemma ScalarTyped(p: Program, env: Env, ty: Schema.RpType, data: Val, v: Val)
    requires !ty.Array? && !ty.Map? && !ty.Name? && RunDec(p, Decoder(ty), data) == Returns(v)
    ensures WellTyped(env, ty, v) && (Defined(data) ==> Defined(v))
  {
  }

  // Records

  lemma RecordBuilt(p: Program, cls: Path, r: Record, data: Val, v: Val)
    requires cls in p.classes && p.classes[cls] == RecordClass(cls, r) && RecordOk(r)
    requires RunNew(p, p.classes[cls].decode, data) == Returns(v)
    ensures v.Inst? && v.cls == cls && v.members.Keys == SafeSet(r.fields)
    ensures forall i :: 0 <= i < |r.fields| ==>
      r.fields[i].Safe() in v.members && FieldBlock(p, r, data, i) == Returns(v.members[r.fields[i].Safe()])
  {
    LocalsRun(p, r, data);
    RunNewResult(p, cls, r, data);
    var locals := RunBlocks(p, BlocksOf(r), data);
    hide RunNew, RunBlocks, FieldBlock, RecordClass, Construct;
    MembersBuilt(r, locals.value);
    forall i | 0 <= i < |r.fields|
      ensures r.fields[i].Safe() in SafeSet(r.fields)
    {
    }
  }

  /** What a field may hold. */
  predicate FieldHolds(env: Env, f: Schema.Field, x: Val) {
    if x == Null then !f.required else x != Undefined && WellTyped(env, f.ty, x)
  }

  /** A block gives a value decoded from what it reads, or what it reads if everything is kept, or null. */
  lemma BlockGives(p: Program, r: Record, data: Val, i: nat, x: Val)
    requires i < |r.fields| && FieldBlock(p, r, data, i) == Returns(x)
    ensures var f, found := r.fields[i], Get(p, data, KeyOf(r.shape, r.fields, i));
      || (x == Null && !f.required)
      || (x == Function && f.ty.Any?)
      || (found.Returns? && Defined(found.value) && found.value < data &&
          RunDec(p, Decoder(f.ty), found.value) == Returns(x))
  {
    KeepsAny(r.fields[i].ty);
    hide RunDec, Get, Decode, Translate;
  }

  lemma AnyHolds(env: Env, f: Schema.Field, x: Val)
    requires (x == Null && !f.required) || (x == Function && f.ty.Any?) || (WellTyped(env, f.ty, x) && Defined(x))
    ensures FieldHolds(env, f, x)
  {
  }

  lemma {:induction false} FieldDecoded(p: Program, env: Env, r: Record, data: Val, i: nat, x: Val)
    requires Complete(p, env) && i < |r.fields| && FieldBlock(p, r, data, i) == Returns(x)
    ensures FieldHolds(env, r.fields[i], x)
    decreases data, 0
  {
    hide *;
    BlockGives(p, r, data, i, x);
    if !(x == Null && !r.fields[i].required) && !(x == Function && r.fields[i].ty.Any?) {
      Decoded(p, env, r.fields[i].ty, Get(p, data, KeyOf(r.shape, r.fields, i)).value, x);
    }
    AnyHolds(env, r.fields[i], x);
  }

  lemma RecordParts(p: Program, env: Env, cls: Path)
    requires Complete(p, env) && RecordAt(env, cls).Some?
    ensures var r := RecordAt(env, cls).value;
      cls in p.classes && p.classes[cls] == RecordClass(cls, r) && RecordOk(r) && p.classes[cls].decode.DecodeNew?
  {
    RecordEmitted(p, env, cls);
    RecordIsOk(env, cls);
  }

  lemma {:induction false} InstanceDecoded(p: Program, env: Env, path: Path, cls: Path, data: Val, v: Val)
    requires Complete(p, env) && Accepts(env, path, cls) && RecordAt(env, cls).Some?
    requires cls in p.classes && p.classes[cls].decode.DecodeNew?
    requires RunNew(p, p.classes[cls].decode, data) == Returns(v)
    ensures v.Inst? && IsRecord(env, path, v)
    decreases data, 1
  {
    hide *;
    var r := RecordAt(env, cls).value;
    RecordParts(p, env, cls);
    RecordBuilt(p, cls, r, data, v);
    forall i | 0 <= i < |r.fields|
      ensures FieldHolds(env, r.fields[i], v.members[r.fields[i].Safe()])
    {
      FieldDecoded(p, env, r, data, i, v.members[r.fields[i].Safe()]);
    }
    InstanceHolds(env, path, r, v);
  }

  lemma InstanceHolds(env: Env, path: Path, r: Record, v: Val)
    requires v.Inst? && Accepts(env, path, v.cls) && RecordAt(env, v.cls) == Some(r)
    requires v.members.Keys == SafeSet(r.fields)
    requires forall i :: 0 <= i < |r.fields| ==>
      r.fields[i].Safe() in v.members && FieldHolds(env, r.fields[i], v.members[r.fields[i].Safe()])
    ensures IsRecord(env, path, v)
  {
    hide RecordAt, Accepts, WellTyped;
  }

  // Interfaces and enums

  lemma {:induction false} FindCaseIn(cases: seq<(string, Path)>, name: string) returns (i: nat)
    requires FindCase(cases, name).Returns?
    ensures i < |cases| && FindCase(cases, name) == Returns(cases[i].1)
  {
    if cases[0].0 == name {
      i := 0;
    } else {
      i := FindCaseIn(cases[1..], name);
      i := i + 1;
    }
  }

  lemma {:induction false} FindChoiceIn(choices: seq<(seq<string>, Path)>, keys: set<string>) returns (i: nat)
    requires FindChoice(choices, keys).Returns?
    ensures i < |choices| && FindChoice(choices, keys) == Returns(choices[i].1)
  {
    if forall k :: k in choices[0].0 ==> k in keys {
      i := 0;
    } else {
      i := FindChoiceIn(choices[1..], keys);
      i := i + 1;
    }
  }

  lemma TagDispatch(p: Program, path: Path, d: Schema.Decl, data: Val)
    requires d.InterfaceDecl? && d.strategy.Tagged? && EmittedDecl(p.classes, path, d)
    requires RunDec(p, CallDecode(path), data).Returns?
    ensures exists name: string ::
      RunDec(p, CallDecode(path), data) == RunCase(p, FindCase(TagCases(path, d.subTypes), name), data)
  {
    var found := GetNamed(p, data, d.strategy.tag);
    assert RunDecode(p, p.classes[path].decode, data) ==
      RunCase(p, FindCase(TagCases(path, d.subTypes), found.value.s), data);
  }

  lemma KeyDispatch(p: Program, path: Path, d: Schema.Decl, data: Val)
    requires d.InterfaceDecl? && !d.strategy.Tagged? && EmittedDecl(p.classes, path, d)
    requires RunDec(p, CallDecode(path), data).Returns?
    ensures RunDec(p, CallDecode(path), data) ==
      RunCase(p, FindChoice(Choices(path, d.subTypes), OwnKeys(data) + p.inherited), data)
  {
    assert RunDecode(p, p.classes[path].decode, data).Returns?;
  }

  /** A dispatcher that returns has run the decoder of one of the sub-types. */
  lemma Dispatches(p: Program, path: Path, d: Schema.Decl, data: Val, v: Val) returns (i: nat)
    requires d.InterfaceDecl? && EmittedDecl(p.classes, path, d)
    requires RunDec(p, CallDecode(path), data) == Returns(v)
    ensures i < |d.subTypes|
    ensures var cls := SubPath(path, d.subTypes[i]);
      && cls in p.classes && p.classes[cls].decode.DecodeNew?
      && RunNew(p, p.classes[cls].decode, data) == Returns(v)
  {
    hide RunDec, FindCase, FindChoice, RunNew, EmittedDecl, Get;
    if d.strategy.Tagged? {
      TagDispatch(p, path, d, data);
      var name: string :|
        RunDec(p, CallDecode(path), data) == RunCase(p, FindCase(TagCases(path, d.subTypes), name), data);
      i := FindCaseIn(TagCases(path, d.subTypes), name);
    } else {
      KeyDispatch(p, path, d, data);
      i := FindChoiceIn(Choices(path, d.subTypes), OwnKeys(data) + p.inherited);
    }
  }

  lemma {:induction false} FoundMember(path: Path, vs: seq<Schema.Variant>, n: nat, data: Val, v: Val)
    requires n <= |vs| && FindMember("value", EnumMembers(path, vs)[n..], data) == Returns(v)
    ensures exists i :: 0 <= i < |vs| && v == EnumMember(path, vs[i])
    decreases |vs| - n
  {
    var rest := EnumMembers(path, vs)[n..];
    if n < |vs| {
      assert rest[0] == EnumMember(path, vs[n]);
      if v != rest[0] {
        assert rest[1..] == EnumMembers(path, vs)[n + 1..];
        FoundMember(path, vs, n + 1, data, v);
      }
    }
  }

  lemma EnumDecoded(p: Program, env: Env, path: Path, data: Val, v: Val)
    requires Complete(p, env) && path in env && env[path].EnumDecl?
    requires RunDec(p, CallDecode(path), data) == Returns(v)
    ensures v.Inst? && IsEnumMember(env, path, v)
  {
    hide *;
    var vs := env[path].variants;
    CompleteAt(p, env, path);
    EnumCompiled(p, env, path);
    EnumRun(p, path, vs, data, v);
    assert EnumMembers(path, vs)[0..] == EnumMembers(path, vs);
    FoundMember(path, vs, 0, data, v);
    MemberOf(env, path, v);
  }

  lemma EnumCompiled(p: Program, env: Env, path: Path)
    requires path in env && env[path].EnumDecl? && EmittedDecl(p.classes, path, env[path])
    ensures path in p.classes && p.classes[path] == EnumClass(path, env[path].variants)
  {
  }

  lemma EnumRun(p: Program, path: Path, vs: seq<Schema.Variant>, data: Val, v: Val)
    requires path in p.classes && p.classes[path] == EnumClass(path, vs)
    requires RunDec(p, CallDecode(path), data) == Returns(v)
    ensures FindMember("value", EnumMembers(path, vs), data) == Returns(v)
  {
  }

  lemma MemberOf(env: Env, path: Path, v: Val)
    requires path in env && env[path].EnumDecl?
    requires exists i :: 0 <= i < |env[path].variants| && v == EnumMember(path, env[path].variants[i])
    ensures v.Inst? && IsEnumMember(env, path, v)
  {
  }

  /** The class of a sub-type stands where its interface is declared. */
  lemma SubAccepted(env: Env, path: Path, i: nat)
    requires EnvSafe(env) && path in env && env[path].InterfaceDecl? && i < |env[path].subTypes|
    ensures var cls := SubPath(path, env[path].subTypes[i]);
      Accepts(env, path, cls) && Accepts(env, cls, cls) && RecordAt(env, cls).Some?
  {
    var cls := SubPath(path, env[path].subTypes[i]);
    assert cls[..|cls| - 1] == path && cls in DeclPaths(path, env[path]);
    SubClassFresh(env, path, cls);
  }

  // Everything

  lemma SelfAccepted(env: Env, path: Path)
    ensures Accepts(env, path, path)
  {
  }

  /** A class that has fields itself. */
  lemma {:induction false} ClassDecoded(p: Program, env: Env, path: Path, data: Val, v: Val)
    requires Complete(p, env) && RecordAt(env, path).Some?
    requires RunDec(p, CallDecode(path), data) == Returns(v)
    ensures v.Inst? && IsRecord(env, path, v)
    decreases data, 2
  {
    hide *;
    RecordParts(p, env, path);
    CallsNew(p, path, RecordAt(env, path).value, data);
    SelfAccepted(env, path);
    InstanceDecoded(p, env, path, path, data, v);
  }

  lemma {:induction false} InterfaceDecoded(p: Program, env: Env, path: Path, data: Val, v: Val)
    requires Complete(p, env) && path in env && env[path].InterfaceDecl?
    requires RunDec(p, CallDecode(path), data) == Returns(v)
    ensures v.Inst? && IsRecord(env, path, v)
    decreases data, 2
  {
    hide *;
    CompleteAt(p, env, path);
    var i := Dispatches(p, path, env[path], data, v);
    SubAccepted(env, path, i);
    InstanceDecoded(p, env, path, SubPath(path, env[path].subTypes[i]), data, v);
  }

  /** A class is one of a declaration with fields or of a sub-type, or a dispatcher, or an enum. */
  lemma ClassKinds(p: Program, env: Env, path: Path)
    requires Complete(p, env) && path in p.classes
    ensures RecordAt(env, path).Some? || (path in env && (env[path].InterfaceDecl? || env[path].EnumDecl?))
  {
    hide *;
    var owner := OwnerOf(p, env, path);
    CompleteAt(p, env, owner);
    if path != owner {
      SubKind(env, owner, path);
    } else {
      OwnKind(env, path);
    }
  }

  lemma OwnerOf(p: Program, env: Env, path: Path) returns (owner: Path)
    requires Complete(p, env) && path in p.classes
    ensures owner in env && path in DeclPaths(owner, env[owner])
  {
    hide EnvSafe, Emitted, DeclPaths;
    owner :| owner in env && path in DeclPaths(owner, env[owner]);
  }

  lemma OwnKind(env: Env, path: Path)
    requires path in env
    ensures RecordAt(env, path).Some? || env[path].InterfaceDecl? || env[path].EnumDecl?
  {
  }

  lemma SubKind(env: Env, owner: Path, path: Path)
    requires EnvSafe(env) && owner in env && path in DeclPaths(owner, env[owner]) && path != owner
    ensures RecordAt(env, path).Some?
  {
    var s :| s in env[owner].subTypes && path == SubPath(owner, s);
    var i :| 0 <= i < |env[owner].subTypes| && env[owner].subTypes[i] == s;
    hide RecordAt, EnvSafe;
    SubAccepted(env, owner, i);
  }

  lemma CompleteAt(p: Program, env: Env, path: Path)
    requires Complete(p, env) && path in env
    ensures EmittedDecl(p.classes, path, env[path]) && EnvSafe(env)
  {
  }

  lemma CallsClass(p: Program, path: Path, data: Val)
    requires RunDec(p, CallDecode(path), data).Returns?
    ensures path in p.classes
  {
  }

  lemma {:induction false} NameDecoded(p: Program, env: Env, path: Path, data: Val, v: Val)
    requires Complete(p, env) && RunDec(p, CallDecode(path), data) == Returns(v)
    ensures v.Inst? && (IsEnumMember(env, path, v) || IsRecord(env, path, v))
    decreases data, 3
  {
    hide *;
    CallsClass(p, path, data);
    ClassKinds(p, env, path);
    if RecordAt(env, path).Some? {
      ClassDecoded(p, env, path, data, v);
    } else if env[path].InterfaceDecl? {
      InterfaceDecoded(p, env, path, data, v);
    } else {
      EnumDecoded(p, env, path, data, v);
    }
  }

  lemma ArrayRun(p: Program, inner: Schema.RpType, data: Val, v: Val)
    requires RunDec(p, Decoder(Schema.RpType.Array(inner)), data) == Returns(v)
    ensures data.Arr? && v.Arr? && |v.elems| == |data.elems|
    ensures forall i :: 0 <= i < |v.elems| ==>
      data.elems[i] < data && RunDec(p, Decoder(inner), data.elems[i]) == Returns(v.elems[i])
  {
    assert Decoder(Schema.RpType.Array(inner)) == LoopElems(Decoder(inner));
  }

  lemma MapRun(p: Program, key: Schema.RpType, value: Schema.RpType, data: Val, v: Val)
    requires RunDec(p, Decoder(Schema.RpType.Map(key, value)), data) == Returns(v)
    ensures v.Obj?
    ensures forall k :: k in v.props ==>
      && TakesStrings(key)
      && k in Entries(data) && Entries(data)[k] < data
      && RunDec(p, Decoder(value), Entries(data)[k]) == Returns(v.props[k])
  {
    MapCode(key, value);
    KeepsAny(key);
    hide Decoder, TakesStrings;
  }

  /** What JavaScript reads out of an object has strings as keys, so a map with other keys only decodes if it
      is empty. */
  lemma KeysAreStrings(p: Program, key: Schema.RpType, value: Schema.RpType, props: map<string, Val>)
    requires !TakesStrings(key) && props != map[]
    ensures RunDec(p, Decoder(Schema.RpType.Map(key, value)), Obj(props)).Throws?
  {
    MapCode(key, value);
    KeepsAny(key);
    assert Entries(Obj(props)) == props;
    hide Decoder, TakesStrings;
  }

  lemma ElemsTyped(env: Env, inner: Schema.RpType, v: Val)
    requires v.Arr? && forall i :: 0 <= i < |v.elems| ==> WellTyped(env, inner, v.elems[i])
    ensures WellTyped(env, Schema.RpType.Array(inner), v) && Defined(v)
  {
    hide IsRecord, IsEnumMember;
  }

  lemma PropsTyped(env: Env, key: Schema.RpType, value: Schema.RpType, v: Val)
    requires v.Obj? && forall k :: k in v.props ==> TakesStrings(key) && WellTyped(env, value, v.props[k])
    ensures WellTyped(env, Schema.RpType.Map(key, value), v) && Defined(v)
  {
    hide IsRecord, IsEnumMember, TakesStrings;
  }

  lemma NameTyped(env: Env, path: Path, v: Val)
    requires v.Inst? && (IsEnumMember(env, path, v) || IsRecord(env, path, v))
    ensures WellTyped(env, Schema.RpType.Name(path), v) && Defined(v)
  {
    hide IsRecord, IsEnumMember;
  }

  lemma CallCode(path: Path)
    ensures Decoder(Schema.RpType.Name(path)) == CallDecode(path)
  {
  }

  /** Whatever an emitted decoder returns is a value of its type. */
  lemma {:induction false} Decoded(p: Program, env: Env, ty: Schema.RpType, data: Val, v: Val)
    requires Complete(p, env) && RunDec(p, Decoder(ty), data) == Returns(v)
    ensures WellTyped(env, ty, v) && (Defined(data) ==> Defined(v))
    decreases data, 4
  {
    hide *;
    match ty {
      case Array(inner) =>
        ArrayRun(p, inner, data, v);
        forall i | 0 <= i < |v.elems|
          ensures WellTyped(env, inner, v.elems[i])
        {
          Decoded(p, env, inner, data.elems[i], v.elems[i]);
        }
        ElemsTyped(env, inner, v);
      case Map(key, value) =>
        MapRun(p, key, value, data, v);
        forall k | k in v.props
          ensures TakesStrings(key) && WellTyped(env, value, v.props[k])
        {
          Decoded(p, env, value, Entries(data)[k], v.props[k]);
        }
        PropsTyped(env, key, value, v);
      case Name(path) =>
        CallCode(path);
        NameDecoded(p, env, path, data, v);
        NameTyped(env, path, v);
      case _ =>
        ScalarTyped(p, env, ty, data, v);
    }
  }
}
