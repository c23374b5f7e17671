/** The JavaScript backend (lib/backend-js): from the checked schema to emitted classes. Each method
    appends to its buffers field by field, as the emitter does, and is proved to emit the code that
    the functions beside it describe. */
module JsBackend {
  import opened Wrappers
  import Schema
  import opened Js

  /** Every declaration by full path; inner declarations have their own entry. */
  type Env = map<Path, Schema.Decl>

  // Types

  datatype Type =
    | Integer
    | Float
    | String
    | Boolean
    | Object
    | Array(argument: Type)
    | Map(key: Type, value: Type)
    | Local(path: Path)

  function Translate(ty: Schema.RpType): Type {
    match ty
    case Double => Float
    case Float => Float
    case Number(_) => Integer
    case Boolean => Boolean
    case String => String
    case DateTime => String
    case Bytes => String
    case Any => Object
    case Name(path) => Local(path)
    case Array(inner) => Array(Translate(inner))
    case Map(key, value) => Map(Translate(key), Translate(value))
  }

  function Encode(ty: Type): EncCode {
    match ty
    case Array(argument) => MapElems(Encode(argument))
    case Map(key, value) => MapEntries(Encode(key), Encode(value))
    case Local(_) => CallEncode
    case _ => Same
  }

  function Decode(ty: Type): DecCode {
    match ty
    case Object => Keep
    case Integer => CheckInteger
    case Float => CheckFloat
    case Boolean => CheckBool
    case String => CheckString
    case Array(argument) => LoopElems(Decode(argument))
    case Map(key, value) => LoopEntries(Decode(key), Decode(value))
    case Local(path) => CallDecode(path)
  }

  // Classes with fields: types, tuples and sub-types

  datatype Shape = Plain | Tagged(tag: string, name: string) | Tuple

  datatype Record = Record(fields: seq<Schema.Field>, shape: Shape)

  function LocalOf(f: Schema.Field): string { "v_" + f.ident }

  function EncStmtOf(f: Schema.Field): EncStmt {
    var code := Encode(Translate(f.ty));
    if f.required then PutRequired(f.Safe(), f.Name(), code) else PutIfDefined(f.Safe(), f.Name(), code)
  }

  function KeyOf(shape: Shape, fields: seq<Schema.Field>, i: nat): Key
    requires i < |fields|
  {
    if shape.Tuple? then Indexed(i) else Named(fields[i].Name())
  }

  function DecBlockOf(shape: Shape, fields: seq<Schema.Field>, i: nat): DecBlock
    requires i < |fields|
  {
    var f := fields[i];
    DecBlock(LocalOf(f), KeyOf(shape, fields, i), f.required, Decode(Translate(f.ty)))
  }

  function TagStmts(shape: Shape): seq<EncStmt> {
    if shape.Tagged? then [PutConst(shape.tag, shape.name)] else []
  }

  function EncodeOf(r: Record): EncodeBody {
    if r.shape.Tuple? then
      EncodeTuple(
        SafeIdents(r.fields),
        seq(|r.fields|, i requires 0 <= i < |r.fields| =>
          (r.fields[i].Safe(), Encode(Translate(r.fields[i].ty)))))
    else EncodeObject(TagStmts(r.shape) + FieldStmts(r.fields))
  }

  function FieldStmts(fields: seq<Schema.Field>): seq<EncStmt> {
    seq(|fields|, i requires 0 <= i < |fields| => EncStmtOf(fields[i]))
  }

  function SafeIdents(fields: seq<Schema.Field>): seq<string> {
    seq(|fields|, i requires 0 <= i < |fields| => fields[i].Safe())
  }

  function Locals(fields: seq<Schema.Field>): seq<string> {
    seq(|fields|, i requires 0 <= i < |fields| => LocalOf(fields[i]))
  }

  function BlocksOf(r: Record): seq<DecBlock> {
    seq(|r.fields|, i requires 0 <= i < |r.fields| => DecBlockOf(r.shape, r.fields, i))
  }

  function RecordClass(cls: Path, r: Record): Class {
    Class(SafeIdents(r.fields), EncodeOf(r), DecodeNew(BlocksOf(r), cls, Locals(r.fields)))
  }

  method BuildConstructor(fields: seq<Schema.Field>) returns (params: seq<string>)
    ensures params == SafeIdents(fields)
  {
    params := [];
    for i := 0 to |fields|
      invariant params == SafeIdents(fields)[..i]
    {
      params := params + [fields[i].Safe()];
    }
  }

  method EncodeMethod(fields: seq<Schema.Field>, extra: Option<EncStmt>) returns (body: EncodeBody)
    ensures body == EncodeObject((if extra.Some? then [extra.value] else []) + FieldStmts(fields))
  {
    var out := if extra.Some? then [extra.value] else [];
    ghost var start := out;
    for i := 0 to |fields|
      invariant out == start + FieldStmts(fields)[..i]
    {
      var code := Encode(Translate(fields[i].ty));
      if fields[i].required {
        out := out + [PutRequired(fields[i].Safe(), fields[i].Name(), code)];
      } else {
        out := out + [PutIfDefined(fields[i].Safe(), fields[i].Name(), code)];
      }
    }
    body := EncodeObject(out);
  }

  method EncodeTupleMethod(fields: seq<Schema.Field>) returns (body: EncodeBody)
    ensures body == EncodeOf(Record(fields, Tuple))
  {
    var guards: seq<string> := [];
    var values: seq<(string, EncCode)> := [];
    for i := 0 to |fields|
      invariant guards == SafeIdents(fields)[..i]
      invariant |values| == i
      invariant forall k :: 0 <= k < i ==> values[k] == (fields[k].Safe(), Encode(Translate(fields[k].ty)))
    {
      guards := guards + [fields[i].Safe()];
      values := values + [(fields[i].Safe(), Encode(Translate(fields[i].ty)))];
    }
    body := EncodeTuple(guards, values);
  }

  method DecodeMethod(cls: Path, r: Record) returns (body: DecodeBody)
    ensures body == RecordClass(cls, r).decode
  {
    var blocks: seq<DecBlock> := [];
    var arguments: seq<string> := [];
    for i := 0 to |r.fields|
      invariant blocks == BlocksOf(r)[..i]
      invariant arguments == Locals(r.fields)[..i]
    {
      var f := r.fields[i];
      var local := "v_" + f.ident;
      arguments := arguments + [local];
      blocks := blocks + [DecBlock(local, KeyOf(r.shape, r.fields, i), f.required, Decode(Translate(f.ty)))];
    }
    body := DecodeNew(blocks, cls, arguments);
  }

  /** The class emitted for anything that has fields. */
  method ProcessRecord(cls: Path, r: Record) returns (out: Class)
    ensures out == RecordClass(cls, r)
  {
    var params := BuildConstructor(r.fields);
    var decode := DecodeMethod(cls, r);
    var encode;
    match r.shape {
      case Tuple => encode := EncodeTupleMethod(r.fields);
      case Plain => encode := EncodeMethod(r.fields, None);
      case Tagged(tag, name) => encode := EncodeMethod(r.fields, Some(PutConst(tag, name)));
    }
    out := Class(params, encode, decode);
  }

  // Enums

  function VariantVal(value: Schema.VariantValue): Val {
    match value
    case StringValue(text) => Str(text)
    case NumberValue(n) => Num(Finite(n as real))
  }

  function EnumMember(path: Path, v: Schema.Variant): Val {
    Inst(path, map["name" := Str(v.ident), "value" := VariantVal(v.value)])
  }

  function EnumMembers(path: Path, vs: seq<Schema.Variant>): seq<Val> {
    seq(|vs|, i requires 0 <= i < |vs| => EnumMember(path, vs[i]))
  }

  function EnumClass(path: Path, vs: seq<Schema.Variant>): Class {
    Class(["name", "value"], EncodeMember("value"), DecodeMember("value", EnumMembers(path, vs)))
  }

  method ProcessEnum(path: Path, vs: seq<Schema.Variant>) returns (out: Class)
    ensures out == EnumClass(path, vs)
  {
    var values: seq<Val> := [];
    for i := 0 to |vs|
      invariant values == EnumMembers(path, vs)[..i]
    {
      values := values + [EnumMember(path, vs[i])];
    }
    assert values == EnumMembers(path, vs);
    out := Class(["name", "value"], EncodeMember("value"), DecodeMember("value", values));
  }

  // Interfaces

  function SubRecord(fields: seq<Schema.Field>, strategy: Schema.Strategy, s: Schema.SubType): Record {
    Record(fields + s.fields, if strategy.Tagged? then Tagged(strategy.tag, s.Name()) else Plain)
  }

  function SubPath(path: Path, s: Schema.SubType): Path { path + [s.ident] }

  function RequiredNames(fields: seq<Schema.Field>): seq<string> {
    if fields == [] then []
    else
      var last := fields[|fields| - 1];
      RequiredNames(fields[..|fields| - 1]) + if last.required then [last.Name()] else []
  }

  function TagCases(path: Path, subs: seq<Schema.SubType>): seq<(string, Path)> {
    seq(|subs|, i requires 0 <= i < |subs| => (subs[i].Name(), SubPath(path, subs[i])))
  }

  function Choices(path: Path, subs: seq<Schema.SubType>): seq<(seq<string>, Path)> {
    seq(|subs|, i requires 0 <= i < |subs| => (RequiredNames(subs[i].fields), SubPath(path, subs[i])))
  }

  function InterfaceClass(path: Path, subs: seq<Schema.SubType>, strategy: Schema.Strategy): Class {
    Class([], NoEncode,
      if strategy.Tagged? then DecodeTagged(strategy.tag, TagCases(path, subs))
      else DecodeUntagged(Choices(path, subs)))
  }

  /** The tagged dispatcher: one comparison per sub-type. */
  method DecodeByTag(path: Path, subs: seq<Schema.SubType>, tag: string) returns (body: DecodeBody)
    ensures body == DecodeTagged(tag, TagCases(path, subs))
  {
    var cases: seq<(string, Path)> := [];
    for i := 0 to |subs|
      invariant cases == TagCases(path, subs)[..i]
    {
      cases := cases + [(subs[i].Name(), SubPath(path, subs[i]))];
    }
    assert cases == TagCases(path, subs);
    body := DecodeTagged(tag, cases);
  }

  /** The untagged dispatcher: one test of required keys per sub-type, in order. */
  method DecodeByKeys(path: Path, subs: seq<Schema.SubType>) returns (body: DecodeBody)
    ensures body == DecodeUntagged(Choices(path, subs))
  {
    var choices: seq<(seq<string>, Path)> := [];
    for i := 0 to |subs|
      invariant choices == Choices(path, subs)[..i]
    {
      var names := DiscriminatingFields(subs[i].fields);
      choices := choices + [(names, SubPath(path, subs[i]))];
    }
    assert choices == Choices(path, subs);
    body := DecodeUntagged(choices);
  }

  method ProcessSubTypes(path: Path, fields: seq<Schema.Field>, subs: seq<Schema.SubType>, strategy: Schema.Strategy)
    returns (out: map<Path, Class>)
    requires DistinctIdents(subs)
    ensures out.Keys == set s <- subs :: SubPath(path, s)
    ensures EmittedSubTypes(out, path, fields, subs, strategy)
  {
    out := map[];
    for i := 0 to |subs|
      invariant out.Keys == set s <- subs[..i] :: SubPath(path, s)
      invariant EmittedSubTypes(out, path, fields, subs[..i], strategy)
    {
      var q := SubPath(path, subs[i]);
      var c := ProcessRecord(q, SubRecord(fields, strategy, subs[i]));
      forall k | 0 <= k < i
        ensures SubPath(path, subs[k]) != q
      {
        assert SubPath(path, subs[k])[|path|] != q[|path|];
      }
      assert subs[..i + 1] == subs[..i] + [subs[i]];
      out := out[q := c];
    }
    assert subs[..|subs|] == subs;
  }

  /** The interface's dispatching class and one class per sub-type. */
  method ProcessInterface(path: Path, d: Schema.Decl) returns (out: map<Path, Class>)
    requires d.InterfaceDecl? && DistinctIdents(d.subTypes)
    ensures out.Keys == DeclPaths(path, d)
    ensures EmittedDecl(out, path, d)
  {
    var decode;
    match d.strategy {
      case Tagged(tag) => decode := DecodeByTag(path, d.subTypes, tag);
      case Untagged => decode := DecodeByKeys(path, d.subTypes);
    }
    out := ProcessSubTypes(path, d.fields, d.subTypes, d.strategy);
    forall s | s in d.subTypes
      ensures SubPath(path, s) != path
    {
      assert |SubPath(path, s)| != |path|;
    }
    out := out[path := Class([], NoEncode, decode)];
  }

  method DiscriminatingFields(fields: seq<Schema.Field>) returns (names: seq<string>)
    ensures names == RequiredNames(fields)
  {
    names := [];
    for i := 0 to |fields|
      invariant names == RequiredNames(fields[..i])
    {
      assert fields[..i + 1][..i] == fields[..i];
      if fields[i].required {
        names := names + [fields[i].Name()];
      }
    }
    assert fields[..|fields|] == fields;
  }

  // Whole programs

  /** The classes a declaration contributes. */
  function DeclPaths(path: Path, d: Schema.Decl): set<Path> {
    {path} + if d.InterfaceDecl? then set s <- d.subTypes :: SubPath(path, s) else {}
  }

  /** Names are registered once, so no two declarations contribute the same class. */
  predicate Registered(env: Env) {
    && (forall p, q :: p in env && q in env && p != q ==> DeclPaths(p, env[p]) !! DeclPaths(q, env[q]))
    && (forall p :: p in env && env[p].InterfaceDecl? ==> DistinctIdents(env[p].subTypes))
  }

  predicate DistinctIdents(subs: seq<Schema.SubType>) {
    forall i, j :: 0 <= i < j < |subs| ==> subs[i].ident != subs[j].ident
  }

  ghost predicate EmittedSubTypes(
    classes: map<Path, Class>, path: Path, fields: seq<Schema.Field>, subs: seq<Schema.SubType>,
    strategy: Schema.Strategy
  ) {
    forall i :: 0 <= i < |subs| ==>
      var q := SubPath(path, subs[i]);
      q in classes && classes[q] == RecordClass(q, SubRecord(fields, strategy, subs[i]))
  }

  ghost predicate EmittedDecl(classes: map<Path, Class>, path: Path, d: Schema.Decl) {
    && path in classes
    && match d
       case TypeDecl(_, fields, _) => classes[path] == RecordClass(path, Record(fields, Plain))
       case TupleDecl(_, fields, _) => classes[path] == RecordClass(path, Record(fields, Tuple))
       case EnumDecl(_, vs) => classes[path] == EnumClass(path, vs)
       case InterfaceDecl(_, fields, _, subs, strategy) =>
         && classes[path] == InterfaceClass(path, subs, strategy)
         && EmittedSubTypes(classes, path, fields, subs, strategy)
  }

  /** The classes that the declarations outside `todo` contribute. */
  function PathsWithout(env: Env, todo: set<Path>): set<Path> {
    set path, c | path in env && path !in todo && c in DeclPaths(path, env[path]) :: c
  }

  ghost predicate Emitted(classes: map<Path, Class>, env: Env) {
    forall path :: path in env ==> EmittedDecl(classes, path, env[path])
  }

  method ProcessDecl(path: Path, d: Schema.Decl) returns (out: map<Path, Class>)
    requires d.InterfaceDecl? ==> DistinctIdents(d.subTypes)
    ensures out.Keys == DeclPaths(path, d)
    ensures EmittedDecl(out, path, d)
  {
    match d {
      case TypeDecl(_, fields, _) =>
        var c := ProcessRecord(path, Record(fields, Plain));
        out := map[path := c];
      case TupleDecl(_, fields, _) =>
        var c := ProcessRecord(path, Record(fields, Tuple));
        out := map[path := c];
      case EnumDecl(_, vs) =>
        var c := ProcessEnum(path, vs);
        out := map[path := c];
      case InterfaceDecl(_, _, _, _, _) =>
        out := ProcessInterface(path, d);
    }
  }

  /** Processes the declarations in any order. */
  method Compile(env: Env) returns (classes: map<Path, Class>)
    requires Registered(env)
    ensures Emitted(classes, env) && classes.Keys == PathsWithout(env, {})
  {
    classes := map[];
    var todo := env.Keys;
    while todo != {}
      invariant todo <= env.Keys
      invariant classes.Keys == PathsWithout(env, todo)
      invariant forall p :: p in env && p !in todo ==> EmittedDecl(classes, p, env[p])
      decreases |todo|
    {
      var path :| path in todo;
      var out := ProcessDecl(path, env[path]);
      EmittedStep(classes, out, env, todo, path);
      PathsStep(env, todo, path);
      hide *;
      classes := classes + out;
      todo := todo - {path};
    }
  }

  lemma PathsStep(env: Env, todo: set<Path>, path: Path)
    requires path in env && path in todo
    ensures PathsWithout(env, todo - {path}) == PathsWithout(env, todo) + DeclPaths(path, env[path])
  {
  }

  lemma EmittedStep(classes: map<Path, Class>, out: map<Path, Class>, env: Env, todo: set<Path>, path: Path)
    requires Registered(env) && path in env && path in todo && todo <= env.Keys
    requires forall p :: p in env && p !in todo ==> EmittedDecl(classes, p, env[p])
    requires out.Keys == DeclPaths(path, env[path]) && EmittedDecl(out, path, env[path])
    ensures forall p :: p in env && p !in todo - {path} ==> EmittedDecl(classes + out, p, env[p])
  {
    forall p | p in env && p !in todo - {path}
      ensures EmittedDecl(classes + out, p, env[p])
    {
      if p == path {
        EmittedRight(classes, out, p, env[p]);
      } else {
        EmittedFrame(classes, out, p, env[p]);
      }
    }
  }

  lemma EmittedFrame(classes: map<Path, Class>, out: map<Path, Class>, p: Path, d: Schema.Decl)
    requires EmittedDecl(classes, p, d) && DeclPaths(p, d) !! out.Keys
    ensures EmittedDecl(classes + out, p, d)
  {
    assert p in DeclPaths(p, d);
    if d.InterfaceDecl? {
      forall i | 0 <= i < |d.subTypes|
        ensures SubPath(p, d.subTypes[i]) in DeclPaths(p, d)
      {
      }
    }
  }

  lemma EmittedRight(classes: map<Path, Class>, out: map<Path, Class>, p: Path, d: Schema.Decl)
    requires EmittedDecl(out, p, d)
    ensures EmittedDecl(classes + out, p, d)
  {
  }
}
