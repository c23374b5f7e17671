/** Schemas and well-typed values whose emitted code does not round-trip: an instance of each trap that
    `JsRoundTrip.Clean` and `JsPipeline.Legal` name. And a smallest schema whose values do. */
module JsTraps {
  import opened Wrappers
  import Schema
  import opened Js
  import opened JsBackend
  import opened JsRoundTrip
  import opened JsLoading
  import JsPipeline
  import Registry
  import SchemaRules
  import Untagged

  const T: Path := ["T"]

  const SCOPE: SchemaRules.Scope := SchemaRules.Scope(map[], None, None)

  /** The checker accepts the declarations, and they register as `entries`. */
  predicate Compiles(asts: seq<Schema.AstDecl>, entries: seq<Registry.Entry>) {
    && (forall i :: 0 <= i < |asts| ==> SchemaRules.DeclOk(SCOPE, asts[i]))
    && entries == Registry.FlattenAll([], Registry.FileModel(SCOPE, asts))
    && SchemaRules.Distinct(Registry.AllNames(entries))
  }

  // Schemas with one field

  function PlainField(required: bool, ident: string, ty: Schema.RpType): Schema.Field {
    Schema.Field(required, None, ident, ty, None)
  }

  function StringField(required: bool, ident: string): Schema.Field {
    PlainField(required, ident, Schema.RpType.String)
  }

  function MapOf(key: Schema.RpType, value: Schema.RpType): Schema.RpType { Schema.RpType.Map(key, value) }

  function OneDecl(name: string, f: Schema.Field): Schema.Decl { Schema.TypeDecl(name, [f], []) }

  function OneType(name: string, f: Schema.Field): Env { map[[name] := OneDecl(name, f)] }

  function OneTuple(f: Schema.Field): Env {
    map[T := Schema.TupleDecl("T", [f], [])]
  }

  function FieldAst(f: Schema.Field): Schema.AstMember {
    Schema.FieldMember(Schema.AstField(f.required, f.ident, Some(f.ty), None, true))
  }

  /** The file with that type. */
  function OneFile(name: string, f: Schema.Field): seq<Schema.AstDecl> {
    [Schema.TypeAst(name, {}, [FieldAst(f)])]
  }

  /** Its module. */
  function OneModule(name: string, f: Schema.Field, inherited: set<string>): Program {
    Program([], map[[name] := RecordClass([name], Record([f], Plain))], inherited)
  }

  function Holding(cls: Path, f: Schema.Field, x: Val): Val { Inst(cls, map[f.Safe() := x]) }

  lemma OneTypeSafe(name: string, f: Schema.Field)
    requires f.Name() != PROTO
    ensures EnvSafe(OneType(name, f)) && RecordAt(OneType(name, f), [name]) == Some(Record([f], Plain))
  {
  }

  lemma OneTupleSafe(f: Schema.Field)
    requires f.Name() != PROTO
    ensures EnvSafe(OneTuple(f)) && RecordAt(OneTuple(f), T) == Some(Record([f], Tuple))
  {
  }

  lemma OneModuleEmitted(name: string, f: Schema.Field, inherited: set<string>)
    ensures var p, env := OneModule(name, f, inherited), OneType(name, f);
      Emitted(p.classes, env) && p.classes.Keys == PathsWithout(env, {})
    ensures TypeIdent(name) ==> Lexical([], OneType(name, f))
  {
    var env := OneType(name, f);
    assert PathsWithout(env, {}) == {[name]} by {
      assert [name] in DeclPaths([name], env[[name]]);
    }
    assert [name][0..] == [name];
  }

  lemma HoldingTyped(env: Env, cls: Path, f: Schema.Field, x: Val)
    requires RecordAt(env, cls).Some? && RecordAt(env, cls).value.fields == [f] && cls in env && !env[cls].EnumDecl?
    requires if x == Null then !f.required else x != Undefined && WellTyped(env, f.ty, x)
    ensures IsRecord(env, cls, Holding(cls, f, x)) && !IsEnumMember(env, cls, Holding(cls, f, x))
  {
    var v, fields := Holding(cls, f, x), [f];
    forall n | n in SafeSet(fields)
      ensures n == f.Safe()
    {
    }
    assert fields[0].Safe() in SafeSet(fields);
    assert v.members.Keys == SafeSet(fields);
  }

  lemma FieldOfAst(f: Schema.Field)
    requires f == PlainField(f.required, f.ident, f.ty)
    ensures SchemaRules.FieldsOf(SCOPE, [FieldAst(f)]) == [f] && SchemaRules.InnerIdents([FieldAst(f)]) == []
    ensures SchemaRules.MembersFine(SCOPE, [FieldAst(f)]) && SchemaRules.DeclsOf(SCOPE, [FieldAst(f)]) == []
  {
    var ms := [FieldAst(f)];
    assert ms[..0] == [];
    assert SchemaRules.MembersFine(SCOPE, ms[..0]) && SchemaRules.MemberFine(SCOPE, ms[0]);
    assert SchemaRules.DeclsOf(SCOPE, ms[..0]) == [] && SchemaRules.InnerModel(SCOPE, ms[0]) == [];
  }

  lemma OneFlattens(d: Schema.Decl)
    requires Registry.InnerDecls(d) == []
    ensures Registry.FlattenAll([], [d]) == [([d.ident], d)]
  {
    assert [d][..0] == [] && [] + [d.ident] == [d.ident];
    assert Registry.Flatten([d.ident], d) == [([d.ident], d)];
  }

  lemma OneNamed(entry: Registry.Entry)
    ensures Registry.AllNames([entry]) == Registry.RegNames(entry)
  {
    hide Registry.RegNames;
    assert [entry][..0] == [] && Registry.AllNames([entry][..0]) == [];
  }

  lemma OneRegisters(ast: Schema.AstDecl, d: Schema.Decl)
    requires SchemaRules.DeclOk(SCOPE, ast) && SchemaRules.DeclModel(SCOPE, ast) == d
    requires Registry.InnerDecls(d) == [] && SchemaRules.Distinct(Registry.RegNames(([d.ident], d)))
    ensures Compiles([ast], [([d.ident], d)])
  {
    hide SchemaRules.DeclOk, SchemaRules.DeclModel, Registry.InnerDecls, Registry.RegNames, Registry.FlattenAll,
      Registry.AllNames, SchemaRules.Distinct;
    assert Registry.FileModel(SCOPE, [ast]) == [d];
    OneFlattens(d);
    OneNamed(([d.ident], d));
  }

  lemma OneTypeModel(name: string, f: Schema.Field)
    requires f == PlainField(f.required, f.ident, f.ty)
    ensures SchemaRules.DeclOk(SCOPE, OneFile(name, f)[0])
    ensures SchemaRules.DeclModel(SCOPE, OneFile(name, f)[0]) == OneDecl(name, f)
  {
    var ast := OneFile(name, f)[0];
    FieldOfAst(f);
    assert ast == Schema.TypeAst(name, {}, [FieldAst(f)]);
    hide FieldAst, SchemaRules.FieldsOf, SchemaRules.DeclsOf, SchemaRules.MembersFine, SchemaRules.InnerIdents;
  }

  lemma OneTypeCompiles(name: string, f: Schema.Field)
    requires f == PlainField(f.required, f.ident, f.ty)
    ensures Compiles(OneFile(name, f), [([name], OneDecl(name, f))])
  {
    var d := OneDecl(name, f);
    assert OneFile(name, f) == [OneFile(name, f)[0]] && d.ident == name;
    assert Registry.InnerDecls(d) == [] && Registry.RegNames(([name], d)) == [[name]];
    assert SchemaRules.Distinct([[name]]);
    hide *;
    OneTypeModel(name, f);
    OneRegisters(OneFile(name, f)[0], d);
  }

  /** Names as the lexer reads them that need no escape and can be bound. */
  predicate PlainName(ident: string) {
    JsPipeline.FieldIdent(ident) && JsPipeline.Bindable(ident) && !JsPipeline.JsKeyword(ident) && ident != PROTO
  }

  lemma PlainNames()
    ensures PlainName("a") && PlainName("b") && PlainName("m") && PlainName("constructor") && PlainName("encode")
  {
    ShortName("a");
    ShortName("b");
    ShortName("m");
    if JsPipeline.JsKeyword("constructor") {
      JsPipeline.KeywordStarts("constructor");
    }
    if JsPipeline.JsKeyword("encode") {
      JsPipeline.KeywordStarts("encode");
    }
    hide JsPipeline.JsKeyword;
    assert PROTO[0] == '_' && "constructor"[0] == 'c' && "encode"[0] == 'e';
    assert |"encode"| != |"eval"| && |"constructor"| != |"arguments"| && |"encode"| != |"arguments"|;
  }

  lemma ShortName(ident: string)
    requires |ident| == 1 && 'a' <= ident[0] <= 'z'
    ensures PlainName(ident)
  {
    if JsPipeline.JsKeyword(ident) {
      JsPipeline.KeywordStarts(ident);
    }
    assert |PROTO| != 1 && |"eval"| != 1 && |"arguments"| != 1;
    hide JsPipeline.JsKeyword;
  }

  lemma OneTypeLoads(name: string, f: Schema.Field, inherited: set<string>)
    requires TypeIdent(name) && f == PlainField(f.required, f.ident, f.ty) && PlainName(f.ident)
    ensures Loads(OneModule(name, f, inherited)) <==> TypeLoads(Translate(f.ty))
  {
    hide *;
    var p, env := OneModule(name, f, inherited), OneType(name, f);
    PlainFacts(name, f, inherited);
    OneTypeSafe(name, f);
    OneModuleEmitted(name, f, inherited);
    LoadsIff(p, env);
  }

  lemma PlainFacts(name: string, f: Schema.Field, inherited: set<string>)
    requires f == PlainField(f.required, f.ident, f.ty) && PlainName(f.ident)
    ensures OneModule(name, f, inherited).package == [] && f.Name() != PROTO && JsPipeline.JsField(f)
    ensures Loadable(OneType(name, f)) <==> TypeLoads(Translate(f.ty))
  {
    assert JsPipeline.JsField(f);
    JsPipeline.FieldBinds(f);
    hide BindingName, LocalOf, JsPipeline.JsKeyword, JsPipeline.FieldIdent;
    var env := OneType(name, f);
    assert FieldLoads([f][0]) <==> TypeLoads(Translate(f.ty));
    assert DeclLoads(env[[name]]) <==> FieldLoads(f);
  }

  // Values that do not survive

  /** `type T { constructor?: string; }`: a value without the field decodes to something else, or not
      at all, because reading the absent property finds the inherited function. */
  lemma InheritedNameTrap(inherited: set<string>)
    requires "constructor" in inherited
    ensures var f := StringField(false, "constructor");
      && Compiles(OneFile("T", f), [(T, OneDecl("T", f))])
      && WellTyped(OneType("T", f), Schema.RpType.Name(T), Holding(T, f, Null))
      && Loads(OneModule("T", f, inherited))
      && !Survives(OneModule("T", f, inherited), Schema.RpType.Name(T), Holding(T, f, Null))
  {
    hide Survives, Clean, CleanRecord, WellTyped, EnvSafe, Emitted, PathsWithout, IsRecord, IsEnumMember, RecordAt;
    hide Loads, Compiles, PlainName;
    var f := StringField(false, "constructor");
    var env, v, p := OneType("T", f), Holding(T, f, Null), OneModule("T", f, inherited);
    OneTypeSafe("T", f);
    OneModuleEmitted("T", f, inherited);
    HoldingTyped(env, T, f, Null);
    InheritedUnclean(env, p.Hosted(), f);
    PlainNames();
    OneTypeCompiles("T", f);
    OneTypeLoads("T", f, inherited);
    hide *;
    NotClean(p, env, T, v);
  }

  lemma InheritedUnclean(env: Env, host: Host, f: Schema.Field)
    requires "constructor" in host.inherited && f == StringField(false, "constructor")
    requires env == OneType("T", f) && IsRecord(env, T, Holding(T, f, Null))
    ensures !CleanRecord(env, host, T, Holding(T, f, Null))
  {
    assert RecordAt(env, T).value.fields[0] == f;
  }

  lemma NotClean(p: Program, env: Env, cls: Path, v: Val)
    requires EnvSafe(env) && Emitted(p.classes, env) && IsRecord(env, cls, v) && !IsEnumMember(env, cls, v)
    requires !CleanRecord(env, p.Hosted(), cls, v)
    ensures WellTyped(env, Schema.RpType.Name(cls), v) && !Survives(p, Schema.RpType.Name(cls), v)
  {
    hide Survives, EnvSafe, Emitted, IsRecord, IsEnumMember, CleanRecord;
    SurvivesIff(p, env, Schema.RpType.Name(cls), v);
  }

  /** `type T { encode: string; }`: the member shadows the method, so `encode()` throws. */
  lemma EncodeMemberTrap(inherited: set<string>, text: string)
    ensures var f, p := StringField(true, "encode"), OneModule("T", StringField(true, "encode"), inherited);
      && Compiles(OneFile("T", f), [(T, OneDecl("T", f))])
      && WellTyped(OneType("T", f), Schema.RpType.Name(T), Holding(T, f, Str(text)))
      && Loads(p)
      && RunEncode(p, Holding(T, f, Str(text))).Throws?
  {
    var f, p := StringField(true, "encode"), OneModule("T", StringField(true, "encode"), inherited);
    assert f == PlainField(f.required, f.ident, f.ty) && TypeLoads(Translate(f.ty)) && TypeIdent("T");
    hide *;
    MemberShadows(p, f, text);
    PlainNames();
    OneTypeCompiles("T", f);
    OneTypeLoads("T", f, inherited);
  }

  lemma MemberShadows(p: Program, f: Schema.Field, text: string)
    requires f == StringField(true, "encode")
    ensures WellTyped(OneType("T", f), Schema.RpType.Name(T), Holding(T, f, Str(text)))
    ensures RunEncode(p, Holding(T, f, Str(text))).Throws?
  {
    OneTypeSafe("T", f);
    HoldingTyped(OneType("T", f), T, f, Str(text));
  }

  /** `type T { m: {string: string}; }`: of a map with the key `__proto__`, that key is lost. */
  lemma PrototypeKeyTrap(inherited: set<string>, text: string)
    ensures var f := PlainField(true, "m", MapOf(Schema.RpType.String, Schema.RpType.String));
      var v := Holding(T, f, Obj(map[PROTO := Str(text)]));
      && Compiles(OneFile("T", f), [(T, OneDecl("T", f))])
      && WellTyped(OneType("T", f), Schema.RpType.Name(T), v)
      && Loads(OneModule("T", f, inherited))
      && !Survives(OneModule("T", f, inherited), Schema.RpType.Name(T), v)
  {
    var f := PlainField(true, "m", MapOf(Schema.RpType.String, Schema.RpType.String));
    var x := Obj(map[PROTO := Str(text)]);
    assert f == PlainField(f.required, f.ident, f.ty) && f.ident == "m" && T == ["T"] && TypeIdent("T");
    assert f.Name() != PROTO by {
      assert |PROTO| != |"m"|;
    }
    hide *;
    PrototypeKey(OneType("T", f), OneModule("T", f, inherited).Hosted(), f, text);
    UncleanLost("T", f, x, inherited);
    PlainNames();
    OneTypeCompiles("T", f);
    OneTypeLoads("T", f, inherited);
  }

  lemma PrototypeKey(env: Env, host: Host, f: Schema.Field, text: string)
    requires f.ty == MapOf(Schema.RpType.String, Schema.RpType.String)
    ensures var ty, x := f.ty, Obj(map[PROTO := Str(text)]);
      TypeLoads(Translate(ty)) && WellTyped(env, ty, x) && !Clean(env, host, ty, x)
  {
    var x := Obj(map[PROTO := Str(text)]);
    assert Translate(f.ty) == JsBackend.Map(String, String);
    assert PROTO in x.props;
  }

  /** What is lost in a field is lost in the record. */
  lemma UncleanLost(name: string, f: Schema.Field, x: Val, inherited: set<string>)
    requires f.Name() != PROTO && x != Null && x != Undefined
    requires var env, host := OneType(name, f), OneModule(name, f, inherited).Hosted();
      WellTyped(env, f.ty, x) && !Clean(env, host, f.ty, x)
    ensures WellTyped(OneType(name, f), Schema.RpType.Name([name]), Holding([name], f, x))
    ensures !Survives(OneModule(name, f, inherited), Schema.RpType.Name([name]), Holding([name], f, x))
  {
    hide *;
    OneTypeSafe(name, f);
    OneModuleEmitted(name, f, inherited);
    HoldingUnclean(name, f, x, inherited);
    NotClean(OneModule(name, f, inherited), OneType(name, f), [name], Holding([name], f, x));
  }

  lemma HoldingUnclean(name: string, f: Schema.Field, x: Val, inherited: set<string>)
    requires f.Name() != PROTO && x != Null && x != Undefined
    requires var env, host := OneType(name, f), OneModule(name, f, inherited).Hosted();
      WellTyped(env, f.ty, x) && !Clean(env, host, f.ty, x)
    ensures var env, v := OneType(name, f), Holding([name], f, x);
      && IsRecord(env, [name], v) && !IsEnumMember(env, [name], v)
      && !CleanRecord(env, OneModule(name, f, inherited).Hosted(), [name], v)
  {
    var env := OneType(name, f);
    assert [name] in env && !env[[name]].EnumDecl?;
    hide *;
    OneTypeSafe(name, f);
    HoldingTyped(env, [name], f, x);
    FieldUnclean(env, OneModule(name, f, inherited).Hosted(), [name], f, x);
  }

  lemma FieldUnclean(env: Env, host: Host, cls: Path, f: Schema.Field, x: Val)
    requires IsRecord(env, cls, Holding(cls, f, x)) && RecordAt(env, cls).value.fields == [f] && x != Null
    requires WellTyped(env, f.ty, x) && !Clean(env, host, f.ty, x)
    ensures !CleanRecord(env, host, cls, Holding(cls, f, x))
  {
    assert RecordAt(env, cls).value.fields[0] == f;
  }

  /** `tuple T { a?: string; }`: a tuple with an absent optional field cannot be encoded. */
  lemma AbsentTupleFieldTrap(p: Program)
    requires Emitted(p.classes, OneTuple(StringField(false, "a")))
    ensures var f := StringField(false, "a");
      && WellTyped(OneTuple(f), Schema.RpType.Name(T), Holding(T, f, Null))
      && !Survives(p, Schema.RpType.Name(T), Holding(T, f, Null))
  {
    var f := StringField(false, "a");
    var env, v := OneTuple(f), Holding(T, f, Null);
    OneTupleSafe(f);
    HoldingTyped(env, T, f, Null);
    assert RecordAt(env, T).value.fields[0] == f;
    SurvivesIff(p, env, Schema.RpType.Name(T), v);
  }

  /** `type Number { a: u32; }`: inside the module `Number.isInteger` is looked up in this class, and every
      decode throws. */
  lemma ShadowedGlobalTrap(n: int)
    ensures var f := PlainField(true, "a", Schema.RpType.Number(Schema.U32));
      var v := Holding(["Number"], f, Num(Finite(n as real)));
      && Compiles(OneFile("Number", f), [(["Number"], OneDecl("Number", f))])
      && WellTyped(OneType("Number", f), Schema.RpType.Name(["Number"]), v)
      && Loads(OneModule("Number", f, {}))
      && !Survives(OneModule("Number", f, {}), Schema.RpType.Name(["Number"]), v)
  {
    var f := PlainField(true, "a", Schema.RpType.Number(Schema.U32));
    var x := Num(Finite(n as real));
    assert f == PlainField(f.required, f.ident, f.ty) && f.ident == "a" && TypeIdent("Number");
    assert f.Name() != PROTO by {
      assert |PROTO| != |"a"|;
    }
    assert f.ty == Schema.RpType.Number(Schema.U32) && x != Null && x != Undefined;
    hide *;
    NumberShadowed(f);
    IntegerUnclean(OneType("Number", f), OneModule("Number", f, {}).Hosted(), n);
    UncleanLost("Number", f, x, {});
    PlainNames();
    OneTypeCompiles("Number", f);
    OneTypeLoads("Number", f, {});
  }

  lemma NumberShadowed(f: Schema.Field)
    ensures "Number" in OneModule("Number", f, {}).Hosted().shadowed
  {
    var p, env := OneModule("Number", f, {}), OneType("Number", f);
    OneModuleEmitted("Number", f, {});
    assert p.package + ["Number"] == ["Number"] && TypeIdent("Number");
    hide Emitted, PathsWithout, Lexical;
    ShadowedIff(p, env, "Number");
  }

  lemma IntegerUnclean(env: Env, host: Host, n: int)
    requires "Number" in host.shadowed
    ensures var ty, x := Schema.RpType.Number(Schema.U32), Num(Finite(n as real));
      TypeLoads(Translate(ty)) && WellTyped(env, ty, x) && !Clean(env, host, ty, x)
  {
  }

  // An untagged sub-type that requires only an inherited name

  const I: Path := ["I"]
  const IB: Path := ["I", "B"]
  const FIRST: Schema.Field := StringField(true, "constructor")
  const SECOND: Schema.Field := StringField(true, "b")

  function Sub(ident: string, f: Schema.Field): Schema.SubType { Schema.SubType(ident, [f], [], None) }

  function SubAst(ident: string, f: Schema.Field): Schema.AstSubType {
    Schema.AstSubType(ident, None, {}, [FieldAst(f)])
  }

  function Subs(): seq<Schema.SubType> { [Sub("A", FIRST), Sub("B", SECOND)] }

  function Either(): Schema.Decl { Schema.InterfaceDecl("I", [], [], Subs(), Schema.Untagged) }

  function EitherEnv(): Env { map[I := Either()] }

  /** `#[type_info(strategy = "untagged")] interface I { A { constructor: string; } B { b: string; } }` */
  function EitherFile(): seq<Schema.AstDecl> {
    var info := Schema.Selection([], map["strategy" := Schema.StringAst("untagged")]);
    [Schema.InterfaceAst("I", {}, Some(info), [], [SubAst("A", FIRST), SubAst("B", SECOND)])]
  }

  lemma EitherNames()
    ensures FIRST.Name() == "constructor" && SECOND.Name() == "b" && FIRST.Name() != SECOND.Name()
    ensures Subs()[0].Required() == {"constructor"} && Subs()[1].Required() == {"b"}
  {
    assert |"constructor"| != |"b"|;
    assert FIRST in Subs()[0].fields && SECOND in Subs()[1].fields;
  }

  lemma EitherRules()
    ensures SchemaRules.InterfaceOk([], Subs(), Schema.Untagged)
  {
    var subs := Subs();
    EitherNames();
    assert "constructor" in subs[0].Required() && "constructor" !in subs[1].Required();
    assert subs[0].ident != subs[1].ident && subs[0].Name() != subs[1].Name();
    assert forall i :: 0 <= i < 2 ==> forall f :: f in subs[i].fields ==> f.required;
    assert !SchemaRules.Shadows(subs, 0, 2) && !SchemaRules.Shadows(subs, 1, 2);
  }

  lemma SubTypeIsOk(ident: string, f: Schema.Field)
    requires f == PlainField(f.required, f.ident, f.ty)
    ensures SchemaRules.SubTypeOk(SCOPE, SubAst(ident, f), [], Schema.Untagged, {})
    ensures SchemaRules.SubTypeModel(SCOPE, SubAst(ident, f)) == Sub(ident, f)
  {
    FieldOfAst(f);
    assert {} + SubAst(ident, f).reserved == SubAst(ident, f).reserved;
  }

  lemma UntaggedModel(
    name: string, info: Option<Schema.Selection>, asts: seq<Schema.AstSubType>, subs: seq<Schema.SubType>
  )
    requires SchemaRules.StrategyOf(info) == Some(Schema.Untagged)
    requires SchemaRules.SubTypeModels(SCOPE, asts) == subs && SchemaRules.InterfaceOk([], subs, Schema.Untagged)
    requires forall i :: 0 <= i < |asts| ==> SchemaRules.SubTypeOk(SCOPE, asts[i], [], Schema.Untagged, {})
    ensures var ast := Schema.InterfaceAst(name, {}, info, [], asts);
      && SchemaRules.DeclOk(SCOPE, ast)
      && SchemaRules.DeclModel(SCOPE, ast) == Schema.InterfaceDecl(name, [], [], subs, Schema.Untagged)
  {
    hide SchemaRules.SubTypeOk, SchemaRules.InterfaceOk, SchemaRules.StrategyOf, SchemaRules.SubTypeModels;
    assert SchemaRules.FieldsOf(SCOPE, []) == [] && SchemaRules.DeclsOf(SCOPE, []) == [];
    assert SchemaRules.MembersOk(SCOPE, [], SchemaRules.Limits({}, {}, None, {}));
  }

  lemma EitherModel()
    ensures SchemaRules.DeclOk(SCOPE, EitherFile()[0])
    ensures SchemaRules.DeclModel(SCOPE, EitherFile()[0]) == Either()
  {
    var asts, info := [SubAst("A", FIRST), SubAst("B", SECOND)], EitherFile()[0].info;
    assert EitherFile()[0] == Schema.InterfaceAst("I", {}, info, [], asts);
    assert SchemaRules.StrategyOf(info) == Some(Schema.Untagged);
    assert FIRST == PlainField(true, "constructor", FIRST.ty) && SECOND == PlainField(true, "b", SECOND.ty);
    assert Either() == Schema.InterfaceDecl("I", [], [], Subs(), Schema.Untagged);
    assert Subs() == [Sub("A", FIRST), Sub("B", SECOND)];
    hide *;
    SubTypeIsOk("A", FIRST);
    SubTypeIsOk("B", SECOND);
    EitherRules();
    SubTypeModelsTwo(asts);
    UntaggedModel("I", info, asts, Subs());
  }

  lemma SubTypeModelsTwo(asts: seq<Schema.AstSubType>)
    requires |asts| == 2
    ensures SchemaRules.SubTypeModels(SCOPE, asts) ==
      [SchemaRules.SubTypeModel(SCOPE, asts[0]), SchemaRules.SubTypeModel(SCOPE, asts[1])]
  {
    hide SchemaRules.SubTypeModel;
  }

  lemma EitherPlaces()
    ensures Registry.InnerDecls(Either()) == []
    ensures SchemaRules.Distinct(Registry.RegNames((I, Either())))
  {
    var subs := Subs();
    assert subs[..1] == [subs[0]] && subs[..1][..0] == [];
    assert Registry.SubTypeDecls(subs[..1]) == [] && Registry.SubTypeDecls(subs) == [];
    var names := Registry.RegNames((I, Either()));
    assert names == [I + ["A"], I + ["B"]] + [I];
    assert names[0][1] != names[1][1];
  }

  lemma EitherCompiles()
    ensures Compiles(EitherFile(), [(I, Either())])
  {
    assert Either().ident == "I" && EitherFile() == [EitherFile()[0]];
    hide *;
    EitherModel();
    EitherPlaces();
    OneRegisters(EitherFile()[0], Either());
  }

  lemma EitherReady()
    ensures JsPipeline.JsReady([], (I, Either())) && JsPipeline.Legal(Either())
  {
    PlainNames();
    EitherNames();
    hide JsPipeline.JsKeyword;
    assert JsPipeline.JsField(FIRST) && JsPipeline.JsField(SECOND);
    var paths := DeclPaths(I, Either());
    forall c | c in paths
      ensures c == I || c == ["I", "A"] || c == IB
    {
    }
    assert I[0..] == I && IB[0..] == IB && ["I", "A"][0..] == ["I", "A"];
    var subs := Subs();
    assert [] + subs[0].fields == [FIRST] && [] + subs[1].fields == [SECOND];
    assert subs[0].Required() != {} && subs[1].Required() != {};
  }

  lemma OneEntrySafe(path: Path, d: Schema.Decl)
    requires JsPipeline.Accepted(d) && JsPipeline.JsReady([], (path, d))
    requires SchemaRules.Distinct(Registry.RegNames((path, d)))
    ensures EnvSafe(map[path := d]) && Lexical([], map[path := d])
    ensures Loadable(map[path := d]) <==> JsPipeline.Legal(d)
  {
    var entry := (path, d);
    assert JsPipeline.EnvOf([entry]) == map[path := d] && Registry.AllNames([entry]) == Registry.RegNames(entry) by {
      assert [entry][..0] == [] && Registry.AllNames([entry][..0]) == [];
    }
    hide *;
    JsPipeline.EntriesSafe([entry], []);
  }

  lemma EitherSafe()
    ensures EnvSafe(EitherEnv()) && Lexical([], EitherEnv()) && Loadable(EitherEnv())
  {
    assert EitherEnv() == map[I := Either()];
    hide *;
    EitherModel();
    EitherPlaces();
    JsPipeline.CheckedIsAccepted(SCOPE, EitherFile()[0]);
    EitherReady();
    OneEntrySafe(I, Either());
  }

  lemma SecondTyped(text: string)
    ensures var v := Inst(IB, map["b" := Str(text)]);
      && SubIndex(EitherEnv(), IB) == Some(1)
      && RecordAt(EitherEnv(), IB) == Some(Record([SECOND], Plain))
      && IsRecord(EitherEnv(), I, v) && !IsEnumMember(EitherEnv(), I, v)
  {
    var env, v := EitherEnv(), Inst(IB, map["b" := Str(text)]);
    assert IB[..1] == I && IB[1] == "B" && IB !in env;
    assert SubNamed(Subs(), "B") == Some(1);
    assert [] + Subs()[1].fields == [SECOND];
    assert [SECOND][0].Safe() == "b" && "b" in SafeSet([SECOND]);
    assert v.members.Keys == SafeSet([SECOND]);
    assert WellTyped(env, SECOND.ty, Str(text));
  }

  lemma SecondMissed(inherited: set<string>, text: string)
    requires "constructor" in inherited && IsRecord(EitherEnv(), I, Inst(IB, map["b" := Str(text)]))
    ensures !Reaches(EitherEnv(), inherited, I, Inst(IB, map["b" := Str(text)]))
  {
    SecondTyped(text);
    EitherNames();
    assert Subs()[0].Required() <= inherited;
    assert IB != I && Untagged.FirstMatchFrom(Subs(), {}, 0) != Some(1);
  }

  /** Every object seems to have the only name that the first sub-type requires, so values of the second are
      decoded as the first. */
  lemma InheritedDispatchTrap(p: Program, text: string)
    requires p.package == [] && "constructor" in p.inherited
    requires Emitted(p.classes, EitherEnv()) && p.classes.Keys == PathsWithout(EitherEnv(), {})
    ensures var v := Inst(IB, map["b" := Str(text)]);
      && Compiles(EitherFile(), [(I, Either())])
      && WellTyped(EitherEnv(), Schema.RpType.Name(I), v)
      && Loads(p)
      && !Survives(p, Schema.RpType.Name(I), v)
  {
    var v := Inst(IB, map["b" := Str(text)]);
    hide *;
    EitherCompiles();
    EitherSafe();
    LoadsIff(p, EitherEnv());
    SecondLost(p, v, text);
  }

  lemma SecondLost(p: Program, v: Val, text: string)
    requires v == Inst(IB, map["b" := Str(text)]) && "constructor" in p.inherited
    requires Emitted(p.classes, EitherEnv())
    ensures WellTyped(EitherEnv(), Schema.RpType.Name(I), v) && !Survives(p, Schema.RpType.Name(I), v)
  {
    assert p.Hosted().inherited == p.inherited;
    hide *;
    EitherSafe();
    SecondTyped(text);
    SecondMissed(p.inherited, text);
    MissedUnclean(EitherEnv(), p.Hosted(), I, v);
    NotClean(p, EitherEnv(), I, v);
  }

  lemma MissedUnclean(env: Env, host: Host, path: Path, v: Val)
    requires IsRecord(env, path, v) && !Reaches(env, host.inherited, path, v)
    ensures !CleanRecord(env, host, path, v)
  {
  }

  // Modules that do not load

  /** `type T { arguments: string; }` and `type T { _1a: string; }`, whose identifier is `1a`: neither can be
      the name of a parameter, so the module is a syntax error. */
  lemma UnboundNameTrap(ident: string, inherited: set<string>)
    requires ident == "arguments" || ident == "1a"
    ensures JsPipeline.FieldIdent(ident) && JsPipeline.Escape(ident) == ident
    ensures !Loads(OneModule("T", StringField(true, ident), inherited))
  {
    var f := StringField(true, ident);
    var p := OneModule("T", f, inherited);
    if JsPipeline.JsKeyword(ident) {
      JsPipeline.KeywordStarts(ident);
    }
    JsPipeline.RefusedWords();
    assert p.classes[T].params[0] == ident && !BindingName(ident);
    assert T in p.classes;
  }

  /** `type T { a: [string]; b: [string]; }`: both required arrays are collected in a `let o0` of the same
      scope. */
  lemma TwoCollectionsTrap(p: Program)
    requires var f, g := ArrayField("a"), ArrayField("b");
      T in p.classes && p.classes[T] == RecordClass(T, Record([f, g], Plain))
    ensures !Loads(p)
  {
    var r := Record([ArrayField("a"), ArrayField("b")], Plain);
    assert RecordOk(r);
    assert r.fields[0] == ArrayField("a") && r.fields[1] == ArrayField("b");
    assert Collecting(r.fields[0]) && Collecting(r.fields[1]);
    RecordLoads(T, r);
    hide ClassLoads;
  }

  function ArrayField(ident: string): Schema.Field {
    Schema.Field(true, None, ident, Schema.RpType.Array(Schema.RpType.String), None)
  }

  /** `type T { m: {[string]: [string]}; }`: the key and the value of an entry are both collected in a
      `let` of the same name. */
  lemma TwoSidedMapTrap(inherited: set<string>)
    ensures var strings := Schema.RpType.Array(Schema.RpType.String);
      var f := PlainField(true, "m", MapOf(strings, strings));
      Compiles(OneFile("T", f), [(T, OneDecl("T", f))]) && !Loads(OneModule("T", f, inherited))
  {
    var strings := Schema.RpType.Array(Schema.RpType.String);
    var f := PlainField(true, "m", MapOf(strings, strings));
    assert Translate(f.ty) == JsBackend.Map(JsBackend.Array(String), JsBackend.Array(String));
    assert !TypeLoads(Translate(f.ty));
    hide TypeLoads, Loads, Compiles, PlainName;
    PlainNames();
    OneTypeCompiles("T", f);
    OneTypeLoads("T", f, inherited);
  }

  /** An untagged sub-type without required fields is tested with `if ()`. */
  lemma NothingRequiredTrap(p: Program, path: Path, d: Schema.Decl, i: nat)
    requires d.InterfaceDecl? && d.strategy.Untagged? && EmittedDecl(p.classes, path, d)
    requires i < |d.subTypes| && d.subTypes[i].Required() == {}
    ensures !Loads(p)
  {
    ChoicesLoad(path, d.subTypes);
    hide ClassLoads;
  }

  // The hypotheses of the main theorem can be met

  /** The whole pipeline on the smallest schema with a field, `type T { a: string; }`. */
  lemma OneFieldTrips(text: string)
    ensures var f := StringField(true, "a");
      RoundTrips(OneModule("T", f, {}), Schema.RpType.Name(T), Holding(T, f, Str(text)))
  {
    hide *;
    var f := StringField(true, "a");
    var p, v, entries := OneModule("T", f, {}), Holding(T, f, Str(text)), [(T, OneDecl("T", f))];
    OneFieldModule(f, entries, p);
    OneFieldReady(f, entries);
    OneFieldEnv(f, entries);
    HoldingClean(text);
    JsPipeline.AcceptedRoundTrips(SCOPE, OneFile("T", f), entries, p, Schema.RpType.Name(T), v);
  }

  lemma OneFieldModule(f: Schema.Field, entries: seq<Registry.Entry>, p: Program)
    requires f == StringField(true, "a") && entries == [(T, OneDecl("T", f))] && p == OneModule("T", f, {})
    ensures JsPipeline.Compiled(SCOPE, OneFile("T", f), entries, p)
  {
    assert p.package == [];
    hide *;
    OneFieldCompiles(f);
    OneFieldReady(f, entries);
    OneFieldEnv(f, entries);
    OneModuleEmitted("T", f, {});
    JsPipeline.IsCompiled(SCOPE, OneFile("T", f), entries, p);
  }

  lemma OneFieldCompiles(f: Schema.Field)
    requires f == StringField(true, "a")
    ensures var asts, entries := OneFile("T", f), [(T, OneDecl("T", f))];
      && (forall i :: 0 <= i < |asts| ==> SchemaRules.DeclOk(SCOPE, asts[i]))
      && entries == Registry.FlattenAll([], Registry.FileModel(SCOPE, asts))
      && SchemaRules.Distinct(Registry.AllNames(entries))
  {
    hide SchemaRules.DeclOk, Registry.FlattenAll, Registry.FileModel, Registry.AllNames;
    OneTypeCompiles("T", f);
  }

  lemma OneFieldEnv(f: Schema.Field, entries: seq<Registry.Entry>)
    requires entries == [(T, OneDecl("T", f))]
    ensures JsPipeline.EnvOf(entries) == OneType("T", f)
  {
    assert entries[..0] == [];
  }

  lemma OneFieldReady(f: Schema.Field, entries: seq<Registry.Entry>)
    requires f == StringField(true, "a") && entries == [(T, OneDecl("T", f))]
    ensures forall e :: e in entries ==> JsPipeline.JsReady([], e) && JsPipeline.Legal(e.1)
  {
    PlainNames();
    hide JsPipeline.JsKeyword;
    assert T[0..] == T;
    assert JsPipeline.JsField(f);
  }

  lemma HoldingClean(text: string)
    ensures var f := StringField(true, "a");
      && WellTyped(OneType("T", f), Schema.RpType.Name(T), Holding(T, f, Str(text)))
      && Clean(OneType("T", f), OneModule("T", f, {}).Hosted(), Schema.RpType.Name(T), Holding(T, f, Str(text)))
  {
    var f := StringField(true, "a");
    var env, v, host := OneType("T", f), Holding(T, f, Str(text)), OneModule("T", f, {}).Hosted();
    OneTypeSafe("T", f);
    HoldingTyped(env, T, f, Str(text));
    assert RecordAt(env, T).value.fields == [f];
    assert "encode" !in v.members by {
      assert |"encode"| != |"a"|;
    }
    assert WellTyped(env, f.ty, Str(text)) && Clean(env, host, f.ty, Str(text));
    assert CleanRecord(env, host, T, v);
  }
}
