/** In a module that loads, running the emitted `encode` and then the emitted `decode` gives back the same
    value, exactly for the values that avoid the named traps. */
module JsRoundTrip {
  import opened Wrappers
  import Schema
  import Rules = SchemaRules
  import Untagged
  import opened Js
  import opened JsBackend

  // Typing of run-time values

  function SubNamed(subs: seq<Schema.SubType>, ident: string): (r: Option<nat>)
    ensures r.Some? ==> r.value < |subs| && subs[r.value].ident == ident
    ensures r.None? ==> forall i :: 0 <= i < |subs| ==> subs[i].ident != ident
  {
    if subs == [] then None
    else if subs[|subs| - 1].ident == ident then Some(|subs| - 1)
    else SubNamed(subs[..|subs| - 1], ident)
  }

  /** The interface and sub-type index that a class path denotes, if it is a sub-type. */
  function SubIndex(env: Env, cls: Path): (r: Option<nat>)
    ensures r.Some? ==>
      cls != [] && cls[..|cls| - 1] in env && env[cls[..|cls| - 1]].InterfaceDecl? &&
      r.value < |env[cls[..|cls| - 1]].subTypes|
  {
    if cls != [] && cls[..|cls| - 1] in env && env[cls[..|cls| - 1]].InterfaceDecl? then
      SubNamed(env[cls[..|cls| - 1]].subTypes, cls[|cls| - 1])
    else None
  }

  /** The fields and shape of a class that has fields. */
  function RecordAt(env: Env, cls: Path): Option<Record> {
    if cls in env then
      match env[cls]
      case TypeDecl(_, fields, _) => Some(Record(fields, Plain))
      case TupleDecl(_, fields, _) => Some(Record(fields, Tuple))
      case InterfaceDecl(_, _, _, _, _) => None
      case EnumDecl(_, _) => None
    else
      match SubIndex(env, cls)
      case None => None
      case Some(i) =>
        var d := env[cls[..|cls| - 1]];
        Some(SubRecord(d.fields, d.strategy, d.subTypes[i]))
  }

  /** A value of class `cls` may stand where `path` is declared: `path` itself or a sub-type of it. */
  predicate Accepts(env: Env, path: Path, cls: Path) {
    cls == path || (SubIndex(env, cls).Some? && cls[..|cls| - 1] == path)
  }

  predicate IsEnumMember(env: Env, path: Path, v: Val) {
    && path in env && env[path].EnumDecl?
    && exists i :: 0 <= i < |env[path].variants| && v == EnumMember(path, env[path].variants[i])
  }

  /** Types that strings are values of: those that the keys of a map can have. */
  predicate TakesStrings(ty: Schema.RpType) { ty.String? || ty.DateTime? || ty.Bytes? || ty.Any? }

  /** The values of a type of the schema. */
  predicate WellTyped(env: Env, ty: Schema.RpType, v: Val)
    decreases v, 1
  {
    match ty
    case Double => v.Num? && v.n.Finite?
    case Float => v.Num? && v.n.Finite?
    case Number(_) => v.Num? && v.n.Finite? && v.n.r == v.n.r.Floor as real
    case Boolean => v.Bool?
    case String => v.Str?
    case DateTime => v.Str?
    case Bytes => v.Str?
    case Any => true
    case Name(path) => IsEnumMember(env, path, v) || IsRecord(env, path, v)
    case Array(inner) => v.Arr? && forall i :: 0 <= i < |v.elems| ==> WellTyped(env, inner, v.elems[i])
    case Map(key, value) =>
      v.Obj? && forall k :: k in v.props ==> TakesStrings(key) && WellTyped(env, value, v.props[k])
  }

  predicate IsRecord(env: Env, path: Path, v: Val)
    decreases v, 0
  {
    && v.Inst?
    && Accepts(env, path, v.cls)
    && RecordAt(env, v.cls).Some?
    && var fields := RecordAt(env, v.cls).value.fields;
    && v.members.Keys == SafeSet(fields)
    && forall i :: 0 <= i < |fields| ==>
         var x := v.members[fields[i].Safe()];
         if x == Null then !fields[i].required
         else x != Undefined && WellTyped(env, fields[i].ty, x)
  }

  // The traps

  /** No instance inside `v` has a member called `encode`; no absent optional field has a name that
      objects inherit; no tuple has an absent field; no untagged sub-type is taken for another one; no map
      has the key `__proto__`; and nothing is decoded with a global that the module shadows. */
  predicate Clean(env: Env, host: Host, ty: Schema.RpType, v: Val)
    requires WellTyped(env, ty, v)
    decreases v, 1
  {
    match ty
    case Double => "Number" !in host.shadowed
    case Float => "Number" !in host.shadowed
    case Number(_) => "Number" !in host.shadowed
    case Array(inner) =>
      "Array" !in host.shadowed && forall i :: 0 <= i < |v.elems| ==> Clean(env, host, inner, v.elems[i])
    case Map(_, value) =>
      && "Object" !in host.shadowed
      && PROTO !in v.props
      && forall k :: k in v.props ==> Clean(env, host, value, v.props[k])
    case Name(path) => IsEnumMember(env, path, v) || CleanRecord(env, host, path, v)
    case _ => true
  }

  predicate CleanRecord(env: Env, host: Host, path: Path, v: Val)
    requires IsRecord(env, path, v)
    decreases v, 0
  {
    var r := RecordAt(env, v.cls).value;
    && "encode" !in v.members
    && Reaches(env, host.inherited, path, v)
    && forall i :: 0 <= i < |r.fields| ==>
         var x := v.members[r.fields[i].Safe()];
         if x == Null then !r.shape.Tuple? && r.fields[i].Name() !in host.inherited
         else Clean(env, host, r.fields[i].ty, x)
  }

  /** The names under which the fields of `v` that are present are encoded. */
  function PresentNames(fields: seq<Schema.Field>, v: Val): set<string>
    requires v.Inst? && SafeSet(fields) <= v.members.Keys
  {
    set f <- fields | f.Safe() in v.members && v.members[f.Safe()] != Null :: f.Name()
  }

  /** The tests of required names, where `path` is untagged, pick the sub-type that `v` is. */
  predicate Reaches(env: Env, inherited: set<string>, path: Path, v: Val)
    requires IsRecord(env, path, v)
  {
    v.cls == path || env[path].strategy.Tagged? ||
    Untagged.FirstMatch(
      env[path].subTypes, PresentNames(RecordAt(env, v.cls).value.fields, v) + inherited) == SubIndex(env, v.cls)
  }

  // What the checker provides

  /** Distinct names; and `__proto__`, which assignment treats differently, is not among them. */
  predicate RecordOk(r: Record) {
    && (forall i :: 0 <= i < |r.fields| ==> r.fields[i].Name() != PROTO)
    && (r.shape.Tagged? ==> r.shape.tag != PROTO)
    && (forall i, j :: 0 <= i < j < |r.fields| ==> r.fields[i].ident != r.fields[j].ident)
    && (forall i, j :: 0 <= i < j < |r.fields| ==> r.fields[i].Name() != r.fields[j].Name())
    && (forall i, j :: 0 <= i < j < |r.fields| ==> r.fields[i].Safe() != r.fields[j].Safe())
    && (r.shape.Tagged? ==> forall i :: 0 <= i < |r.fields| ==> r.fields[i].Name() != r.shape.tag)
  }

  predicate DeclSafe(d: Schema.Decl) {
    match d
    case TypeDecl(_, fields, _) => RecordOk(Record(fields, Plain))
    case TupleDecl(_, fields, _) => RecordOk(Record(fields, Tuple))
    case EnumDecl(_, vs) => forall i, j :: 0 <= i < j < |vs| ==> vs[i].value != vs[j].value
    case InterfaceDecl(_, fields, _, subs, strategy) =>
      && (forall i :: 0 <= i < |subs| ==> RecordOk(SubRecord(fields, strategy, subs[i])))
      && (forall i, j :: 0 <= i < j < |subs| ==> subs[i].Name() != subs[j].Name())
  }

  predicate EnvSafe(env: Env) {
    Registered(env) && forall path :: path in env ==> DeclSafe(env[path])
  }

  /** The code that is emitted for a type of the schema. */
  function Encoder(ty: Schema.RpType): EncCode { Encode(Translate(ty)) }

  function Decoder(ty: Schema.RpType): DecCode { Decode(Translate(ty)) }

  ghost predicate Survives(p: Program, ty: Schema.RpType, v: Val) {
    var encoded := RunEnc(p, Encoder(ty), v);
    encoded.Returns? && RunDec(p, Decoder(ty), encoded.value) == Returns(v)
  }

  // Classes

  lemma RecordEmitted(p: Program, env: Env, cls: Path)
    requires Emitted(p.classes, env) && RecordAt(env, cls).Some?
    ensures cls in p.classes && p.classes[cls] == RecordClass(cls, RecordAt(env, cls).value)
  {
    if cls in env {
      assert EmittedDecl(p.classes, cls, env[cls]);
    } else {
      var path := cls[..|cls| - 1];
      assert EmittedDecl(p.classes, path, env[path]);
      var s := env[path].subTypes[SubIndex(env, cls).value];
      assert cls == SubPath(path, s);
    }
  }

  lemma RecordIsOk(env: Env, cls: Path)
    requires EnvSafe(env) && RecordAt(env, cls).Some?
    ensures RecordOk(RecordAt(env, cls).value)
  {
    if cls in env {
      assert DeclSafe(env[cls]);
    } else {
      assert DeclSafe(env[cls[..|cls| - 1]]);
    }
  }

  // Decoding a record

  lemma {:induction false} BlocksRun(p: Program, blocks: seq<DecBlock>, data: Val)
    requires forall i, j :: 0 <= i < j < |blocks| ==> blocks[i].local != blocks[j].local
    ensures var r := RunBlocks(p, blocks, data);
      && (r.Returns? <==> forall i :: 0 <= i < |blocks| ==> RunBlock(p, blocks[i], data).Returns?)
      && (r.Returns? ==> forall i :: 0 <= i < |blocks| ==>
            blocks[i].local in r.value && r.value[blocks[i].local] == RunBlock(p, blocks[i], data).value)
  {
    hide RunBlock;
    if blocks != [] {
      var prefix := blocks[..|blocks| - 1];
      BlocksRun(p, prefix, data);
      assert forall i :: 0 <= i < |prefix| ==> prefix[i] == blocks[i];
    }
  }

  lemma {:induction false} Constructed(params: seq<string>, args: seq<string>, locals: map<string, Val>)
    requires forall i, j :: 0 <= i < j < |params| ==> params[i] != params[j]
    requires |params| <= |args| && forall i :: 0 <= i < |params| ==> args[i] in locals
    ensures var m := Construct(params, args, locals);
      && m.Keys == (set i | 0 <= i < |params| :: params[i])
      && forall i :: 0 <= i < |params| ==> m[params[i]] == locals[args[i]]
  {
    if params != [] {
      var prefix := params[..|params| - 1];
      Constructed(prefix, args, locals);
      assert forall i :: 0 <= i < |prefix| ==> prefix[i] == params[i];
    }
  }

  lemma LocalsDistinct(r: Record)
    requires RecordOk(r)
    ensures forall i, j :: 0 <= i < j < |r.fields| ==> LocalOf(r.fields[i]) != LocalOf(r.fields[j])
  {
    forall i, j | 0 <= i < j < |r.fields|
      ensures LocalOf(r.fields[i]) != LocalOf(r.fields[j])
    {
      assert LocalOf(r.fields[i])[2..] == r.fields[i].ident;
      assert LocalOf(r.fields[j])[2..] == r.fields[j].ident;
    }
  }

  function SafeSet(fields: seq<Schema.Field>): set<string> { set i | 0 <= i < |fields| :: fields[i].Safe() }

  lemma SameMembers(fields: seq<Schema.Field>, m: map<string, Val>, members: map<string, Val>)
    requires m.Keys == members.Keys == SafeSet(fields)
    ensures m == members <==> forall i :: 0 <= i < |fields| ==> m[fields[i].Safe()] == members[fields[i].Safe()]
  {
  }

  lemma RunNewResult(p: Program, cls: Path, r: Record, data: Val)
    requires cls in p.classes && p.classes[cls] == RecordClass(cls, r)
    ensures var locals := RunBlocks(p, BlocksOf(r), data);
      RunNew(p, p.classes[cls].decode, data) ==
        if locals.Throws? then Throws
        else Returns(Inst(cls, Construct(SafeIdents(r.fields), Locals(r.fields), locals.value)))
  {
  }

  function FieldBlock(p: Program, r: Record, data: Val, i: nat): Outcome<Val>
    requires i < |r.fields|
  {
    RunBlock(p, DecBlockOf(r.shape, r.fields, i), data)
  }

  lemma LocalsRun(p: Program, r: Record, data: Val)
    requires RecordOk(r)
    ensures var locals := RunBlocks(p, BlocksOf(r), data);
      && (locals.Returns? <==> forall i :: 0 <= i < |r.fields| ==> FieldBlock(p, r, data, i).Returns?)
      && (locals.Returns? ==> forall i :: 0 <= i < |r.fields| ==>
            Locals(r.fields)[i] in locals.value &&
            Returns(locals.value[Locals(r.fields)[i]]) == FieldBlock(p, r, data, i))
  {
    var blocks := BlocksOf(r);
    LocalsDistinct(r);
    assert forall i :: 0 <= i < |blocks| ==>
      blocks[i] == DecBlockOf(r.shape, r.fields, i) && Locals(r.fields)[i] == blocks[i].local;
    BlocksRun(p, blocks, data);
    var locals := RunBlocks(p, blocks, data);
    if locals.Returns? {
      forall i | 0 <= i < |r.fields|
        ensures Locals(r.fields)[i] in locals.value &&
          Returns(locals.value[Locals(r.fields)[i]]) == FieldBlock(p, r, data, i)
      {
        assert blocks[i].local in locals.value;
      }
    } else {
      var i :| 0 <= i < |blocks| && !RunBlock(p, blocks[i], data).Returns?;
      assert !FieldBlock(p, r, data, i).Returns?;
    }
  }

  lemma MembersBuilt(r: Record, locals: map<string, Val>)
    requires RecordOk(r) && forall i :: 0 <= i < |r.fields| ==> Locals(r.fields)[i] in locals
    ensures var m := Construct(SafeIdents(r.fields), Locals(r.fields), locals);
      && m.Keys == SafeSet(r.fields)
      && forall i :: 0 <= i < |r.fields| ==> m[r.fields[i].Safe()] == locals[Locals(r.fields)[i]]
  {
    var params := SafeIdents(r.fields);
    Constructed(params, Locals(r.fields), locals);
    assert forall i :: 0 <= i < |r.fields| ==> params[i] == r.fields[i].Safe();
  }

  /** A decoded record is `v` exactly when every block yields v's member. */
  lemma RecordDecodes(p: Program, r: Record, v: Val, data: Val)
    requires v.Inst? && v.cls in p.classes && p.classes[v.cls] == RecordClass(v.cls, r) && RecordOk(r)
    requires v.members.Keys == SafeSet(r.fields)
    ensures RunNew(p, p.classes[v.cls].decode, data) == Returns(v) <==>
      forall i :: 0 <= i < |r.fields| ==> FieldBlock(p, r, data, i) == Returns(v.members[r.fields[i].Safe()])
  {
    LocalsRun(p, r, data);
    RunNewResult(p, v.cls, r, data);
    var locals := RunBlocks(p, BlocksOf(r), data);
    if locals.Returns? {
      MembersBuilt(r, locals.value);
      SameMembers(r.fields, Construct(SafeIdents(r.fields), Locals(r.fields), locals.value), v.members);
    }
  }

  // Encoding a record

  ghost predicate Present(r: Record, v: Val, i: nat)
    requires v.Inst? && i < |r.fields| && r.fields[i].Safe() in v.members
  {
    v.members[r.fields[i].Safe()] != Null
  }

  function EncodedField(p: Program, r: Record, v: Val, i: nat): Outcome<Val>
    requires v.Inst? && i < |r.fields| && r.fields[i].Safe() in v.members
  {
    RunEnc(p, Encoder(r.fields[i].ty), v.members[r.fields[i].Safe()])
  }

  /** The members of `v` are those of `r`: present, or absent and optional. */
  ghost predicate Shaped(r: Record, v: Val) {
    && v.Inst?
    && forall i :: 0 <= i < |r.fields| ==>
         && r.fields[i].Safe() in v.members
         && v.members[r.fields[i].Safe()] != Undefined
         && (r.fields[i].required ==> Present(r, v, i))
  }

  /** `data` holds the encodings of the first `n` fields that are present, the tag, and nothing else. */
  ghost predicate Holds(p: Program, r: Record, v: Val, data: map<string, Val>, n: nat)
    requires Shaped(r, v) && n <= |r.fields|
  {
    && (r.shape.Tagged? ==> r.shape.tag in data && data[r.shape.tag] == Str(r.shape.name))
    && (forall i :: 0 <= i < n && Present(r, v, i) ==>
          r.fields[i].Name() in data && EncodedField(p, r, v, i) == Returns(data[r.fields[i].Name()]))
    && (forall k :: k in data ==>
          || (r.shape.Tagged? && k == r.shape.tag)
          || exists i :: 0 <= i < n && Present(r, v, i) && r.fields[i].Name() == k)
  }

  lemma NewName(r: Record, n: nat)
    requires RecordOk(r) && n < |r.fields|
    ensures forall i :: 0 <= i < n ==> r.fields[i].Name() != r.fields[n].Name()
    ensures r.shape.Tagged? ==> r.fields[n].Name() != r.shape.tag
  {
  }

  lemma HoldsSkip(p: Program, r: Record, v: Val, data: map<string, Val>, n: nat)
    requires Shaped(r, v) && n < |r.fields| && Holds(p, r, v, data, n) && !Present(r, v, n)
    ensures Holds(p, r, v, data, n + 1)
  {
    hide EncodedField, Present, Shaped;
  }

  lemma HoldsPut(p: Program, r: Record, v: Val, data: map<string, Val>, n: nat)
    requires Shaped(r, v) && RecordOk(r) && n < |r.fields| && Holds(p, r, v, data, n)
    requires Present(r, v, n) && EncodedField(p, r, v, n).Returns?
    ensures Holds(p, r, v, data[r.fields[n].Name() := EncodedField(p, r, v, n).value], n + 1)
  {
    NewName(r, n);
    hide RecordOk, EncodedField, Present, Shaped;
    var name := r.fields[n].Name();
    var data' := data[name := EncodedField(p, r, v, n).value];
    forall k | k in data' && !(r.shape.Tagged? && k == r.shape.tag)
      ensures exists i :: 0 <= i < n + 1 && Present(r, v, i) && r.fields[i].Name() == k
    {
      if k == name {
        assert Present(r, v, n) && r.fields[n].Name() == k;
      } else {
        var i :| 0 <= i < n && Present(r, v, i) && r.fields[i].Name() == k;
      }
    }
  }

  function StmtsUpTo(r: Record, n: nat): seq<EncStmt>
    requires n <= |r.fields|
  {
    TagStmts(r.shape) + FieldStmts(r.fields)[..n]
  }

  lemma StmtsStep(p: Program, r: Record, v: Val, n: nat)
    requires Shaped(r, v) && n < |r.fields|
    ensures var prefix := RunStmts(p, v, StmtsUpTo(r, n));
      RunStmts(p, v, StmtsUpTo(r, n + 1)) ==
        if prefix.Throws? || !Present(r, v, n) then prefix
        else Put(prefix.value, r.fields[n].Name(), EncodedField(p, r, v, n))
  {
    var stmts, f := StmtsUpTo(r, n + 1), r.fields[n];
    assert stmts[..|stmts| - 1] == StmtsUpTo(r, n);
    assert stmts[|stmts| - 1] == EncStmtOf(f);
    assert Member(v, f.Safe()) == v.members[f.Safe()];
  }

  lemma TagStep(p: Program, r: Record, v: Val)
    requires Shaped(r, v)
    ensures RunStmts(p, v, StmtsUpTo(r, 0)) ==
      Returns(if r.shape.Tagged? then map[r.shape.tag := Str(r.shape.name)] else map[])
  {
    var stmts := StmtsUpTo(r, 0);
    assert stmts == TagStmts(r.shape);
    if r.shape.Tagged? {
      assert stmts[..0] == [];
    }
  }

  /** The first `n` fields that are present can all be encoded. */
  ghost predicate AllEncode(p: Program, r: Record, v: Val, n: nat)
    requires Shaped(r, v) && n <= |r.fields|
  {
    forall i :: 0 <= i < n && Present(r, v, i) ==> EncodedField(p, r, v, i).Returns?
  }

  lemma AllEncodeStep(p: Program, r: Record, v: Val, n: nat)
    requires Shaped(r, v) && n < |r.fields|
    ensures AllEncode(p, r, v, n + 1) <==>
      AllEncode(p, r, v, n) && (Present(r, v, n) ==> EncodedField(p, r, v, n).Returns?)
  {
    hide Present, EncodedField;
  }

  lemma {:induction false} StmtsRun(p: Program, r: Record, v: Val, n: nat)
    requires Shaped(r, v) && RecordOk(r) && n <= |r.fields|
    ensures var out := RunStmts(p, v, StmtsUpTo(r, n));
      && (out.Returns? <==> AllEncode(p, r, v, n))
      && (out.Returns? ==> Holds(p, r, v, out.value, n))
  {
    if n == 0 {
      TagStep(p, r, v);
    } else {
      StmtsRun(p, r, v, n - 1);
      StmtsStep(p, r, v, n - 1);
      AllEncodeStep(p, r, v, n - 1);
      var prefix := RunStmts(p, v, StmtsUpTo(r, n - 1));
      if prefix.Returns? && !Present(r, v, n - 1) {
        HoldsSkip(p, r, v, prefix.value, n - 1);
      } else if prefix.Returns? && EncodedField(p, r, v, n - 1).Returns? {
        HoldsPut(p, r, v, prefix.value, n - 1);
      }
      hide RecordOk, Present, EncodedField, Holds, RunStmts, StmtsUpTo, AllEncode;
    }
  }

  // One field of an encoded object, and of an encoded tuple

  /** Encoded values of typed fields are defined; only `any` may carry a function through. */
  ghost predicate Carried(r: Record, e: Val, i: nat)
    requires i < |r.fields|
  {
    Defined(e) && (e == Function ==> r.fields[i].ty.Any?)
  }

  lemma ObjectField(p: Program, r: Record, v: Val, data: map<string, Val>, i: nat)
    requires Shaped(r, v) && RecordOk(r) && !r.shape.Tuple? && i < |r.fields|
    requires Holds(p, r, v, data, |r.fields|)
    ensures Present(r, v, i) && EncodedField(p, r, v, i).Returns? && Carried(r, EncodedField(p, r, v, i).value, i) ==>
      FieldBlock(p, r, Obj(data), i) ==
        RunDec(p, Decoder(r.fields[i].ty), EncodedField(p, r, v, i).value)
    ensures !Present(r, v, i) ==>
      (FieldBlock(p, r, Obj(data), i) == Returns(Null) <==> r.fields[i].Name() !in p.inherited)
  {
    var name := r.fields[i].Name();
    assert Get(p, Obj(data), KeyOf(r.shape, r.fields, i)) == GetNamed(p, Obj(data), name);
    assert !Present(r, v, i) ==> name !in data;
  }

  lemma TupleField(p: Program, r: Record, v: Val, elems: seq<Val>, i: nat)
    requires Shaped(r, v) && r.shape.Tuple? && i < |r.fields| == |elems|
    requires EncodedField(p, r, v, i) == Returns(elems[i]) && Carried(r, elems[i], i)
    ensures FieldBlock(p, r, Arr(elems), i) == RunDec(p, Decoder(r.fields[i].ty), elems[i])
  {
  }

  // Dispatch

  lemma {:induction false} FindCaseAt(path: Path, subs: seq<Schema.SubType>, n: nat, i: nat)
    requires n <= i < |subs| && forall j, k :: 0 <= j < k < |subs| ==> subs[j].Name() != subs[k].Name()
    ensures FindCase(TagCases(path, subs)[n..], subs[i].Name()) == Returns(SubPath(path, subs[i]))
    decreases i - n
  {
    if n < i {
      FindCaseAt(path, subs, n + 1, i);
    }
  }

  lemma {:induction false} RequiredNamesOf(fields: seq<Schema.Field>)
    ensures forall k :: k in RequiredNames(fields) <==> exists f :: f in fields && f.required && f.Name() == k
  {
    if fields != [] {
      var prefix, last := fields[..|fields| - 1], fields[|fields| - 1];
      RequiredNamesOf(prefix);
      assert fields == prefix + [last];
    }
  }

  lemma ChoiceVisible(s: Schema.SubType, visible: set<string>)
    ensures (forall k :: k in RequiredNames(s.fields) ==> k in visible) <==> s.Required() <= visible
  {
    RequiredNamesOf(s.fields);
    assert forall k :: k in s.Required() <==> k in RequiredNames(s.fields);
  }

  lemma {:induction false} FindChoiceAt(path: Path, subs: seq<Schema.SubType>, visible: set<string>, n: nat)
    requires n <= |subs|
    ensures var i := Untagged.FirstMatchFrom(subs, visible, n);
      FindChoice(Choices(path, subs)[n..], visible) ==
        if i.Some? then Returns(SubPath(path, subs[i.value])) else Throws
    decreases |subs| - n
  {
    if n < |subs| {
      ChoiceVisible(subs[n], visible);
      FindChoiceAt(path, subs, visible, n + 1);
      assert Choices(path, subs)[n..][1..] == Choices(path, subs)[n + 1..];
      assert Choices(path, subs)[n..][0] == Choices(path, subs)[n];
    }
  }

  /** An encoded untagged record has exactly the names of its present fields as keys. */
  lemma HoldsKeys(p: Program, r: Record, v: Val, data: map<string, Val>)
    requires Shaped(r, v) && !r.shape.Tagged? && Holds(p, r, v, data, |r.fields|)
    requires SafeSet(r.fields) <= v.members.Keys
    ensures data.Keys == PresentNames(r.fields, v)
  {
    forall k | k in data
      ensures k in PresentNames(r.fields, v)
    {
      var i :| 0 <= i < |r.fields| && Present(r, v, i) && r.fields[i].Name() == k;
      assert r.fields[i] in r.fields;
    }
    forall f | f in r.fields && f.Safe() in v.members && v.members[f.Safe()] != Null
      ensures f.Name() in data
    {
      var i :| 0 <= i < |r.fields| && r.fields[i] == f;
      assert Present(r, v, i);
    }
  }

  /** A sub-type's class is not also a declaration of its own. */
  lemma SubClassFresh(env: Env, path: Path, cls: Path)
    requires Registered(env) && path in env && cls in DeclPaths(path, env[path]) && cls != path
    ensures cls !in env
  {
    assert cls in env ==> cls in DeclPaths(cls, env[cls]);
  }

  lemma TaggedDispatch(p: Program, path: Path, d: Schema.Decl, i: nat, data: map<string, Val>)
    requires d.InterfaceDecl? && d.strategy.Tagged? && i < |d.subTypes|
    requires EmittedDecl(p.classes, path, d) && DeclSafe(d)
    requires d.strategy.tag in data && data[d.strategy.tag] == Str(d.subTypes[i].Name())
    ensures RunDec(p, CallDecode(path), Obj(data)) ==
      RunCase(p, Returns(SubPath(path, d.subTypes[i])), Obj(data))
  {
    var cases := TagCases(path, d.subTypes);
    FindCaseAt(path, d.subTypes, 0, i);
    assert cases[0..] == cases;
    assert p.classes[path].decode == DecodeTagged(d.strategy.tag, cases);
    assert GetNamed(p, Obj(data), d.strategy.tag) == Returns(Str(d.subTypes[i].Name()));
  }

  lemma UntaggedDispatch(p: Program, path: Path, d: Schema.Decl, data: map<string, Val>)
    requires d.InterfaceDecl? && d.strategy.Untagged? && EmittedDecl(p.classes, path, d)
    ensures var i := Untagged.FirstMatch(d.subTypes, data.Keys + p.inherited);
      RunDec(p, CallDecode(path), Obj(data)) ==
        RunCase(p, if i.Some? then Returns(SubPath(path, d.subTypes[i.value])) else Throws, Obj(data))
  {
    var choices := Choices(path, d.subTypes);
    FindChoiceAt(path, d.subTypes, data.Keys + p.inherited, 0);
    assert choices[0..] == choices;
    assert p.classes[path].decode == DecodeUntagged(choices);
    assert OwnKeys(Obj(data)) == data.Keys;
  }

  /** A sub-type's decoder only ever builds instances of its own class. */
  lemma CaseBuilds(p: Program, path: Path, d: Schema.Decl, i: nat, data: Val)
    requires d.InterfaceDecl? && i < |d.subTypes| && EmittedDecl(p.classes, path, d)
    ensures var q, out := SubPath(path, d.subTypes[i]), RunCase(p, Returns(SubPath(path, d.subTypes[i])), data);
      && q in p.classes && p.classes[q].decode.DecodeNew?
      && out == RunNew(p, p.classes[q].decode, data)
      && (out.Returns? ==> out.value.Inst? && out.value.cls == q)
  {
  }

  lemma CallsNew(p: Program, path: Path, r: Record, data: Val)
    requires path in p.classes && p.classes[path] == RecordClass(path, r)
    ensures RunDec(p, CallDecode(path), data) == RunNew(p, p.classes[path].decode, data)
  {
  }

  /** Decoding at the interface gives `v` back exactly if the tests pick its sub-type and that one's own
      decoder gives it back. */
  lemma SubDispatched(p: Program, path: Path, d: Schema.Decl, i: nat, v: Val, data: map<string, Val>)
    requires d.InterfaceDecl? && i < |d.subTypes| && EmittedDecl(p.classes, path, d) && DeclSafe(d)
    requires DistinctIdents(d.subTypes) && v.Inst? && v.cls == SubPath(path, d.subTypes[i])
    requires var r := SubRecord(d.fields, d.strategy, d.subTypes[i]);
      Shaped(r, v) && Holds(p, r, v, data, |r.fields|) && SafeSet(r.fields) <= v.members.Keys
    ensures v.cls in p.classes && p.classes[v.cls].decode.DecodeNew?
    ensures var r := SubRecord(d.fields, d.strategy, d.subTypes[i]);
      RunDec(p, CallDecode(path), Obj(data)) == Returns(v) <==>
        && (d.strategy.Tagged? ||
            Untagged.FirstMatch(d.subTypes, PresentNames(r.fields, v) + p.inherited) == Some(i))
        && RunNew(p, p.classes[v.cls].decode, Obj(data)) == Returns(v)
  {
    var r := SubRecord(d.fields, d.strategy, d.subTypes[i]);
    CaseBuilds(p, path, d, i, Obj(data));
    if d.strategy.Tagged? {
      TaggedDispatch(p, path, d, i, data);
    } else {
      HoldsKeys(p, r, v, data);
      UntaggedDispatch(p, path, d, data);
      hide Holds, Shaped, EmittedDecl, RunNew, RunDec, RunCase;
      var picked := Untagged.FirstMatch(d.subTypes, data.Keys + p.inherited);
      if picked.Some? && picked.value != i {
        CaseBuilds(p, path, d, picked.value, Obj(data));
        OtherSub(path, d.subTypes, i, picked.value);
      } else if picked.None? {
        ThrownCase(p, Obj(data));
      }
    }
  }

  lemma ThrownCase(p: Program, data: Val)
    ensures RunCase(p, Throws, data) == Throws
  {
  }

  lemma OtherSub(path: Path, subs: seq<Schema.SubType>, i: nat, j: nat)
    requires DistinctIdents(subs) && i < |subs| && j < |subs| && i != j
    ensures SubPath(path, subs[i]) != SubPath(path, subs[j])
  {
    assert SubPath(path, subs[i])[|path|] == subs[i].ident && SubPath(path, subs[j])[|path|] == subs[j].ident;
  }

  /** The sub-type behind a class that is accepted but not declared. */
  lemma AcceptedSub(env: Env, path: Path, cls: Path)
    requires EnvSafe(env) && Accepts(env, path, cls) && cls != path
    ensures SubIndex(env, cls).Some? && path in env && env[path].InterfaceDecl? && DeclSafe(env[path])
    ensures DistinctIdents(env[path].subTypes)
    ensures var d, i := env[path], SubIndex(env, cls).value;
      && i < |d.subTypes|
      && cls == SubPath(path, d.subTypes[i])
      && RecordAt(env, cls) == Some(SubRecord(d.fields, d.strategy, d.subTypes[i]))
  {
    var d, i := env[path], SubIndex(env, cls).value;
    assert cls == SubPath(path, d.subTypes[i]) && cls in DeclPaths(path, d);
    SubClassFresh(env, path, cls);
  }

  /** What `Reaches` means for a sub-type. */
  lemma ReachesSub(env: Env, inherited: set<string>, path: Path, v: Val)
    requires EnvSafe(env) && IsRecord(env, path, v) && v.cls != path
    ensures path in env && env[path].InterfaceDecl? && DeclSafe(env[path]) && DistinctIdents(env[path].subTypes)
    ensures SubIndex(env, v.cls).Some?
    ensures var d, i := env[path], SubIndex(env, v.cls).value;
      && i < |d.subTypes|
      && v.cls == SubPath(path, d.subTypes[i])
      && var r := SubRecord(d.fields, d.strategy, d.subTypes[i]);
      && RecordAt(env, v.cls) == Some(r)
      && SafeSet(r.fields) <= v.members.Keys
      && (Reaches(env, inherited, path, v) <==>
            d.strategy.Tagged? || Untagged.FirstMatch(d.subTypes, PresentNames(r.fields, v) + inherited) == Some(i))
  {
    AcceptedSub(env, path, v.cls);
    hide SubIndex, EnvSafe, DeclSafe, WellTyped;
  }

  lemma DispatchedSub(p: Program, env: Env, path: Path, v: Val, data: map<string, Val>)
    requires EnvSafe(env) && Emitted(p.classes, env) && IsRecord(env, path, v) && v.cls != path
    requires RecordAt(env, v.cls).Some?
    requires var r := RecordAt(env, v.cls).value; Shaped(r, v) && Holds(p, r, v, data, |r.fields|)
    ensures v.cls in p.classes && p.classes[v.cls].decode.DecodeNew?
    ensures RunDec(p, CallDecode(path), Obj(data)) == Returns(v) <==>
      Reaches(env, p.inherited, path, v) && RunNew(p, p.classes[v.cls].decode, Obj(data)) == Returns(v)
  {
    ReachesSub(env, p.inherited, path, v);
    assert EmittedDecl(p.classes, path, env[path]);
    assert v.Inst?;
    hide *;
    SubDispatched(p, path, env[path], SubIndex(env, v.cls).value, v, data);
  }

  /** Decoding an encoded record at a type that accepts its class gives it back exactly if the dispatch
      reaches that class and its own decoder gives it back. */
  lemma Dispatched(p: Program, env: Env, path: Path, v: Val, data: map<string, Val>)
    requires EnvSafe(env) && Emitted(p.classes, env) && IsRecord(env, path, v) && RecordAt(env, v.cls).Some?
    requires var r := RecordAt(env, v.cls).value; Shaped(r, v) && Holds(p, r, v, data, |r.fields|)
    ensures v.cls in p.classes && p.classes[v.cls].decode.DecodeNew?
    ensures RunDec(p, CallDecode(path), Obj(data)) == Returns(v) <==>
      Reaches(env, p.inherited, path, v) && RunNew(p, p.classes[v.cls].decode, Obj(data)) == Returns(v)
  {
    if v.cls == path {
      RecordEmitted(p, env, v.cls);
      CallsNew(p, path, RecordAt(env, v.cls).value, Obj(data));
      assert Reaches(env, p.inherited, path, v);
      hide *;
    } else {
      hide *;
      DispatchedSub(p, env, path, v, data);
    }
  }

  // Records

  /** The induction hypothesis for the fields of a record. */
  ghost predicate FieldsTrip(p: Program, env: Env, r: Record, v: Val) {
    && Shaped(r, v)
    && forall i :: 0 <= i < |r.fields| && Present(r, v, i) ==>
         var ty, x := r.fields[i].ty, v.members[r.fields[i].Safe()];
         && WellTyped(env, ty, x)
         && (Survives(p, ty, x) <==> Clean(env, p.Hosted(), ty, x))
         && (EncodedField(p, r, v, i).Returns? ==> Carried(r, EncodedField(p, r, v, i).value, i))
  }

  ghost predicate FieldClean(p: Program, env: Env, r: Record, v: Val, i: nat)
    requires FieldsTrip(p, env, r, v) && i < |r.fields|
  {
    if Present(r, v, i) then Clean(env, p.Hosted(), r.fields[i].ty, v.members[r.fields[i].Safe()])
    else !r.shape.Tuple? && r.fields[i].Name() !in p.inherited
  }

  lemma CleanRecordFields(p: Program, env: Env, path: Path, v: Val)
    requires IsRecord(env, path, v) && FieldsTrip(p, env, RecordAt(env, v.cls).value, v)
    ensures var r := RecordAt(env, v.cls).value;
      CleanRecord(env, p.Hosted(), path, v) <==>
        && "encode" !in v.members
        && Reaches(env, p.inherited, path, v)
        && forall i :: 0 <= i < |r.fields| ==> FieldClean(p, env, r, v, i)
  {
    var r := RecordAt(env, v.cls).value;
    hide Reaches, IsRecord, RecordAt;
    forall i | 0 <= i < |r.fields|
      ensures FieldClean(p, env, r, v, i) <==>
        var x := v.members[r.fields[i].Safe()];
        if x == Null then !r.shape.Tuple? && r.fields[i].Name() !in p.Hosted().inherited
        else Clean(env, p.Hosted(), r.fields[i].ty, x)
    {
    }
  }

  lemma RecordShaped(env: Env, path: Path, v: Val)
    requires IsRecord(env, path, v)
    ensures Shaped(RecordAt(env, v.cls).value, v)
  {
    var r := RecordAt(env, v.cls).value;
    forall i | 0 <= i < |r.fields|
      ensures r.fields[i].Safe() in v.members
    {
      assert r.fields[i].Safe() in SafeSet(r.fields);
    }
  }

  lemma ObjectEncodes(p: Program, r: Record, v: Val)
    requires Shaped(r, v) && RecordOk(r) && !r.shape.Tuple? && "encode" !in v.members
    requires v.cls in p.classes && p.classes[v.cls] == RecordClass(v.cls, r)
    ensures var out := RunEncode(p, v);
      && (out.Returns? <==> forall i :: 0 <= i < |r.fields| && Present(r, v, i) ==> EncodedField(p, r, v, i).Returns?)
      && (out.Returns? ==> out.value.Obj? && Holds(p, r, v, out.value.props, |r.fields|))
  {
    StmtsRun(p, r, v, |r.fields|);
    assert FieldStmts(r.fields)[..|r.fields|] == FieldStmts(r.fields);
    assert RunEncode(p, v) == match RunStmts(p, v, StmtsUpTo(r, |r.fields|))
      case Returns(data) => Returns(Obj(data))
      case Throws => Throws;
  }

  lemma ObjectDecodes(p: Program, env: Env, path: Path, v: Val, data: map<string, Val>)
    requires EnvSafe(env) && Emitted(p.classes, env) && IsRecord(env, path, v)
    requires var r := RecordAt(env, v.cls).value;
      !r.shape.Tuple? && FieldsTrip(p, env, r, v) && Holds(p, r, v, data, |r.fields|)
    ensures var r := RecordAt(env, v.cls).value;
      RunDec(p, CallDecode(path), Obj(data)) == Returns(v) <==>
        Reaches(env, p.inherited, path, v) && forall i :: 0 <= i < |r.fields| ==> FieldClean(p, env, r, v, i)
  {
    var r := RecordAt(env, v.cls).value;
    assert v.members.Keys == SafeSet(r.fields);
    hide *;
    RecordEmitted(p, env, v.cls);
    RecordIsOk(env, v.cls);
    Dispatched(p, env, path, v, data);
    RecordDecodes(p, r, v, Obj(data));
    forall i | 0 <= i < |r.fields|
      ensures FieldBlock(p, r, Obj(data), i) == Returns(v.members[r.fields[i].Safe()]) <==>
        FieldClean(p, env, r, v, i)
    {
      ObjectFieldClean(p, env, r, v, data, i);
    }
  }

  lemma ObjectFieldClean(p: Program, env: Env, r: Record, v: Val, data: map<string, Val>, i: nat)
    requires RecordOk(r) && !r.shape.Tuple? && i < |r.fields|
    requires FieldsTrip(p, env, r, v) && Holds(p, r, v, data, |r.fields|)
    ensures FieldBlock(p, r, Obj(data), i) == Returns(v.members[r.fields[i].Safe()]) <==> FieldClean(p, env, r, v, i)
  {
    ObjectField(p, r, v, data, i);
  }

  /** What a round trip of an instance comes down to. */
  lemma LocalTrips(p: Program, path: Path, v: Val)
    requires v.Inst?
    ensures Survives(p, Schema.RpType.Name(path), v) <==>
      RunEncode(p, v).Returns? && RunDec(p, CallDecode(path), RunEncode(p, v).value) == Returns(v)
    ensures RunEnc(p, Encoder(Schema.RpType.Name(path)), v) == RunEncode(p, v)
    ensures "encode" in v.members ==> RunEncode(p, v).Throws?
  {
  }

  lemma Unencodable(p: Program, env: Env, r: Record, v: Val, i: nat)
    requires FieldsTrip(p, env, r, v) && i < |r.fields|
    requires Present(r, v, i) && EncodedField(p, r, v, i).Throws?
    ensures !FieldClean(p, env, r, v, i)
  {
  }

  lemma ObjectTrips(p: Program, env: Env, path: Path, v: Val)
    requires EnvSafe(env) && Emitted(p.classes, env) && IsRecord(env, path, v)
    requires var r := RecordAt(env, v.cls).value; !r.shape.Tuple? && FieldsTrip(p, env, r, v)
    ensures Survives(p, Schema.RpType.Name(path), v) <==> CleanRecord(env, p.Hosted(), path, v)
    ensures RunEncode(p, v).Returns? ==> RunEncode(p, v).value.Obj?
  {
    var r := RecordAt(env, v.cls).value;
    RecordShaped(env, path, v);
    hide *;
    RecordEmitted(p, env, v.cls);
    RecordIsOk(env, v.cls);
    CleanRecordFields(p, env, path, v);
    LocalTrips(p, path, v);
    if "encode" !in v.members {
      ObjectEncodes(p, r, v);
      var out := RunEncode(p, v);
      if out.Returns? {
        assert out.value == Obj(out.value.props);
        ObjectDecodes(p, env, path, v, out.value.props);
      } else {
        var i :| 0 <= i < |r.fields| && Present(r, v, i) && EncodedField(p, r, v, i).Throws?;
        Unencodable(p, env, r, v, i);
      }
    }
  }

  lemma TupleEncodes(p: Program, r: Record, v: Val)
    requires Shaped(r, v) && r.shape.Tuple? && "encode" !in v.members
    requires v.cls in p.classes && p.classes[v.cls] == RecordClass(v.cls, r)
    ensures var out := RunEncode(p, v);
      && (out.Returns? <==>
            forall i :: 0 <= i < |r.fields| ==> Present(r, v, i) && EncodedField(p, r, v, i).Returns?)
      && (out.Returns? ==>
            && out.value.Arr?
            && |out.value.elems| == |r.fields|
            && forall i :: 0 <= i < |r.fields| ==> EncodedField(p, r, v, i) == Returns(out.value.elems[i]))
  {
    var n, guards, values := |r.fields|, SafeIdents(r.fields), EncodeOf(r).values;
    TupleRun(p, r, v);
    forall i | 0 <= i < n
      ensures Defined(Member(v, guards[i])) <==> Present(r, v, i)
      ensures RunMember(p, v, values[i].0, values[i].1) == EncodedField(p, r, v, i)
    {
      assert guards[i] == values[i].0 == r.fields[i].Safe();
      assert Member(v, guards[i]) == v.members[guards[i]];
    }
    hide RunMember, Member, EncodedField, Present, EncodeOf, RecordClass, Shaped;
    assert (forall g :: g in guards ==> Defined(Member(v, g))) <==> forall i :: 0 <= i < n ==> Present(r, v, i) by {
      assert forall g :: g in guards <==> exists i :: 0 <= i < n && guards[i] == g;
    }
  }

  lemma TupleRun(p: Program, r: Record, v: Val)
    requires v.Inst? && r.shape.Tuple? && "encode" !in v.members
    requires v.cls in p.classes && p.classes[v.cls] == RecordClass(v.cls, r)
    ensures var out, guards, values := RunEncode(p, v), SafeIdents(r.fields), EncodeOf(r).values;
      && |values| == |guards| == |r.fields|
      && (out.Returns? <==>
            && (forall g :: g in guards ==> Defined(Member(v, g)))
            && (forall i :: 0 <= i < |values| ==> RunMember(p, v, values[i].0, values[i].1).Returns?))
      && (out.Returns? ==>
            && out.value.Arr?
            && |out.value.elems| == |values|
            && forall i :: 0 <= i < |values| ==>
                 RunMember(p, v, values[i].0, values[i].1) == Returns(out.value.elems[i]))
  {
  }

  /** Only a declared tuple has the tuple shape, so its class is the declared one. */
  lemma TupleClass(env: Env, inherited: set<string>, path: Path, v: Val)
    requires EnvSafe(env) && IsRecord(env, path, v) && RecordAt(env, v.cls).value.shape.Tuple?
    ensures v.cls == path && Reaches(env, inherited, path, v)
    ensures v.members.Keys == SafeSet(RecordAt(env, v.cls).value.fields)
  {
    if v.cls != path {
      assert v.cls == SubPath(path, env[path].subTypes[SubIndex(env, v.cls).value]);
      SubClassFresh(env, path, v.cls);
      assert false;
    }
  }

  lemma TupleDecodes(p: Program, env: Env, path: Path, v: Val, elems: seq<Val>)
    requires EnvSafe(env) && Emitted(p.classes, env) && IsRecord(env, path, v)
    requires var r := RecordAt(env, v.cls).value;
      && r.shape.Tuple?
      && FieldsTrip(p, env, r, v)
      && |elems| == |r.fields|
      && forall i :: 0 <= i < |r.fields| ==> Present(r, v, i) && EncodedField(p, r, v, i) == Returns(elems[i])
    ensures var r := RecordAt(env, v.cls).value;
      RunDec(p, CallDecode(path), Arr(elems)) == Returns(v) <==>
        Reaches(env, p.inherited, path, v) && forall i :: 0 <= i < |r.fields| ==> FieldClean(p, env, r, v, i)
  {
    var r := RecordAt(env, v.cls).value;
    TupleClass(env, p.inherited, path, v);
    hide *;
    RecordEmitted(p, env, v.cls);
    RecordIsOk(env, v.cls);
    CallsNew(p, path, r, Arr(elems));
    RecordDecodes(p, r, v, Arr(elems));
    forall i | 0 <= i < |r.fields|
      ensures FieldBlock(p, r, Arr(elems), i) == Returns(v.members[r.fields[i].Safe()]) <==>
        FieldClean(p, env, r, v, i)
    {
      TupleFieldClean(p, env, r, v, elems, i);
    }
  }

  lemma TupleFieldClean(p: Program, env: Env, r: Record, v: Val, elems: seq<Val>, i: nat)
    requires r.shape.Tuple? && i < |r.fields| == |elems|
    requires FieldsTrip(p, env, r, v) && Present(r, v, i) && EncodedField(p, r, v, i) == Returns(elems[i])
    ensures FieldBlock(p, r, Arr(elems), i) == Returns(v.members[r.fields[i].Safe()]) <==> FieldClean(p, env, r, v, i)
  {
    TupleField(p, r, v, elems, i);
  }

  lemma AbsentInTuple(p: Program, env: Env, r: Record, v: Val, i: nat)
    requires FieldsTrip(p, env, r, v) && i < |r.fields| && r.shape.Tuple? && !Present(r, v, i)
    ensures !FieldClean(p, env, r, v, i)
  {
  }

  lemma TupleTrips(p: Program, env: Env, path: Path, v: Val)
    requires EnvSafe(env) && Emitted(p.classes, env) && IsRecord(env, path, v)
    requires var r := RecordAt(env, v.cls).value; r.shape.Tuple? && FieldsTrip(p, env, r, v)
    ensures Survives(p, Schema.RpType.Name(path), v) <==> CleanRecord(env, p.Hosted(), path, v)
    ensures RunEncode(p, v).Returns? ==> RunEncode(p, v).value.Arr?
  {
    var r := RecordAt(env, v.cls).value;
    RecordShaped(env, path, v);
    hide *;
    RecordEmitted(p, env, v.cls);
    CleanRecordFields(p, env, path, v);
    LocalTrips(p, path, v);
    if "encode" !in v.members {
      TupleEncodes(p, r, v);
      var out := RunEncode(p, v);
      if out.Returns? {
        assert out.value == Arr(out.value.elems);
        TupleDecodes(p, env, path, v, out.value.elems);
      } else {
        var i :| 0 <= i < |r.fields| && !(Present(r, v, i) && EncodedField(p, r, v, i).Returns?);
        if Present(r, v, i) {
          Unencodable(p, env, r, v, i);
        } else {
          AbsentInTuple(p, env, r, v, i);
        }
      }
    }
  }

  // Enums

  lemma {:induction false} FindMemberAt(path: Path, vs: seq<Schema.Variant>, n: nat, i: nat)
    requires n <= i < |vs| && forall j, k :: 0 <= j < k < |vs| ==> vs[j].value != vs[k].value
    ensures FindMember("value", EnumMembers(path, vs)[n..], VariantVal(vs[i].value)) == Returns(EnumMember(path, vs[i]))
    decreases i - n
  {
    var rest := EnumMembers(path, vs)[n..];
    assert rest[0] == EnumMember(path, vs[n]);
    assert "value" != "name" by {
      assert |"value"| != |"name"|;
    }
    assert Member(rest[0], "value") == VariantVal(vs[n].value);
    if n < i {
      assert VariantVal(vs[n].value) != VariantVal(vs[i].value);
      FindMemberAt(path, vs, n + 1, i);
      assert rest[1..] == EnumMembers(path, vs)[n + 1..];
    }
  }

  lemma EnumRuns(p: Program, path: Path, vs: seq<Schema.Variant>, i: nat)
    requires path in p.classes && p.classes[path] == EnumClass(path, vs) && i < |vs|
    ensures var v, value := EnumMember(path, vs[i]), VariantVal(vs[i].value);
      && RunEncode(p, v) == Returns(value)
      && Defined(value) && value != Function
      && RunDec(p, CallDecode(path), value) == FindMember("value", EnumMembers(path, vs), value)
  {
    var v := EnumMember(path, vs[i]);
    assert "encode" !in v.members by {
      assert |"encode"| == 6 && |"name"| == 4 && |"value"| == 5;
    }
    assert "value" in v.members && v.members["value"] == VariantVal(vs[i].value);
  }

  lemma EnumTrips(p: Program, env: Env, path: Path, v: Val)
    requires EnvSafe(env) && Emitted(p.classes, env) && IsEnumMember(env, path, v)
    ensures Survives(p, Schema.RpType.Name(path), v)
    ensures RunEncode(p, v).Returns? ==> Defined(RunEncode(p, v).value) && RunEncode(p, v).value != Function
  {
    var vs := env[path].variants;
    var i :| 0 <= i < |vs| && v == EnumMember(path, vs[i]);
    assert EmittedDecl(p.classes, path, env[path]) && DeclSafe(env[path]);
    EnumRuns(p, path, vs, i);
    FindMemberAt(path, vs, 0, i);
    assert EnumMembers(path, vs)[0..] == EnumMembers(path, vs);
    hide *;
    LocalTrips(p, path, v);
  }

  // The main theorem

  /** For a checked schema and any well-typed value, encoding and decoding gives the value back if and
      only if the value is clean. */
  lemma {:induction false} SurvivesIff(p: Program, env: Env, ty: Schema.RpType, v: Val)
    requires EnvSafe(env) && Emitted(p.classes, env) && WellTyped(env, ty, v)
    ensures Survives(p, ty, v) <==> Clean(env, p.Hosted(), ty, v)
    ensures var e := RunEnc(p, Encoder(ty), v);
      e.Returns? && !ty.Any? ==> Defined(e.value) && e.value != Function
    decreases v, 1
  {
    match ty {
      case Array(inner) =>
        hide RunEnc, RunDec, Survives, Encoder, Decoder;
        forall i | 0 <= i < |v.elems| {
          SurvivesIff(p, env, inner, v.elems[i]);
        }
        ArrayTrips(p, inner, v);
      case Map(key, value) =>
        hide RunEnc, RunDec, Survives, Encoder, Decoder;
        forall k | k in v.props {
          SurvivesIff(p, env, value, v.props[k]);
        }
        MapTrips(p, key, value, v);
      case Name(path) =>
        hide RunEnc, RunDec, Survives, Encoder, Decoder, RunEncode;
        LocalTrips(p, path, v);
        if IsEnumMember(env, path, v) {
          EnumTrips(p, env, path, v);
        } else {
          hide CleanRecord, IsEnumMember, EnvSafe, Emitted;
          RecordFieldsTrip(p, env, path, v);
          hide IsRecord, FieldsTrip, RecordAt;
          if RecordAt(env, v.cls).value.shape.Tuple? {
            TupleTrips(p, env, path, v);
          } else {
            ObjectTrips(p, env, path, v);
          }
        }
      case _ => ScalarTrips(p, env, ty, v);
    }
  }

  lemma ScalarTrips(p: Program, env: Env, ty: Schema.RpType, v: Val)
    requires WellTyped(env, ty, v) && !ty.Array? && !ty.Map? && !ty.Name?
    ensures Survives(p, ty, v) <==> Clean(env, p.Hosted(), ty, v)
    ensures RunEnc(p, Encoder(ty), v) == Returns(v)
    ensures !ty.Any? ==> Defined(v) && v != Function
  {
  }

  lemma {:induction false} RecordFieldsTrip(p: Program, env: Env, path: Path, v: Val)
    requires EnvSafe(env) && Emitted(p.classes, env) && IsRecord(env, path, v)
    ensures FieldsTrip(p, env, RecordAt(env, v.cls).value, v)
    decreases v, 0
  {
    RecordShaped(env, path, v);
    var r := RecordAt(env, v.cls).value;
    forall i | 0 <= i < |r.fields| && Present(r, v, i)
      ensures var ty, x := r.fields[i].ty, v.members[r.fields[i].Safe()];
        && WellTyped(env, ty, x)
        && (Survives(p, ty, x) <==> Clean(env, p.Hosted(), ty, x))
        && (EncodedField(p, r, v, i).Returns? ==> Carried(r, EncodedField(p, r, v, i).value, i))
    {
      SurvivesIff(p, env, r.fields[i].ty, v.members[r.fields[i].Safe()]);
    }
  }

  lemma ArrayTrips(p: Program, inner: Schema.RpType, v: Val)
    requires v.Arr?
    ensures var ty := Schema.RpType.Array(inner);
      && (Survives(p, ty, v) <==>
            "Array" !in p.Hosted().shadowed && forall i :: 0 <= i < |v.elems| ==> Survives(p, inner, v.elems[i]))
      && (RunEnc(p, Encoder(ty), v).Returns? ==> RunEnc(p, Encoder(ty), v).value.Arr?)
  {
    var ty := Schema.RpType.Array(inner);
    var encoded := RunEnc(p, Encoder(ty), v);
    assert Encoder(ty) == MapElems(Encoder(inner)) && Decoder(ty) == LoopElems(Decoder(inner));
    if encoded.Returns? && "Array" !in p.Hosted().shadowed {
      var out := RunDec(p, Decoder(ty), encoded.value);
      if forall i :: 0 <= i < |v.elems| ==> Survives(p, inner, v.elems[i]) {
        assert out.value.elems == v.elems;
      }
      if out == Returns(v) {
        forall i | 0 <= i < |v.elems|
          ensures Survives(p, inner, v.elems[i])
        {
          assert out.value.elems[i] == v.elems[i];
        }
      }
    }
  }

  /** A map that may hold entries has keys that are encoded as they are. */
  lemma MapEncodes(p: Program, key: EncCode, code: EncCode, v: Val)
    requires v.Obj? && (v.props == map[] || key.Same?)
    ensures var out := RunEnc(p, MapEntries(key, code), v);
      && (out.Returns? <==> forall k :: k in v.props ==> RunEnc(p, code, v.props[k]).Returns?)
      && (out.Returns? ==>
            && out.value.Obj? && out.value.props.Keys == v.props.Keys - {PROTO}
            && forall k :: k in out.value.props ==> RunEnc(p, code, v.props[k]) == Returns(out.value.props[k]))
  {
  }

  lemma MapDecodes(p: Program, key: DecCode, code: DecCode, v: Val)
    requires v.Obj? && (v.props == map[] || key.Keep? || key.CheckString?)
    ensures var out := RunDec(p, LoopEntries(key, code), v);
      && (out.Returns? <==>
            "Object" !in p.Hosted().shadowed && forall k :: k in v.props ==> RunDec(p, code, v.props[k]).Returns?)
      && (out.Returns? ==>
            && out.value.Obj? && out.value.props.Keys == v.props.Keys - {PROTO}
            && forall k :: k in out.value.props ==> RunDec(p, code, v.props[k]) == Returns(out.value.props[k]))
  {
    assert Entries(v) == v.props;
  }

  lemma MapCode(key: Schema.RpType, value: Schema.RpType)
    ensures var ty := Schema.RpType.Map(key, value);
      && Encoder(ty) == MapEntries(Encoder(key), Encoder(value))
      && Decoder(ty) == LoopEntries(Decoder(key), Decoder(value))
    ensures TakesStrings(key) ==> Encoder(key).Same? && (Decoder(key).Keep? || Decoder(key).CheckString?)
  {
  }

  lemma MapTrips(p: Program, key: Schema.RpType, value: Schema.RpType, v: Val)
    requires v.Obj? && (v.props == map[] || TakesStrings(key))
    ensures var ty := Schema.RpType.Map(key, value);
      && (Survives(p, ty, v) <==>
            && "Object" !in p.Hosted().shadowed
            && PROTO !in v.props
            && forall k :: k in v.props ==> Survives(p, value, v.props[k]))
      && (RunEnc(p, Encoder(ty), v).Returns? ==> RunEnc(p, Encoder(ty), v).value.Obj?)
  {
    var ty := Schema.RpType.Map(key, value);
    var encoded := RunEnc(p, Encoder(ty), v);
    MapCode(key, value);
    MapEncodes(p, Encoder(key), Encoder(value), v);
    hide RunEnc, RunDec, Encoder, Decoder, TakesStrings;
    if encoded.Returns? {
      var e := encoded.value;
      NoEntries(v, e);
      MapDecodes(p, Decoder(key), Decoder(value), e);
      assert Survives(p, ty, v) <==> RunDec(p, Decoder(ty), e) == Returns(v);
      if PROTO !in v.props {
        forall k | k in v.props
          ensures Survives(p, value, v.props[k]) <==> RunDec(p, Decoder(value), e.props[k]) == Returns(v.props[k])
        {
          assert RunEnc(p, Encoder(value), v.props[k]) == Returns(e.props[k]);
        }
        hide Survives;
        MapEntrywise(p, key, value, v, e);
      }
    } else {
      var k :| k in v.props && RunEnc(p, Encoder(value), v.props[k]).Throws?;
      assert !Survives(p, value, v.props[k]);
    }
  }

  lemma NoEntries(v: Val, e: Val)
    requires v.Obj? && e.Obj? && e.props.Keys == v.props.Keys - {PROTO}
    ensures v.props == map[] ==> e.props == map[]
  {
  }

  lemma MapEntrywise(p: Program, key: Schema.RpType, value: Schema.RpType, v: Val, e: Val)
    requires v.Obj? && e.Obj? && e.props.Keys == v.props.Keys && PROTO !in v.props
    requires e.props == map[] || TakesStrings(key)
    ensures RunDec(p, Decoder(Schema.RpType.Map(key, value)), e) == Returns(v) <==>
      && "Object" !in p.Hosted().shadowed
      && forall k :: k in v.props ==> RunDec(p, Decoder(value), e.props[k]) == Returns(v.props[k])
  {
    MapCode(key, value);
    MapDecodes(p, Decoder(key), Decoder(value), e);
    hide RunDec, Decoder, Encoder;
    var out := RunDec(p, Decoder(Schema.RpType.Map(key, value)), e);
    if && "Object" !in p.Hosted().shadowed
       && forall k :: k in v.props ==> RunDec(p, Decoder(value), e.props[k]) == Returns(v.props[k])
    {
      assert out.value.props == v.props;
    }
  }
}
