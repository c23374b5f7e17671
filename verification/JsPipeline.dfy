/** From syntax tree to running code: what the checker and the type registry accept is what the
    round-trip theorem needs. */
module JsPipeline {
  import opened Wrappers
  import opened Schema
  import opened SchemaRules
  import opened Registry
  import RegistryNames
  import Untagged
  import IdlSyntax
  import Js
  import JsBackend
  import JsRoundTrip
  import JsLoading
  import JsDecoding
  import JsWire

  // Acceptance, read off the built schema

  const NO_LIMITS := Limits({}, {}, None, {})

  ghost predicate Accepted(d: Decl)
    decreases d, 1
  {
    && (match d
        case TypeDecl(_, fields, _) => FieldsOk(fields, NO_LIMITS)
        case TupleDecl(_, fields, _) => FieldsOk(fields, NO_LIMITS)
        case EnumDecl(_, vs) => forall i, j :: 0 <= i < j < |vs| ==> vs[i].value != vs[j].value
        case InterfaceDecl(_, base, _, subs, strategy) =>
          && FieldsOk(base, Limits({}, {}, TagOf(strategy), {}))
          && (forall i :: 0 <= i < |subs| ==> FieldsOk(subs[i].fields, SubTypeLimits(base, strategy, {})))
          && InterfaceOk(base, subs, strategy))
    && forall k :: 0 <= k < |InnerDecls(d)| ==> Accepted(InnerDecls(d)[k].1)
  }

  lemma FieldsLimit(fs: seq<Field>, limits: Limits, weaker: Limits)
    requires FieldsOk(fs, limits)
    requires weaker.idents <= limits.idents && weaker.names <= limits.names && weaker.reserved <= limits.reserved
    requires weaker.tag == limits.tag || weaker.tag.None?
    ensures FieldsOk(fs, weaker)
  {
    forall i | 0 <= i < |fs|
      ensures FieldFits(fs[i], weaker)
    {
      assert FieldFits(fs[i], limits);
    }
  }

  /** Whatever the checker accepts builds an accepted schema. */
  lemma {:induction false} CheckedIsAccepted(scope: Scope, d: AstDecl)
    requires DeclOk(scope, d)
    ensures Accepted(DeclModel(scope, d))
    decreases d, 1
  {
    match d {
      case TypeAst(_, reserved, ms) =>
        InnerAccepted(scope, ms);
        FieldsLimit(FieldsOf(scope, ms), Limits({}, {}, None, reserved), NO_LIMITS);
      case TupleAst(_, ms) =>
        InnerAccepted(scope, ms);
      case InterfaceAst(_, _, _, _, _) =>
        InterfaceAccepted(scope, d);
      case EnumAst(_, ty, vs) =>
        var values, models := VariantValues(ty, vs), VariantModels(ty, vs);
        forall i | 0 <= i < |vs|
          ensures values[i] == Some(models[i].value)
        {
          assert values[i] in values;
        }
    }
  }

  lemma {:induction false} InterfaceAccepted(scope: Scope, d: AstDecl)
    requires d.InterfaceAst? && DeclOk(scope, d)
    ensures Accepted(DeclModel(scope, d))
    decreases d, 0
  {
    var strategy := StrategyOf(d.info).value;
    var base, subs := FieldsOf(scope, d.members), SubTypeModels(scope, d.subTypes);
    InnerAccepted(scope, d.members);
    forall i | 0 <= i < |subs|
      ensures FieldsOk(subs[i].fields, SubTypeLimits(base, strategy, {}))
      ensures forall e :: e in subs[i].decls ==> Accepted(e)
    {
      assert SubTypeOk(scope, d.subTypes[i], base, strategy, d.reserved);
      SubTypeAccepted(scope, d.subTypes[i], base, strategy, d.reserved);
    }
    var inner := SubTypeDecls(subs);
    forall k | 0 <= k < |inner|
      ensures Accepted(inner[k].1)
    {
      var i :| 0 <= i < |subs| && inner[k].1 in subs[i].decls;
    }
  }

  lemma {:induction false} SubTypeAccepted(
    scope: Scope, s: AstSubType, base: seq<Field>, strategy: Strategy, reserved: set<string>
  )
    requires SubTypeOk(scope, s, base, strategy, reserved)
    ensures FieldsOk(SubTypeModel(scope, s).fields, SubTypeLimits(base, strategy, {}))
    ensures forall e :: e in SubTypeModel(scope, s).decls ==> Accepted(e)
    decreases s, 0
  {
    FieldsLimit(
      FieldsOf(scope, s.members),
      SubTypeLimits(base, strategy, reserved + s.reserved),
      SubTypeLimits(base, strategy, {}));
    InnerAccepted(scope, s.members);
  }

  lemma {:induction false} InnerAccepted(scope: Scope, ms: seq<AstMember>)
    requires MembersFine(scope, ms)
    ensures forall e :: e in DeclsOf(scope, ms) ==> Accepted(e)
    decreases ms, 0
  {
    if ms != [] {
      InnerAccepted(scope, ms[..|ms| - 1]);
      var last := ms[|ms| - 1];
      assert MemberFine(scope, last);
      if last.InnerDecl? {
        MemberAccepted(scope, last);
      }
    }
  }

  lemma {:induction false} MemberAccepted(scope: Scope, m: AstMember)
    requires m.InnerDecl? && MemberFine(scope, m)
    ensures Accepted(DeclModel(scope, m.decl))
    decreases m, 2
  {
    CheckedIsAccepted(scope, m.decl);
  }

  // Flattening and registration

  lemma {:induction false} FlattenAccepted(path: Path, d: Decl)
    requires Accepted(d)
    ensures forall e :: e in Flatten(path, d) ==> Accepted(e.1)
    decreases d, 1
  {
    FlattenInnerAccepted(path, d, |InnerDecls(d)|);
  }

  lemma {:induction false} FlattenInnerAccepted(path: Path, d: Decl, n: nat)
    requires Accepted(d) && n <= |InnerDecls(d)|
    ensures forall e :: e in FlattenInner(path, d, n) ==> Accepted(e.1)
    decreases d, 0, n
  {
    if n > 0 {
      FlattenInnerAccepted(path, d, n - 1);
      var (where_, inner) := InnerDecls(d)[n - 1];
      FlattenAccepted(path + where_, inner);
    }
  }

  function EnvOf(entries: seq<Entry>): JsBackend.Env {
    if entries == [] then map[]
    else
      var last := entries[|entries| - 1];
      EnvOf(entries[..|entries| - 1])[last.0 := last.1]
  }

  lemma {:induction false} EnvEntries(entries: seq<Entry>)
    ensures forall p :: p in EnvOf(entries) ==> (p, EnvOf(entries)[p]) in entries
  {
    if entries != [] {
      EnvEntries(entries[..|entries| - 1]);
    }
  }

  lemma {:induction false} EntryNames(entries: seq<Entry>, e: Entry, n: Path)
    requires e in entries && n in RegNames(e)
    ensures n in AllNames(entries)
  {
    if e != entries[|entries| - 1] {
      EntryNames(entries[..|entries| - 1], e, n);
    }
  }

  lemma {:induction false} NamesApart(entries: seq<Entry>, e1: Entry, e2: Entry, n: Path)
    requires Distinct(AllNames(entries)) && e1 in entries && e2 in entries && e1 != e2
    requires n in RegNames(e1)
    ensures n !in RegNames(e2)
  {
    var prefix, last := entries[..|entries| - 1], entries[|entries| - 1];
    RegistryNames.DistinctConcat(AllNames(prefix), RegNames(last));
    assert entries == prefix + [last];
    if e1 != last && e2 != last {
      NamesApart(prefix, e1, e2, n);
    } else if e1 != last {
      EntryNames(prefix, e1, n);
    } else if n in RegNames(e2) {
      EntryNames(prefix, e2, n);
    }
  }

  lemma {:induction false} EntryDistinct(entries: seq<Entry>, e: Entry)
    requires Distinct(AllNames(entries)) && e in entries
    ensures Distinct(RegNames(e))
  {
    var prefix, last := entries[..|entries| - 1], entries[|entries| - 1];
    RegistryNames.DistinctConcat(AllNames(prefix), RegNames(last));
    if e != last {
      EntryDistinct(prefix, e);
    }
  }

  /** An error-free registry means that no two declarations emit the same class. */
  lemma RegisteredEnv(entries: seq<Entry>)
    requires Distinct(AllNames(entries))
    ensures JsBackend.Registered(EnvOf(entries))
  {
    var env := EnvOf(entries);
    EnvEntries(entries);
    forall p, q | p in env && q in env && p != q
      ensures JsBackend.DeclPaths(p, env[p]) !! JsBackend.DeclPaths(q, env[q])
    {
      forall n | n in JsBackend.DeclPaths(p, env[p])
        ensures n !in JsBackend.DeclPaths(q, env[q])
      {
        PathNames((p, env[p]));
        PathNames((q, env[q]));
        NamesApart(entries, (p, env[p]), (q, env[q]), n);
      }
    }
    forall p | p in env && env[p].InterfaceDecl?
      ensures JsBackend.DistinctIdents(env[p].subTypes)
    {
      EntryDistinct(entries, (p, env[p]));
      var subs, names := env[p].subTypes, RegNames((p, env[p]));
      assert forall i :: 0 <= i < |subs| ==> names[i] == p + [subs[i].ident];
      assert forall i :: 0 <= i < |subs| ==> names[i][|p|] == subs[i].ident;
    }
  }

  lemma PathNames(e: Entry)
    ensures forall n :: n in JsBackend.DeclPaths(e.0, e.1) ==> n in RegNames(e)
  {
    var (path, d) := e;
    assert RegNames(e)[|RegNames(e)| - 1] == path;
    if d.InterfaceDecl? {
      forall i | 0 <= i < |d.subTypes|
        ensures JsBackend.SubPath(path, d.subTypes[i]) in RegNames(e)
      {
        assert RegNames(e)[i] == JsBackend.SubPath(path, d.subTypes[i]);
      }
    }
  }

  // What JavaScript adds

  /** The words that the backend escapes with a leading underscore. */
  predicate JsKeyword(s: string) {
    s in {
      "abstract", "await", "boolean", "break", "byte", "case", "catch", "char", "class", "const", "continue",
      "debugger", "default", "delete", "do", "double", "else", "enum", "export", "extends", "false", "final",
      "finally", "float", "for", "function", "goto", "if", "implements", "import", "in", "instanceof", "int",
      "interface", "let", "long", "native", "new", "null", "package", "private", "protected", "public", "return",
      "short", "static", "super", "switch", "synchronized", "this", "throw", "throws", "transient", "true", "try",
      "typeof", "var", "void", "volatile", "while", "with", "yield"
    }
  }

  function Escape(ident: string): string { if JsKeyword(ident) then "_" + ident else ident }

  /** Field identifiers as the schema lexer reads them: it strips leading underscores. */
  predicate FieldIdent(s: string) {
    (s == "" || s[0] != '_') && forall i :: 0 <= i < |s| ==> IdlSyntax.IsIdentChar(s[i])
  }

  lemma IdentifierLexed(s: string, i: nat)
    requires i <= |s|
    ensures var t := IdlSyntax.IdentifierAt(s, i).token; t.Identifier? ==> FieldIdent(t.name)
  {
    var stripped := IdlSyntax.Run(s, i, IdlSyntax.IsUnderscore);
    var end := IdlSyntax.Run(s, stripped, IdlSyntax.IsIdentChar);
    assert forall k :: 0 <= k < end - stripped ==> s[stripped..end][k] == s[stripped + k];
  }

  lemma TypeIdentifierLexed(s: string, i: nat)
    requires i < |s| && 'A' <= s[i] <= 'Z'
    ensures JsLoading.TypeIdent(IdlSyntax.TypeIdentifierAt(s, i).token.name)
  {
    var end := IdlSyntax.Run(s, i, IdlSyntax.IsTypeChar);
    assert forall k :: 0 <= k < end - i ==> s[i..end][k] == s[i + k];
  }

  lemma NameTokens(s: string, i: nat)
    requires i <= |s| && IdlSyntax.TokenAt(s, i).Emit?
    ensures var t := IdlSyntax.TokenAt(s, i).token;
      && (t.Identifier? ==> t == IdlSyntax.IdentifierAt(s, i).token)
      && (t.TypeIdentifier? ==> i < |s| && 'A' <= s[i] <= 'Z' && t == IdlSyntax.TypeIdentifierAt(s, i).token)
  {
    hide IdlSyntax.At, IdlSyntax.DocLines, IdlSyntax.StringFrom, IdlSyntax.LiteralAt, IdlSyntax.Run;
  }

  /** Whatever the lexer yields as a name has one of the two forms. */
  lemma LexedNames(s: string, st: IdlSyntax.State)
    requires IdlSyntax.StateOk(s, st) && IdlSyntax.NextStep(s, st).Emit?
    ensures var t := IdlSyntax.NextStep(s, st).token;
      && (t.Identifier? ==> FieldIdent(t.name))
      && (t.TypeIdentifier? ==> JsLoading.TypeIdent(t.name))
  {
    hide IdlSyntax.TokenAt, IdlSyntax.IdentifierAt, IdlSyntax.TypeIdentifierAt, IdlSyntax.CodeEnd, IdlSyntax.Skip;
    hide FieldIdent, JsLoading.TypeIdent;
    if st.close.None? && st.block.None? {
      var i := IdlSyntax.Skip(s, st.pos);
      NameTokens(s, i);
      IdentifierLexed(s, i);
      if i < |s| && 'A' <= s[i] <= 'Z' {
        TypeIdentifierLexed(s, i);
      }
    }
  }

  /** With the backend's keywords and no naming policy for identifiers, the checker escapes exactly those. */
  lemma ModelEscapes(scope: Scope, f: AstField)
    requires f.ty.Some? && scope.fieldIdentNaming.None?
    requires forall k :: k in scope.keywords <==> JsKeyword(k)
    requires forall k :: k in scope.keywords ==> scope.keywords[k] == "_" + k
    ensures FieldModel(scope, f).Safe() == Escape(FieldModel(scope, f).ident)
  {
    hide JsKeyword;
  }

  /** Assigning to `__proto__` would not create a property. */
  ghost predicate JsField(f: Field) { f.Name() != Js.PROTO && FieldIdent(f.ident) && f.Safe() == Escape(f.ident) }

  /** Names as the lexer reads them, and escaped as the backend asks. */
  ghost predicate JsReady(package: Path, e: Entry) {
    && (forall c :: c in JsBackend.DeclPaths(e.0, e.1) ==> JsLoading.ClassPath(package, c))
    && match e.1
       case TypeDecl(_, fields, _) => forall f :: f in fields ==> JsField(f)
       case TupleDecl(_, fields, _) => forall f :: f in fields ==> JsField(f)
       case EnumDecl(_, _) => true
       case InterfaceDecl(_, fields, _, subs, strategy) =>
         && (forall f :: f in fields ==> JsField(f))
         && (forall i :: 0 <= i < |subs| ==> forall f :: f in subs[i].fields ==> JsField(f))
         && (strategy.Tagged? ==> strategy.tag != Js.PROTO)
  }

  lemma SafeDistinct(f: Field, g: Field)
    requires JsField(f) && JsField(g) && f.ident != g.ident
    ensures f.Safe() != g.Safe()
  {
    hide JsKeyword;
    assert ("_" + f.ident)[1..] == f.ident && ("_" + g.ident)[1..] == g.ident;
    assert ("_" + f.ident)[0] == '_' && ("_" + g.ident)[0] == '_';
  }

  // Legal modules

  /** What an identifier needs to become a parameter: an escape of `_1a` leaves no letter, and the two names
      that strict code refuses are not among the escaped words. */
  predicate Bindable(ident: string) {
    ident != "" && 'a' <= ident[0] <= 'z' && ident != "eval" && ident != "arguments"
  }

  predicate FieldsLegal(fields: seq<Field>) {
    && (forall i :: 0 <= i < |fields| ==>
          Bindable(fields[i].ident) && JsLoading.TypeLoads(JsBackend.Translate(fields[i].ty)))
    && (forall i, j :: 0 <= i < j < |fields| ==>
          !(JsLoading.Collecting(fields[i]) && JsLoading.Collecting(fields[j])))
  }

  /** The emitted classes are legal: identifiers can be bound, at most one required field of a class is an
      array or a map, no map has arrays or maps on both sides, and untagged sub-types require something. */
  predicate Legal(d: Decl) {
    match d
    case TypeDecl(_, fields, _) => FieldsLegal(fields)
    case TupleDecl(_, fields, _) => FieldsLegal(fields)
    case EnumDecl(_, _) => true
    case InterfaceDecl(_, fields, _, subs, strategy) =>
      forall i :: 0 <= i < |subs| ==>
        FieldsLegal(fields + subs[i].fields) && (strategy.Untagged? ==> subs[i].Required() != {})
  }

  lemma ReservedIsEscaped(s: string)
    requires Js.Reserved(s) && s != "eval" && s != "arguments"
    ensures JsKeyword(s)
  {
  }

  lemma KeywordStarts(s: string)
    requires JsKeyword(s)
    ensures |s| >= 2 && 'a' <= s[0] <= 'z'
    ensures s != "eval" && s != "arguments" && s != "constructor" && s != "encode"
  {
  }

  lemma FieldBinds(f: Field)
    requires JsField(f)
    ensures Js.BindingName(f.Safe()) <==> Bindable(f.ident)
    ensures Js.BindingName(JsBackend.LocalOf(f))
  {
    var local, escaped := JsBackend.LocalOf(f), "_" + f.ident;
    assert forall i :: 2 <= i < |local| ==> local[i] == f.ident[i - 2];
    assert local[0] == 'v' && local[1] == '_';
    assert forall i :: 1 <= i < |escaped| ==> escaped[i] == f.ident[i - 1];
    if Js.Reserved(local) {
      JsLoading.ReservedWords(local);
    }
    if JsKeyword(f.ident) {
      KeywordStarts(f.ident);
      if Js.Reserved(escaped) {
        JsLoading.ReservedWords(escaped);
      }
    } else if Js.Reserved(f.ident) {
      if f.ident != "eval" && f.ident != "arguments" {
        ReservedIsEscaped(f.ident);
      }
    }
    RefusedWords();
    hide Js.Reserved, JsKeyword;
  }

  lemma RefusedWords()
    ensures Js.Reserved("eval") && Js.Reserved("arguments")
  {
  }

  lemma FieldsLegalIff(fields: seq<Field>)
    requires forall f :: f in fields ==> JsField(f)
    ensures JsLoading.FieldsLoad(fields) <==> FieldsLegal(fields)
  {
    hide Js.BindingName, JsBackend.LocalOf, Bindable, JsLoading.TypeLoads, JsLoading.Collecting;
    forall i | 0 <= i < |fields|
      ensures JsLoading.FieldLoads(fields[i]) <==>
        Bindable(fields[i].ident) && JsLoading.TypeLoads(JsBackend.Translate(fields[i].ty))
    {
      FieldBinds(fields[i]);
    }
  }

  lemma LegalIff(package: Path, e: Entry)
    requires JsReady(package, e)
    ensures JsLoading.DeclLoads(e.1) <==> Legal(e.1)
  {
    hide JsLoading.FieldsLoad, FieldsLegal, JsField;
    match e.1 {
      case TypeDecl(_, fields, _) => FieldsLegalIff(fields);
      case TupleDecl(_, fields, _) => FieldsLegalIff(fields);
      case EnumDecl(_, _) =>
      case InterfaceDecl(_, fields, _, subs, _) =>
        forall i | 0 <= i < |subs|
          ensures JsLoading.FieldsLoad(fields + subs[i].fields) <==> FieldsLegal(fields + subs[i].fields)
        {
          FieldsLegalIff(fields + subs[i].fields);
        }
    }
  }

  lemma FieldsRecordOk(fs: seq<Field>, shape: JsBackend.Shape)
    requires FieldsOk(fs, Limits({}, {}, if shape.Tagged? then Some(shape.tag) else None, {}))
    requires (forall f :: f in fs ==> JsField(f)) && (shape.Tagged? ==> shape.tag != Js.PROTO)
    ensures JsRoundTrip.RecordOk(JsBackend.Record(fs, shape))
  {
    forall i, j | 0 <= i < j < |fs|
      ensures fs[i].Safe() != fs[j].Safe()
    {
      SafeDistinct(fs[i], fs[j]);
    }
    forall i | 0 <= i < |fs|
      ensures fs[i].Name() != Js.PROTO
    {
      assert JsField(fs[i]);
    }
    hide JsField;
    forall i | 0 <= i < |fs|
      ensures FieldFits(fs[i], Limits({}, {}, if shape.Tagged? then Some(shape.tag) else None, {}))
    {
    }
  }

  /** A sub-type's fields join the interface's without clashing. */
  lemma JoinedFields(base: seq<Field>, own: seq<Field>, strategy: Strategy)
    requires FieldsOk(base, Limits({}, {}, TagOf(strategy), {}))
    requires FieldsOk(own, SubTypeLimits(base, strategy, {}))
    ensures FieldsOk(base + own, Limits({}, {}, TagOf(strategy), {}))
    ensures Names(own) !! Names(base)
  {
    var all := base + own;
    forall i | 0 <= i < |own|
      ensures FieldFits(own[i], SubTypeLimits(base, strategy, {}))
    {
    }
    forall i | 0 <= i < |all|
      ensures FieldFits(all[i], Limits({}, {}, TagOf(strategy), {}))
    {
      if i >= |base| {
        assert all[i] == own[i - |base|];
      }
    }
    forall i, j | 0 <= i < j < |all|
      ensures all[i].ident != all[j].ident && all[i].Name() != all[j].Name()
    {
      if i < |base| <= j {
        assert all[i].ident in Idents(base) && all[i].Name() in Names(base);
        assert FieldFits(own[j - |base|], SubTypeLimits(base, strategy, {}));
      }
    }
  }

  lemma AcceptedIsSafe(package: Path, e: Entry)
    requires Accepted(e.1) && JsReady(package, e)
    ensures JsRoundTrip.DeclSafe(e.1)
  {
    match e.1 {
      case TypeDecl(_, fields, _) => FieldsRecordOk(fields, JsBackend.Plain);
      case TupleDecl(_, fields, _) => FieldsRecordOk(fields, JsBackend.Tuple);
      case EnumDecl(_, _) =>
      case InterfaceDecl(_, base, _, subs, strategy) =>
        forall i | 0 <= i < |subs|
          ensures JsRoundTrip.RecordOk(JsBackend.SubRecord(base, strategy, subs[i]))
        {
          JoinedFields(base, subs[i].fields, strategy);
          FieldsRecordOk(base + subs[i].fields, JsBackend.SubRecord(base, strategy, subs[i]).shape);
        }
    }
  }

  /** The order that the checker demands makes dispatch reach every sub-type whose interface requires no
      inherited name. */
  lemma AcceptedReaches(env: JsBackend.Env, inherited: set<string>, path: Path, v: Js.Val)
    requires JsRoundTrip.EnvSafe(env) && JsRoundTrip.IsRecord(env, path, v)
    requires path in env && Accepted(env[path])
    requires env[path].InterfaceDecl? ==> forall s :: s in env[path].subTypes ==> s.Required() !! inherited
    ensures JsRoundTrip.Reaches(env, inherited, path, v)
  {
    if v.cls != path && env[path].strategy.Untagged? {
      JsRoundTrip.ReachesSub(env, inherited, path, v);
      var d, i := env[path], JsRoundTrip.SubIndex(env, v.cls).value;
      forall k | 0 <= k < |d.subTypes|
        ensures Names(d.subTypes[k].fields) !! Names(d.fields)
      {
        JoinedFields(d.fields, d.subTypes[k].fields, d.strategy);
      }
      PresentEncodes(env, path, v, d.fields, d.subTypes[i]);
      Untagged.AcceptedDispatch(
        d.fields, d.subTypes, inherited, i,
        JsRoundTrip.PresentNames(d.fields + d.subTypes[i].fields, v));
    }
  }

  /** The names of the present fields of a typed record can be the keys of its encoding. */
  lemma PresentEncodes(env: JsBackend.Env, path: Path, v: Js.Val, base: seq<Field>, s: SubType)
    requires JsRoundTrip.IsRecord(env, path, v)
    requires JsRoundTrip.RecordAt(env, v.cls).value.fields == base + s.fields
    requires JsRoundTrip.SafeSet(base + s.fields) <= v.members.Keys
    ensures Untagged.Encodes(base, s, JsRoundTrip.PresentNames(base + s.fields, v))
  {
    var fields := base + s.fields;
    forall f | f in fields && f.required
      ensures f.Name() in JsRoundTrip.PresentNames(fields, v)
    {
      var k :| 0 <= k < |fields| && fields[k] == f;
      assert f.Safe() in JsRoundTrip.SafeSet(fields);
      assert v.members[fields[k].Safe()] != Js.Null;
    }
    forall n | n in JsRoundTrip.PresentNames(fields, v)
      ensures n in Names(base) + Names(s.fields)
    {
      var f :| f in fields && f.Name() == n;
      assert f in base || f in s.fields;
    }
  }

  lemma {:induction false} FlattenAllAccepted(package: Path, decls: seq<Decl>)
    requires forall i :: 0 <= i < |decls| ==> Accepted(decls[i])
    ensures forall e :: e in FlattenAll(package, decls) ==> Accepted(e.1)
  {
    if decls != [] {
      FlattenAllAccepted(package, decls[..|decls| - 1]);
      FlattenAccepted(package + [decls[|decls| - 1].ident], decls[|decls| - 1]);
    }
  }

  /** The declarations of a checked file meet every hypothesis of the round-trip theorem. */
  lemma EntriesSafe(entries: seq<Entry>, package: Path)
    requires Distinct(AllNames(entries))
    requires forall e :: e in entries ==> Accepted(e.1) && JsReady(package, e)
    ensures JsRoundTrip.EnvSafe(EnvOf(entries)) && JsLoading.Lexical(package, EnvOf(entries))
    ensures JsLoading.Loadable(EnvOf(entries)) <==> forall e :: e in entries ==> Legal(e.1)
  {
    var env := EnvOf(entries);
    RegisteredEnv(entries);
    EnvEntries(entries);
    EntriesInEnv(entries);
    forall path | path in env
      ensures JsRoundTrip.DeclSafe(env[path])
      ensures JsLoading.DeclLoads(env[path]) <==> Legal(env[path])
    {
      assert (path, env[path]) in entries;
      AcceptedIsSafe(package, (path, env[path]));
      LegalIff(package, (path, env[path]));
    }
    hide JsRoundTrip.DeclSafe, JsLoading.DeclLoads, Legal, JsLoading.ClassPath, Accepted, JsBackend.Registered;
    assert forall e :: e in entries ==> e.0 in env && env[e.0] == e.1;
  }

  lemma {:induction false} EntriesInEnv(entries: seq<Entry>)
    requires Distinct(AllNames(entries))
    ensures forall e :: e in entries ==> e.0 in EnvOf(entries) && EnvOf(entries)[e.0] == e.1
  {
    if entries != [] {
      var prefix, last := entries[..|entries| - 1], entries[|entries| - 1];
      RegistryNames.DistinctConcat(AllNames(prefix), RegNames(last));
      EntriesInEnv(prefix);
      assert entries == prefix + [last];
      assert RegNames(last)[|RegNames(last)| - 1] == last.0;
      forall e | e in prefix
        ensures e.0 != last.0
      {
        assert RegNames(e)[|RegNames(e)| - 1] == e.0;
        EntryNames(prefix, e, e.0);
      }
    }
  }

  /** `p` is the module of a file that the checker accepts and whose names register without conflict; `entries`
      are its declarations, at every depth. */
  ghost predicate Compiled(scope: Scope, asts: seq<AstDecl>, entries: seq<Entry>, p: Js.Program) {
    && (forall i :: 0 <= i < |asts| ==> DeclOk(scope, asts[i]))
    && entries == FlattenAll(p.package, FileModel(scope, asts)) && Distinct(AllNames(entries))
    && (forall e :: e in entries ==> JsReady(p.package, e))
    && JsBackend.Emitted(p.classes, EnvOf(entries))
    && p.classes.Keys == JsBackend.PathsWithout(EnvOf(entries), {})
  }

  lemma CompiledAccepted(scope: Scope, asts: seq<AstDecl>, entries: seq<Entry>, p: Js.Program)
    requires Compiled(scope, asts, entries, p)
    ensures forall i :: 0 <= i < |FileModel(scope, asts)| ==> Accepted(FileModel(scope, asts)[i])
  {
    forall i | 0 <= i < |asts|
      ensures Accepted(FileModel(scope, asts)[i])
    {
      assert FileModel(scope, asts)[i] == DeclModel(scope, asts[i]);
      CheckedIsAccepted(scope, asts[i]);
    }
  }

  lemma CompiledParts(scope: Scope, asts: seq<AstDecl>, entries: seq<Entry>, p: Js.Program)
    requires Compiled(scope, asts, entries, p)
    ensures entries == FlattenAll(p.package, FileModel(scope, asts)) && Distinct(AllNames(entries))
    ensures forall e :: e in entries ==> JsReady(p.package, e)
    ensures JsBackend.Emitted(p.classes, EnvOf(entries))
    ensures p.classes.Keys == JsBackend.PathsWithout(EnvOf(entries), {})
  {
    hide DeclOk, FlattenAll, FileModel, JsReady, JsBackend.Emitted, JsBackend.PathsWithout, Distinct, AllNames, EnvOf;
  }

  lemma IsCompiled(scope: Scope, asts: seq<AstDecl>, entries: seq<Entry>, p: Js.Program)
    requires forall i :: 0 <= i < |asts| ==> DeclOk(scope, asts[i])
    requires entries == FlattenAll(p.package, FileModel(scope, asts)) && Distinct(AllNames(entries))
    requires forall e :: e in entries ==> JsReady(p.package, e)
    requires JsBackend.Emitted(p.classes, EnvOf(entries))
    requires p.classes.Keys == JsBackend.PathsWithout(EnvOf(entries), {})
    ensures Compiled(scope, asts, entries, p)
  {
    hide DeclOk, FlattenAll, FileModel, JsReady, JsBackend.Emitted, JsBackend.PathsWithout, Distinct, AllNames, EnvOf;
  }

  lemma CompiledSafe(scope: Scope, asts: seq<AstDecl>, entries: seq<Entry>, p: Js.Program)
    requires Compiled(scope, asts, entries, p)
    ensures JsRoundTrip.EnvSafe(EnvOf(entries)) && JsLoading.Lexical(p.package, EnvOf(entries))
    ensures JsLoading.Loadable(EnvOf(entries)) <==> forall e :: e in entries ==> Legal(e.1)
  {
    hide *;
    CompiledAccepted(scope, asts, entries, p);
    CompiledParts(scope, asts, entries, p);
    FlattenAllAccepted(p.package, FileModel(scope, asts));
    EntriesSafe(entries, p.package);
  }

  /** The compiler-correctness theorem: a file that the checker accepts and whose names register without
      conflict compiles to a JavaScript module that carries a value of any type of the schema through `encode`
      and `decode` unchanged, if and only if the file's declarations are legal in JavaScript and the value
      avoids the traps named by `Clean`. */
  lemma AcceptedRoundTrips(
    scope: Scope, asts: seq<AstDecl>, entries: seq<Entry>, p: Js.Program, ty: RpType, v: Js.Val
  )
    requires Compiled(scope, asts, entries, p) && JsRoundTrip.WellTyped(EnvOf(entries), ty, v)
    ensures JsLoading.RoundTrips(p, ty, v) <==>
      (forall e :: e in entries ==> Legal(e.1)) && JsRoundTrip.Clean(EnvOf(entries), p.Hosted(), ty, v)
  {
    hide *;
    CompiledParts(scope, asts, entries, p);
    CompiledSafe(scope, asts, entries, p);
    JsLoading.RoundTripIff(p, EnvOf(entries), ty, v);
  }

  /** What the emitted encoders of such a file write is what the schema says, for every value. */
  lemma AcceptedWrites(
    scope: Scope, asts: seq<AstDecl>, entries: seq<Entry>, p: Js.Program, ty: RpType, v: Js.Val, out: Js.Val
  )
    requires Compiled(scope, asts, entries, p) && JsRoundTrip.WellTyped(EnvOf(entries), ty, v)
    requires Js.RunEnc(p, JsRoundTrip.Encoder(ty), v) == Js.Returns(out)
    ensures JsWire.OnWire(EnvOf(entries), ty, v, out)
  {
    hide *;
    CompiledParts(scope, asts, entries, p);
    CompiledSafe(scope, asts, entries, p);
    JsWire.Encoded(p, EnvOf(entries), ty, v, out);
  }

  /** What the emitted decoders of such a file return, whatever they are given, is a value of the type. */
  lemma AcceptedReads(
    scope: Scope, asts: seq<AstDecl>, entries: seq<Entry>, p: Js.Program, ty: RpType, data: Js.Val, v: Js.Val
  )
    requires Compiled(scope, asts, entries, p)
    requires Js.RunDec(p, JsRoundTrip.Decoder(ty), data) == Js.Returns(v)
    ensures JsRoundTrip.WellTyped(EnvOf(entries), ty, v)
  {
    hide *;
    CompiledParts(scope, asts, entries, p);
    CompiledSafe(scope, asts, entries, p);
    JsDecoding.IsComplete(p, EnvOf(entries));
    JsDecoding.Decoded(p, EnvOf(entries), ty, data, v);
  }
}
