/** Derived declarations as files: when the checker accepts them, and their registration. */
module DerivedSchemas {
  import opened Wrappers
  import opened Sir
  import opened Occurrences
  import opened Derive
  import Schema
  import Rules = SchemaRules
  import Checker
  import Registry
  import RegistryNames

  // Syntax trees of derived declarations

  function TypeAst(ty: Type): Schema.RpType {
    match ty
    case Unsigned64 => Schema.RpType.Number(Schema.U64)
    case Signed64 => Schema.RpType.Number(Schema.I64)
    case FloatType => Schema.RpType.Float
    case DoubleType => Schema.RpType.Double
    case BooleanType => Schema.RpType.Boolean
    case StringType => Schema.RpType.String
    case DateTimeType => Schema.RpType.DateTime
    case AnyType => Schema.RpType.Any
    case ArrayType(inner) => Schema.RpType.Array(TypeAst(inner))
    case NameType(path) => Schema.RpType.Name(path)
  }

  function FieldAst(f: FieldDecl): Schema.AstField {
    Schema.AstField(f.required, f.name, Some(TypeAst(f.ty)), f.alias, true)
  }

  function DeclAst(d: Decl): Schema.AstDecl
    decreases d, 0
  {
    match d
    case TypeDecl(ident, members) => Schema.TypeAst(ident, {}, MembersAst(members))
    case TupleDecl(ident, members) => Schema.TupleAst(ident, MembersAst(members))
    case InterfaceDecl(ident, info, subs) => Schema.InterfaceAst(ident, {}, info, [], SubTypesAst(subs))
  }

  function MembersAst(members: seq<Member>): (asts: seq<Schema.AstMember>)
    decreases members, 1
  {
    if members == [] then []
    else MembersAst(members[..|members| - 1]) + [MemberAst(members[|members| - 1])]
  }

  function MemberAst(m: Member): Schema.AstMember
    decreases m, 2
  {
    match m
    case FieldMember(f) => Schema.FieldMember(FieldAst(f))
    case InnerDecl(d) => Schema.InnerDecl(DeclAst(d))
  }

  function SubTypesAst(subs: seq<SubTypeDecl>): (asts: seq<Schema.AstSubType>)
    decreases subs, 3
  {
    seq(|subs|, i requires 0 <= i < |subs| => SubTypeAst(subs[i]))
  }

  function SubTypeAst(sub: SubTypeDecl): Schema.AstSubType
    decreases sub, 2
  {
    var alias := if sub.alias.Some? then Some(Schema.StringAst(sub.alias.value)) else None;
    Schema.AstSubType(sub.ident, alias, {}, MembersAst(sub.members))
  }

  lemma MembersAstSnoc(members: seq<Member>, m: Member)
    ensures MembersAst(members + [m]) == MembersAst(members) + [MemberAst(m)]
  {
    assert (members + [m])[..|members|] == members;
  }

  // The checker, declaration by declaration

  const NO_LIMITS := Rules.Limits({}, {}, None, {})

  predicate MembersLocal(scope: Rules.Scope, members: seq<Member>, limits: Rules.Limits) {
    Rules.FieldsOk(Rules.FieldsOf(scope, MembersAst(members)), limits)
  }

  /** What the checker demands of sub-types besides different identifiers. */
  predicate SubTypesLocal(subs: seq<Schema.SubType>, strategy: Schema.Strategy) {
    && (forall i, j :: 0 <= i < j < |subs| ==> subs[i].Name() != subs[j].Name())
    && (strategy.Untagged? ==>
          Rules.RequiredDistinct(subs) && Rules.OptionalsApart(subs) && Rules.RequiredOrdered(subs))
  }

  /** What the checker demands of one declaration, without those inside it. */
  predicate LocalOk(scope: Rules.Scope, d: Decl) {
    match d
    case TypeDecl(_, members) => MembersLocal(scope, members, NO_LIMITS)
    case TupleDecl(_, members) => MembersLocal(scope, members, NO_LIMITS)
    case InterfaceDecl(_, info, subs) =>
      && Rules.StrategyOf(info).Some?
      && var strategy := Rules.StrategyOf(info).value;
      && (forall i :: 0 <= i < |subs| ==>
            MembersLocal(scope, subs[i].members, Rules.SubTypeLimits([], strategy, {})))
      && SubTypesLocal(Rules.SubTypeModels(scope, SubTypesAst(subs)), strategy)
  }

  predicate AllLocal(scope: Rules.Scope, provided: set<Declared>) {
    forall e :: e in provided ==> LocalOk(scope, e.1)
  }

  lemma AllLocalUnion(scope: Rules.Scope, p: set<Declared>, q: set<Declared>)
    ensures AllLocal(scope, p + q) <==> AllLocal(scope, p) && AllLocal(scope, q)
  {
    hide LocalOk;
    if AllLocal(scope, p + q) {
      assert p <= p + q && q <= p + q;
    }
  }

  lemma AllLocalOne(scope: Rules.Scope, e: Declared)
    ensures AllLocal(scope, {e}) <==> LocalOk(scope, e.1)
  {
    hide LocalOk;
    assert e in {e};
  }

  /** Which inner declarations the checker accepts. */
  predicate InnerAccepted(scope: Rules.Scope, members: seq<Member>) {
    Rules.MembersFine(scope, MembersAst(members)) && Rules.Distinct(Rules.InnerIdents(MembersAst(members)))
  }

  lemma InnerAcceptedSnoc(scope: Rules.Scope, members: seq<Member>, m: Member)
    ensures InnerAccepted(scope, members + [m]) <==>
      && InnerAccepted(scope, members)
      && (m.InnerDecl? ==>
            && Rules.DeclOk(scope, DeclAst(m.decl))
            && m.decl.ident !in Rules.InnerIdents(MembersAst(members)))
    ensures Rules.InnerIdents(MembersAst(members + [m])) ==
      Rules.InnerIdents(MembersAst(members)) + if m.InnerDecl? then [m.decl.ident] else []
  {
    MembersAstSnoc(members, m);
    var asts, ast := MembersAst(members), MemberAst(m);
    var all := asts + [ast];
    assert all[..|asts|] == asts && all[|asts|] == ast;
    assert Rules.MembersFine(scope, all) <==> Rules.MembersFine(scope, asts) && Rules.MemberFine(scope, ast);
    if m.InnerDecl? {
      assert ast == Schema.InnerDecl(DeclAst(m.decl)) && DeclAst(m.decl).name == m.decl.ident;
      Checker.DistinctSnoc(Rules.InnerIdents(asts), m.decl.ident);
    } else {
      assert Rules.MemberFine(scope, ast);
      assert Rules.InnerIdents(all) == Rules.InnerIdents(asts);
    }
  }

  lemma {:induction false} MembersAccepted(scope: Rules.Scope, path: Path, members: seq<Member>)
    ensures InnerAccepted(scope, members) <==>
      MembersApart(members) && AllLocal(scope, ProvidedMembers(path, members))
    ensures InnerIdents(members) == set n <- Rules.InnerIdents(MembersAst(members))
    decreases members, 1
  {
    if members == [] {
      assert MembersAst(members) == [];
    } else {
      var prefix, m := members[..|members| - 1], members[|members| - 1];
      assert members == prefix + [m];
      MembersAccepted(scope, path, prefix);
      MemberAccepted(scope, path, m);
      MembersAcceptedNext(scope, path, prefix, m);
    }
  }

  lemma MembersAcceptedNext(scope: Rules.Scope, path: Path, prefix: seq<Member>, m: Member)
    requires InnerAccepted(scope, prefix) <==>
      MembersApart(prefix) && AllLocal(scope, ProvidedMembers(path, prefix))
    requires InnerIdents(prefix) == set n <- Rules.InnerIdents(MembersAst(prefix))
    requires m.InnerDecl? ==>
      (Rules.DeclOk(scope, DeclAst(m.decl)) <==> Apart(m.decl) && AllLocal(scope, ProvidedMember(path, m)))
    ensures InnerAccepted(scope, prefix + [m]) <==>
      MembersApart(prefix + [m]) && AllLocal(scope, ProvidedMembers(path, prefix + [m]))
    ensures InnerIdents(prefix + [m]) == set n <- Rules.InnerIdents(MembersAst(prefix + [m]))
  {
    assert !m.InnerDecl? ==> AllLocal(scope, ProvidedMember(path, m));
    hide *;
    InnerAcceptedSnoc(scope, prefix, m);
    MembersApartSnoc(prefix, m);
    MemberSnoc(path, prefix, m);
    AllLocalUnion(scope, ProvidedMembers(path, prefix), ProvidedMember(path, m));
  }

  lemma {:induction false} MemberAccepted(scope: Rules.Scope, path: Path, m: Member)
    ensures m.InnerDecl? ==>
      (Rules.DeclOk(scope, DeclAst(m.decl)) <==> Apart(m.decl) && AllLocal(scope, ProvidedMember(path, m)))
    decreases m, 2
  {
    if m.InnerDecl? {
      Accepted(scope, path + [m.decl.ident], m.decl);
      assert ProvidedMember(path, m) == Provided(path + [m.decl.ident], m.decl);
    }
  }

  /** The checker accepts a declaration exactly if nothing in it has the same name in the same place, and
      every declaration in it is acceptable by itself. */
  lemma {:induction false} Accepted(scope: Rules.Scope, path: Path, d: Decl)
    ensures Rules.DeclOk(scope, DeclAst(d)) <==> Apart(d) && AllLocal(scope, Provided(path, d))
    decreases d, 0
  {
    AllLocalUnion(scope, {(path, d)}, ProvidedInside(path, d));
    AllLocalOne(scope, (path, d));
    match d {
      case TypeDecl(_, members) =>
        MembersAccepted(scope, path, members);
        hide MembersApart, AllLocal, MembersAst, Rules.MembersFine, Rules.FieldsOk;
      case TupleDecl(_, members) =>
        MembersAccepted(scope, path, members);
        hide MembersApart, AllLocal, MembersAst, Rules.MembersFine, Rules.FieldsOk;
      case InterfaceDecl(_, info, subs) =>
        InterfaceAccepted(scope, path, d);
    }
  }

  predicate SubTypesInner(scope: Rules.Scope, subs: seq<SubTypeDecl>) {
    forall i :: 0 <= i < |subs| ==> InnerAccepted(scope, subs[i].members)
  }

  predicate SubTypesInside(subs: seq<SubTypeDecl>) {
    forall i :: 0 <= i < |subs| ==> MembersApart(subs[i].members)
  }

  lemma SubTypesSnoc(scope: Rules.Scope, subs: seq<SubTypeDecl>, sub: SubTypeDecl)
    ensures SubTypesInner(scope, subs + [sub]) <==> SubTypesInner(scope, subs) && InnerAccepted(scope, sub.members)
    ensures SubTypesInside(subs + [sub]) <==> SubTypesInside(subs) && MembersApart(sub.members)
  {
    hide InnerAccepted, MembersApart;
    var all := subs + [sub];
    assert all[|subs|] == sub && forall i :: 0 <= i < |subs| ==> all[i] == subs[i];
    if SubTypesInner(scope, all) {
      assert forall i :: 0 <= i < |subs| ==> InnerAccepted(scope, all[i].members);
    }
    if SubTypesInside(all) {
      assert forall i :: 0 <= i < |subs| ==> MembersApart(all[i].members);
    }
  }

  lemma {:induction false} SubTypesAccepted(scope: Rules.Scope, path: Path, subs: seq<SubTypeDecl>)
    ensures SubTypesInner(scope, subs) <==>
      SubTypesInside(subs) && AllLocal(scope, ProvidedSubTypes(path, subs))
    decreases subs, 1
  {
    if subs != [] {
      var prefix, last := subs[..|subs| - 1], subs[|subs| - 1];
      assert subs == prefix + [last];
      SubTypesAccepted(scope, path, prefix);
      MembersAccepted(scope, path + [last.ident], last.members);
      var before, below := ProvidedSubTypes(path, prefix), ProvidedMembers(path + [last.ident], last.members);
      assert ProvidedSubTypes(path, subs) == before + below;
      hide *;
      AllLocalUnion(scope, before, below);
      SubTypesSnoc(scope, prefix, last);
    }
  }

  lemma {:induction false} InterfaceAccepted(scope: Rules.Scope, path: Path, d: Decl)
    requires d.InterfaceDecl?
    ensures Rules.DeclOk(scope, DeclAst(d)) <==>
      Apart(d) && LocalOk(scope, d) && AllLocal(scope, ProvidedInside(path, d))
    decreases d, 0, 0
  {
    var subs, info := d.subTypes, d.info;
    SubTypesAccepted(scope, path, subs);
    if Rules.StrategyOf(info).Some? {
      InterfaceRules(scope, d);
      hide AllLocal, MembersApart, InnerAccepted, MembersLocal, SubTypesLocal, Rules.DeclOk, DeclAst;
    }
  }

  /** The checker's rules for a derived interface. */
  lemma InterfaceRules(scope: Rules.Scope, d: Decl)
    requires d.InterfaceDecl? && Rules.StrategyOf(d.info).Some?
    ensures var strategy := Rules.StrategyOf(d.info).value;
      Rules.DeclOk(scope, DeclAst(d)) <==>
        && SubTypesInner(scope, d.subTypes)
        && (forall i :: 0 <= i < |d.subTypes| ==>
              MembersLocal(scope, d.subTypes[i].members, Rules.SubTypeLimits([], strategy, {})))
        && (forall i, k :: 0 <= i < k < |d.subTypes| ==> d.subTypes[i].ident != d.subTypes[k].ident)
        && SubTypesLocal(Rules.SubTypeModels(scope, SubTypesAst(d.subTypes)), strategy)
  {
    var strategy, asts := Rules.StrategyOf(d.info).value, SubTypesAst(d.subTypes);
    var models := Rules.SubTypeModels(scope, asts);
    forall i | 0 <= i < |asts|
      ensures asts[i] == SubTypeAst(d.subTypes[i]) && models[i].ident == d.subTypes[i].ident
      ensures Rules.SubTypeOk(scope, asts[i], [], strategy, {}) <==>
        && InnerAccepted(scope, d.subTypes[i].members)
        && MembersLocal(scope, d.subTypes[i].members, Rules.SubTypeLimits([], strategy, {}))
    {
      assert asts[i] == SubTypeAst(d.subTypes[i]);
      assert models[i] == Rules.SubTypeModel(scope, asts[i]);
      assert asts[i].reserved == {};
      var none: set<string> := {};
      assert none + asts[i].reserved == none;
    }
    assert Rules.FieldsOf(scope, []) == [];
    assert Rules.MembersOk(scope, [], Rules.Limits({}, {}, Rules.TagOf(strategy), {}));
    hide Rules.SubTypeOk, InnerAccepted, MembersLocal, MembersAst, Rules.RequiredDistinct, Rules.OptionalsApart,
      Rules.RequiredOrdered, Rules.SubTypeModel;
  }

  // The checker, structure by structure

  /** The name on the wire of a derived field: the key itself, unless the file has a convention for fields
      without an alias. */
  function WireName(scope: Rules.Scope, naming: Naming, key: string): string {
    if naming.snake(key) == key && scope.fieldNaming.Some? then scope.fieldNaming.value(key) else key
  }

  predicate EntriesFine(scope: Rules.Scope, naming: Naming, entries: seq<Entry>, tag: Option<string>) {
    && (forall i, k :: 0 <= i < k < |entries| ==> naming.snake(entries[i].key) != naming.snake(entries[k].key))
    && (forall i, k :: 0 <= i < k < |entries| ==>
          WireName(scope, naming, entries[i].key) != WireName(scope, naming, entries[k].key))
    && (forall i :: 0 <= i < |entries| ==> Some(WireName(scope, naming, entries[i].key)) != tag)
  }

  /** What a structure must be like: keys differ before and after case conversion, and an interface has the
      default tag, which no sub-type has as a key. */
  predicate Fine(scope: Rules.Scope, naming: Naming, s: Sir) {
    match s
    case Object(entries) => EntriesFine(scope, naming, entries, None)
    case Tuple(items) => EntriesFine(scope, naming, ItemEntries(items), None)
    case Interface(tag, subs) =>
      && tag == Schema.DEFAULT_TAG
      && (forall i :: 0 <= i < |subs| ==> EntriesFine(scope, naming, subs[i].structure, Some(tag)))
      && (forall i, k :: 0 <= i < k < |subs| ==> subs[i].name != subs[k].name)
    case _ => true
  }

  lemma {:induction false} FieldsOfAst(scope: Rules.Scope, members: seq<Member>)
    ensures var fields, models := FieldsOf(members), Rules.FieldsOf(scope, MembersAst(members));
      && |models| == |fields|
      && forall i :: 0 <= i < |fields| ==> models[i] == Rules.FieldModel(scope, FieldAst(fields[i]))
  {
    if members != [] {
      var prefix, m := members[..|members| - 1], members[|members| - 1];
      FieldsOfAst(scope, prefix);
      var asts, ast := MembersAst(prefix), MemberAst(m);
      assert (asts + [ast])[..|asts|] == asts && (asts + [ast])[|asts|] == ast;
    }
  }

  lemma WireNameOf(scope: Rules.Scope, naming: Naming, types: Types, key: string, f: Field, out: FieldDecl)
    requires FieldFor(naming, types, key, f, out)
    ensures Rules.FieldModel(scope, FieldAst(out)).ident == naming.snake(key)
    ensures Rules.FieldModel(scope, FieldAst(out)).Name() == WireName(scope, naming, key)
  {
    hide Rules.SafeIdent, TypeFor, TypeAst;
  }

  lemma MembersLocalIff(
    scope: Rules.Scope, naming: Naming, types: Types, entries: seq<Entry>, members: seq<Member>,
    tag: Option<string>
  )
    requires EntriesFor(naming, types, entries, FieldsOf(members))
    ensures MembersLocal(scope, members, Rules.Limits({}, {}, tag, {})) <==> EntriesFine(scope, naming, entries, tag)
  {
    FieldsOfAst(scope, members);
    var models := Rules.FieldsOf(scope, MembersAst(members));
    forall i | 0 <= i < |entries|
      ensures models[i].ident == naming.snake(entries[i].key)
      ensures models[i].Name() == WireName(scope, naming, entries[i].key)
    {
      WireNameOf(scope, naming, types, entries[i].key, entries[i].field, FieldsOf(members)[i]);
    }
    hide FieldFor, WireName, MembersAst, Rules.FieldModel, FieldsOf, Rules.FieldsOf;
  }

  /** A declaration is acceptable by itself exactly if the structure that it is built from is fine. */
  lemma LocalIff(scope: Rules.Scope, naming: Naming, types: Types, s: Sir, d: Decl)
    requires Struct(s) && DeclFor(naming, types, s, d)
    ensures LocalOk(scope, d) <==> Fine(scope, naming, s)
  {
    match s {
      case Object(entries) => MembersLocalIff(scope, naming, types, entries, d.members, None);
      case Tuple(items) => MembersLocalIff(scope, naming, types, ItemEntries(items), d.members, None);
      case Interface(tag, subs) =>
        if tag == Schema.DEFAULT_TAG {
          InterfaceLocalIff(scope, naming, types, s, d);
        } else {
          assert "type" in d.info.value.values.Keys && "type" !in Rules.Meant(d.info.value);
        }
    }
  }

  lemma InterfaceLocalIff(scope: Rules.Scope, naming: Naming, types: Types, s: Sir, d: Decl)
    requires s.Interface? && DeclFor(naming, types, s, d) && s.tag == Schema.DEFAULT_TAG
    ensures LocalOk(scope, d) <==> Fine(scope, naming, s)
  {
    var subs, outs, strategy := s.subTypes, d.subTypes, Schema.Tagged(Schema.DEFAULT_TAG);
    var models := Rules.SubTypeModels(scope, SubTypesAst(outs));
    assert Rules.StrategyOf(d.info) == Some(strategy);
    assert |models| == |subs|;
    forall i | 0 <= i < |subs|
      ensures models[i].Name() == subs[i].name
      ensures MembersLocal(scope, outs[i].members, Rules.SubTypeLimits([], strategy, {})) <==>
        EntriesFine(scope, naming, subs[i].structure, Some(strategy.tag))
    {
      SubTypeLocalIff(scope, naming, types, subs[i], outs[i]);
      assert models[i] == Rules.SubTypeModel(scope, SubTypeAst(outs[i]));
    }
    hide MembersLocal, EntriesFine, SubTypeFor, Rules.SubTypeModels, Rules.SubTypeLimits, SubTypesAst, TagInfo,
      Rules.StrategyOf;
  }

  lemma SubTypeLocalIff(scope: Rules.Scope, naming: Naming, types: Types, sub: SubType, out: SubTypeDecl)
    requires SubTypeFor(naming, types, sub, out)
    ensures Rules.SubTypeModel(scope, SubTypeAst(out)).Name() == sub.name
    ensures var tag := Schema.DEFAULT_TAG;
      MembersLocal(scope, out.members, Rules.SubTypeLimits([], Schema.Tagged(tag), {})) <==>
        EntriesFine(scope, naming, sub.structure, Some(tag))
  {
    var tag := Schema.DEFAULT_TAG;
    MembersLocalIff(scope, naming, types, sub.structure, out.members, Some(tag));
    assert Rules.SubTypeLimits([], Schema.Tagged(tag), {}) == Rules.Limits({}, {}, Some(tag), {});
  }

  /** The checker accepts a derived declaration if and only if structures that first occur in one place have
      different names, and every structure in the document is fine. */
  lemma DerivedIsAccepted(scope: Rules.Scope, naming: Naming, types: Types, path: Path, s: Sir, d: Decl)
    requires Struct(Strip(s)) && Derived(naming, types, path, s, d)
    ensures Rules.DeclOk(scope, DeclAst(d)) <==>
      Once(naming, {}, s) && forall t :: t in Structs(s) ==> Fine(scope, naming, t)
  {
    hide Once, Apart, Named, LocalOk, Fine, Inner, ProvidedInside, Rules.DeclOk, DeclAst;
    Accepted(scope, path, d);
    DeclForStrip(naming, types, s, d);
    if AllLocal(scope, Provided(path, d)) {
      forall t | t in Structs(s)
        ensures Fine(scope, naming, t)
      {
        if t in Inner(s) {
          InnerSmaller(s, t);
          assert BackedBy(naming, types, t, ProvidedInside(path, d));
          var e :| (types[t], e) in ProvidedInside(path, d) && DeclFor(naming, types, t, e);
          LocalIff(scope, naming, types, t, e);
          assert (types[t], e) in Provided(path, d);
        } else {
          LocalIff(scope, naming, types, t, d);
          assert (path, d) in Provided(path, d);
        }
      }
    }
    if forall t :: t in Structs(s) ==> Fine(scope, naming, t) {
      forall e | e in Provided(path, d)
        ensures LocalOk(scope, e.1)
      {
        var t := SourceOf(naming, types, path, s, d, e);
        if t in Inner(s) {
          InnerSmaller(s, t);
          LocalIff(scope, naming, types, t, e.1);
        } else {
          LocalIff(scope, naming, types, Strip(s), d);
        }
      }
    }
  }

  lemma {:induction false} DeclForStrip(naming: Naming, types: Types, s: Sir, d: Decl)
    requires DeclFor(naming, types, s, d)
    ensures DeclFor(naming, types, Strip(s), d)
  {
    if s.Array? {
      DeclForStrip(naming, types, s.inner, d);
    }
  }

  /** So a document with an interface under another tag is never accepted. */
  lemma UnusualTagRefused(
    scope: Rules.Scope, naming: Naming, types: Types, path: Path, s: Sir, d: Decl, t: Sir
  )
    requires Struct(Strip(s)) && Derived(naming, types, path, s, d)
    requires t in Structs(s) && t.Interface? && t.tag != Schema.DEFAULT_TAG
    ensures !Rules.DeclOk(scope, DeclAst(d))
  {
    assert !Fine(scope, naming, t);
    hide Fine, Rules.DeclOk, Derived, Once, Apart, Structs;
    DerivedIsAccepted(scope, naming, types, path, s, d);
  }

  // Registration

  lemma {:induction false} NoHomonyms(d: Decl)
    ensures RegistryNames.NoHomonyms(DeclAst(d))
    decreases d, 0
  {
    match d {
      case TypeDecl(_, members) => MembersFree(members);
      case TupleDecl(_, members) => MembersFree(members);
      case InterfaceDecl(_, _, subs) =>
        forall i | 0 <= i < |subs|
          ensures RegistryNames.SubTypeFree(SubTypesAst(subs)[i])
        {
          MembersFree(subs[i].members);
        }
    }
  }

  lemma {:induction false} MembersFree(members: seq<Member>)
    ensures RegistryNames.MembersFree(MembersAst(members))
    decreases members, 1
  {
    if members != [] {
      MembersFree(members[..|members| - 1]);
      MemberFree(members[|members| - 1]);
    }
  }

  lemma {:induction false} MemberFree(m: Member)
    ensures RegistryNames.MemberFree(MemberAst(m))
    decreases m, 2
  {
    if m.InnerDecl? {
      NoHomonyms(m.decl);
    }
  }

  /** A file with just an accepted derived declaration registers without conflict. */
  lemma DerivedRegisters(scope: Rules.Scope, package: Path, d: Decl)
    requires Rules.DeclOk(scope, DeclAst(d))
    ensures Rules.Distinct(Registry.AllNames(Registry.FlattenAll(package, Registry.FileModel(scope, [DeclAst(d)]))))
  {
    NoHomonyms(d);
    hide RegistryNames.NoHomonyms, Rules.DeclOk;
    RegistryNames.CheckedFileIff(scope, package, [DeclAst(d)]);
  }
}
