/** Which documents a derived schema describes: those that have the structure, and of the document it was derived
    from everything but what the structure leaves out. */
module DerivedConformance {
  import opened Wrappers
  import opened Sir
  import opened Occurrences
  import opened Derive
  import opened DerivedSchemas
  import opened Inference
  import opened Conformance
  import Fitting
  import Schema
  import Rules = SchemaRules
  import Registry

  // What a structure says about a document

  /** `j` has the structure; entries with other keys do not matter. An interface is the structure of one of
      its objects. */
  predicate Admits(s: Sir, j: Json)
    decreases j, 2
  {
    match s
    case U64 => j.JNum? && (j.kind.Unsigned? || j.kind.Wide?)
    case I64 => j.JNum? && (j.kind.Unsigned? || j.kind.Signed?)
    case Float => j.JNum? && !j.kind.DoublePrecision?
    case Double => j.JNum?
    case Boolean => j.JBool?
    case String => j.JStr?
    case DateTime => j.JStr? && j.datetime
    case Any => true
    case Array(inner) => j.JArr? && forall i :: 0 <= i < |j.elems| ==> Admits(inner, j.elems[i])
    case Object(entries) => AdmitsEntries(entries, j)
    case Tuple(items) =>
      j.JArr? && |j.elems| == |items| && forall i :: 0 <= i < |items| ==> AdmitsField(items[i], j, j.elems[i])
    case Interface(tag, subs) =>
      exists i :: 0 <= i < |subs| && AdmitsEntries(subs[i].structure, j) && HasTag(j, tag, subs[i].name)
  }

  predicate AdmitsEntries(entries: seq<Entry>, j: Json)
    decreases j, 1
  {
    && j.JObj?
    && forall i :: 0 <= i < |entries| ==>
         && (!entries[i].field.optional ==> HasKey(j, entries[i].key))
         && forall k :: 0 <= k < |j.entries| && j.entries[k].0 == entries[i].key ==>
              AdmitsField(entries[i].field, j, j.entries[k].1)
  }

  /** `x` may be there, in `j`. */
  predicate AdmitsField(f: Field, j: Json, x: Json)
    requires x < j
    decreases j, 0
  {
    if x.JNull? then f.optional else Admits(f.sir, x)
  }

  // The declarations of a derived file

  function Model(scope: Rules.Scope, d: Decl): Schema.Decl { Rules.DeclModel(scope, DeclAst(d)) }

  function Modelled(scope: Rules.Scope, e: Declared): Registry.Entry { (e.0, Model(scope, e.1)) }

  function Image(scope: Rules.Scope, provided: set<Declared>): set<Registry.Entry> {
    set e <- provided :: Modelled(scope, e)
  }

  lemma ImageUnion(scope: Rules.Scope, p: set<Declared>, q: set<Declared>)
    ensures Image(scope, p + q) == Image(scope, p) + Image(scope, q)
  {
    hide Model, Modelled;
    forall e | e in Image(scope, p) + Image(scope, q) ensures e in Image(scope, p + q) {
      if e in Image(scope, p) {
        var x :| x in p && e == Modelled(scope, x);
        assert x in p + q;
      } else {
        var x :| x in q && e == Modelled(scope, x);
        assert x in p + q;
      }
    }
  }

  function Flat(entries: seq<Registry.Entry>): set<Registry.Entry> { set e <- entries }

  lemma FlatConcat(a: seq<Registry.Entry>, b: seq<Registry.Entry>)
    ensures Flat(a + b) == Flat(a) + Flat(b)
  {
  }

  /** The declarations at and below placed declarations. */
  function FlatPlaced(path: Path, inner: seq<Registry.Inner>): set<Registry.Entry> {
    if inner == [] then {}
    else
      var last := inner[|inner| - 1];
      FlatPlaced(path, inner[..|inner| - 1]) + Flat(Registry.Flatten(path + last.0, last.1))
  }

  lemma {:induction false} FlatPlacedConcat(path: Path, a: seq<Registry.Inner>, b: seq<Registry.Inner>)
    ensures FlatPlaced(path, a + b) == FlatPlaced(path, a) + FlatPlaced(path, b)
  {
    hide Flat, Registry.Flatten;
    if b == [] {
      assert a + b == a;
    } else {
      FlatPlacedConcat(path, a, b[..|b| - 1]);
      assert (a + b)[..|a + b| - 1] == a + b[..|b| - 1];
    }
  }

  lemma {:induction false} FlatInner(path: Path, d: Schema.Decl, n: nat)
    requires n <= |Registry.InnerDecls(d)|
    ensures Flat(Registry.FlattenInner(path, d, n)) == FlatPlaced(path, Registry.InnerDecls(d)[..n])
  {
    if n > 0 {
      var inner := Registry.InnerDecls(d);
      FlatInner(path, d, n - 1);
      assert inner[..n][..n - 1] == inner[..n - 1];
      FlatConcat(
        Registry.FlattenInner(path, d, n - 1), Registry.Flatten(path + inner[n - 1].0, inner[n - 1].1));
    }
  }

  lemma FlatDecl(path: Path, d: Schema.Decl)
    ensures Flat(Registry.Flatten(path, d)) == {(path, d)} + FlatPlaced(path, Registry.InnerDecls(d))
  {
    var n := |Registry.InnerDecls(d)|;
    FlatInner(path, d, n);
    assert Registry.InnerDecls(d)[..n] == Registry.InnerDecls(d);
    FlatConcat([(path, d)], Registry.FlattenInner(path, d, n));
  }

  lemma PlacedSnoc(prefix: Path, decls: seq<Schema.Decl>, d: Schema.Decl)
    ensures Registry.Placed(prefix, decls + [d]) == Registry.Placed(prefix, decls) + [(prefix + [d.ident], d)]
  {
  }

  /** One more inner declaration. */
  lemma PlacedNext(path: Path, prefix: Path, decls: seq<Schema.Decl>, d: Schema.Decl)
    ensures FlatPlaced(path, Registry.Placed(prefix, decls + [d])) ==
      FlatPlaced(path, Registry.Placed(prefix, decls)) + Flat(Registry.Flatten(path + prefix + [d.ident], d))
  {
    PlacedSnoc(prefix, decls, d);
    var placed, last := Registry.Placed(prefix, decls), (prefix + [d.ident], d);
    hide Registry.Flatten, Registry.Placed;
    assert (placed + [last])[..|placed|] == placed;
    assert path + (prefix + [d.ident]) == path + prefix + [d.ident];
  }

  lemma InnerModels(scope: Rules.Scope, members: seq<Member>, m: Member)
    ensures Rules.DeclsOf(scope, MembersAst(members + [m])) ==
      Rules.DeclsOf(scope, MembersAst(members)) + if m.InnerDecl? then [Model(scope, m.decl)] else []
  {
    MembersAstSnoc(members, m);
    var asts, ast := MembersAst(members), MemberAst(m);
    assert (asts + [ast])[..|asts|] == asts;
  }

  lemma {:induction false} MembersFlat(scope: Rules.Scope, path: Path, prefix: Path, members: seq<Member>)
    ensures FlatPlaced(path, Registry.Placed(prefix, Rules.DeclsOf(scope, MembersAst(members)))) ==
      Image(scope, ProvidedMembers(path + prefix, members))
    decreases members, 1
  {
    if members == [] {
      assert MembersAst(members) == [];
    } else {
      var before, m := members[..|members| - 1], members[|members| - 1];
      assert members == before + [m];
      MembersFlat(scope, path, prefix, before);
      MemberFlat(scope, path + prefix, m);
      MembersFlatNext(scope, path, prefix, before, m);
    }
  }

  lemma MembersFlatNext(scope: Rules.Scope, path: Path, prefix: Path, before: seq<Member>, m: Member)
    requires FlatPlaced(path, Registry.Placed(prefix, Rules.DeclsOf(scope, MembersAst(before)))) ==
      Image(scope, ProvidedMembers(path + prefix, before))
    requires Image(scope, ProvidedMember(path + prefix, m)) ==
      if m.InnerDecl? then Flat(Registry.Flatten(path + prefix + [m.decl.ident], Model(scope, m.decl))) else {}
    requires m.InnerDecl? ==> Model(scope, m.decl).ident == m.decl.ident
    ensures FlatPlaced(path, Registry.Placed(prefix, Rules.DeclsOf(scope, MembersAst(before + [m])))) ==
      Image(scope, ProvidedMembers(path + prefix, before + [m]))
  {
    hide *;
    InnerModels(scope, before, m);
    MemberSnoc(path + prefix, before, m);
    ImageUnion(scope, ProvidedMembers(path + prefix, before), ProvidedMember(path + prefix, m));
    if m.InnerDecl? {
      PlacedNext(path, prefix, Rules.DeclsOf(scope, MembersAst(before)), Model(scope, m.decl));
    } else {
      assert Rules.DeclsOf(scope, MembersAst(before + [m])) == Rules.DeclsOf(scope, MembersAst(before));
    }
  }

  lemma ModelIdent(scope: Rules.Scope, d: Decl)
    ensures Model(scope, d).ident == d.ident
  {
  }

  lemma {:induction false} MemberFlat(scope: Rules.Scope, path: Path, m: Member)
    ensures m.InnerDecl? ==> Model(scope, m.decl).ident == m.decl.ident
    ensures Image(scope, ProvidedMember(path, m)) ==
      if m.InnerDecl? then Flat(Registry.Flatten(path + [m.decl.ident], Model(scope, m.decl))) else {}
    decreases m, 2
  {
    if m.InnerDecl? {
      ModelIdent(scope, m.decl);
      ProvidedFlat(scope, path + [m.decl.ident], m.decl);
    }
  }

  lemma {:induction false} SubTypesFlat(scope: Rules.Scope, path: Path, subs: seq<SubTypeDecl>)
    ensures FlatPlaced(path, Registry.SubTypeDecls(Rules.SubTypeModels(scope, SubTypesAst(subs)))) ==
      Image(scope, ProvidedSubTypes(path, subs))
    decreases subs, 1
  {
    if subs == [] {
      assert SubTypesAst(subs) == [];
    } else {
      var before, last := subs[..|subs| - 1], subs[|subs| - 1];
      SubTypesFlat(scope, path, before);
      MembersFlat(scope, path, [last.ident], last.members);
      assert subs == before + [last];
      SubTypesFlatNext(scope, path, before, last);
    }
  }

  lemma SubTypeModelsSnoc(scope: Rules.Scope, before: seq<SubTypeDecl>, last: SubTypeDecl)
    ensures Rules.SubTypeModels(scope, SubTypesAst(before + [last])) ==
      Rules.SubTypeModels(scope, SubTypesAst(before)) + [Rules.SubTypeModel(scope, SubTypeAst(last))]
  {
    hide SubTypeAst, Rules.SubTypeModel;
  }

  lemma SubTypesFlatNext(scope: Rules.Scope, path: Path, before: seq<SubTypeDecl>, last: SubTypeDecl)
    requires FlatPlaced(path, Registry.SubTypeDecls(Rules.SubTypeModels(scope, SubTypesAst(before)))) ==
      Image(scope, ProvidedSubTypes(path, before))
    requires FlatPlaced(path, Registry.Placed([last.ident], Rules.DeclsOf(scope, MembersAst(last.members)))) ==
      Image(scope, ProvidedMembers(path + [last.ident], last.members))
    ensures FlatPlaced(path, Registry.SubTypeDecls(Rules.SubTypeModels(scope, SubTypesAst(before + [last])))) ==
      Image(scope, ProvidedSubTypes(path, before + [last]))
  {
    assert (before + [last])[..|before|] == before;
    assert ProvidedSubTypes(path, before + [last]) ==
      ProvidedSubTypes(path, before) + ProvidedMembers(path + [last.ident], last.members);
    var models, model := Rules.SubTypeModels(scope, SubTypesAst(before)), Rules.SubTypeModel(scope, SubTypeAst(last));
    assert model.ident == last.ident && model.decls == Rules.DeclsOf(scope, MembersAst(last.members));
    SubTypeModelsSnoc(scope, before, last);
    assert (models + [model])[..|models|] == models;
    assert Registry.SubTypeDecls(models + [model]) ==
      Registry.SubTypeDecls(models) + Registry.Placed([model.ident], model.decls);
    hide *;
    FlatPlacedConcat(path, Registry.SubTypeDecls(models), Registry.Placed([model.ident], model.decls));
    ImageUnion(scope, ProvidedSubTypes(path, before), ProvidedMembers(path + [last.ident], last.members));
  }

  /** What is registered for a derived declaration is what it provides. */
  lemma {:induction false} ProvidedFlat(scope: Rules.Scope, path: Path, d: Decl)
    ensures Flat(Registry.Flatten(path, Model(scope, d))) == Image(scope, Provided(path, d))
    decreases d, 0
  {
    FlatDecl(path, Model(scope, d));
    ImageUnion(scope, {(path, d)}, ProvidedInside(path, d));
    ImageOne(scope, (path, d));
    assert path + [] == path;
    match d {
      case TypeDecl(_, members) => MembersFlat(scope, path, [], members);
      case TupleDecl(_, members) => MembersFlat(scope, path, [], members);
      case InterfaceDecl(_, _, subs) =>
        SubTypesFlat(scope, path, subs);
        InterfaceInner(scope, d);
    }
  }

  lemma ImageOne(scope: Rules.Scope, e: Declared)
    ensures Image(scope, {e}) == {Modelled(scope, e)}
  {
    hide Modelled;
  }

  lemma InterfaceInner(scope: Rules.Scope, d: Decl)
    requires d.InterfaceDecl?
    ensures Registry.InnerDecls(Model(scope, d)) ==
      Registry.SubTypeDecls(Rules.SubTypeModels(scope, SubTypesAst(d.subTypes)))
  {
    var subs := Registry.SubTypeDecls(Rules.SubTypeModels(scope, SubTypesAst(d.subTypes)));
    assert Rules.DeclsOf(scope, []) == [] && Registry.Placed([], []) == [];
    assert [] + subs == subs;
  }

  // Types, declarations and structures

  /** `d` is the declaration at `path`, and there is no other one. */
  ghost predicate Only(decls: Declarations, path: Path, d: Schema.Decl) {
    forall e :: e in decls && e.0 == path <==> e == (path, d)
  }

  /** The name that is cached for `s` is that of a declaration built from `s`, and of no other. */
  ghost predicate DeclaredAs(scope: Rules.Scope, naming: Naming, types: Types, decls: Declarations, s: Sir)
    requires s in types
  {
    && Struct(s) && Fine(scope, naming, s)
    && exists d :: DeclFor(naming, types, s, d) && Only(decls, types[s], Model(scope, d))
  }

  ghost predicate Declaring(scope: Rules.Scope, naming: Naming, types: Types, decls: Declarations) {
    scope.fieldNaming.None? && forall s :: s in types ==> DeclaredAs(scope, naming, types, decls, s)
  }

  lemma FieldModelIs(
    scope: Rules.Scope, naming: Naming, types: Types, key: string, f: Field, out: FieldDecl
  )
    requires FieldFor(naming, types, key, f, out) && scope.fieldNaming.None?
    ensures var model := Rules.FieldModel(scope, FieldAst(out));
      model.Name() == key && model.required == !f.optional && model.ty == TypeAst(out.ty)
  {
    WireNameOf(scope, naming, types, key, f, out);
  }

  lemma {:induction false} FieldAgrees(
    scope: Rules.Scope, naming: Naming, types: Types, decls: Declarations, key: string, f: Field, out: FieldDecl,
    model: Schema.Field, j: Json, x: Json
  )
    requires Declaring(scope, naming, types, decls) && FieldFor(naming, types, key, f, out) && x < j
    requires model.required == !f.optional && model.ty == TypeAst(out.ty)
    ensures FieldHolds(decls, model, j, x) <==> AdmitsField(f, j, x)
    decreases j, 0
  {
    hide Declaring, TypeFor, Conforms, Admits;
    if !x.JNull? {
      TypeAgrees(scope, naming, types, decls, f.sir, out.ty, x);
    }
  }

  lemma {:induction false} TypeAgrees(
    scope: Rules.Scope, naming: Naming, types: Types, decls: Declarations, s: Sir, ty: Type, j: Json
  )
    requires Declaring(scope, naming, types, decls) && TypeFor(types, s, ty)
    ensures Conforms(decls, TypeAst(ty), j) <==> Admits(s, j)
    decreases j, 4
  {
    if s.Array? {
      if j.JArr? {
        forall i | 0 <= i < |j.elems|
          ensures Conforms(decls, TypeAst(ty.inner), j.elems[i]) <==> Admits(s.inner, j.elems[i])
        {
          TypeAgrees(scope, naming, types, decls, s.inner, ty.inner, j.elems[i]);
        }
      }
      hide Declaring, TypeFor;
      ArrayAgrees(decls, s, ty, j);
    } else if Struct(s) {
      assert TypeAst(ty) == Schema.RpType.Name(types[s]);
      hide *;
      var d := DeclaredStruct(scope, naming, types, decls, s);
      NameAgrees(decls, types[s], Model(scope, d), j);
      StructAgrees(scope, naming, types, decls, s, d, j);
    } else {
      hide *;
      ScalarAgrees(types, decls, s, ty, j);
    }
  }

  lemma ScalarAgrees(types: Types, decls: Declarations, s: Sir, ty: Type, j: Json)
    requires !s.Array? && !Struct(s) && TypeFor(types, s, ty)
    ensures Conforms(decls, TypeAst(ty), j) <==> Admits(s, j)
  {
  }

  lemma DeclaredStruct(scope: Rules.Scope, naming: Naming, types: Types, decls: Declarations, s: Sir) returns (d: Decl)
    requires Declaring(scope, naming, types, decls) && s in types
    ensures DeclFor(naming, types, s, d) && Only(decls, types[s], Model(scope, d)) && Fine(scope, naming, s)
  {
    assert DeclaredAs(scope, naming, types, decls, s);
    hide DeclFor, Only, Fine, Model;
    d :| DeclFor(naming, types, s, d) && Only(decls, types[s], Model(scope, d));
  }

  lemma ArrayAgrees(decls: Declarations, s: Sir, ty: Type, j: Json)
    requires s.Array? && ty.ArrayType?
    requires j.JArr? ==> forall i :: 0 <= i < |j.elems| ==>
      (Conforms(decls, TypeAst(ty.inner), j.elems[i]) <==> Admits(s.inner, j.elems[i]))
    ensures Conforms(decls, TypeAst(ty), j) <==> Admits(s, j)
  {
  }

  lemma NameAgrees(decls: Declarations, path: Path, d: Schema.Decl, j: Json)
    requires Only(decls, path, d)
    ensures Conforms(decls, Schema.RpType.Name(path), j) <==> DeclConforms(decls, d, j)
  {
    hide DeclConforms;
    var e: Registry.Entry := (path, d);
    assert e in decls && e.0 == path;
  }

  lemma {:induction false} EntriesAgree(
    scope: Rules.Scope, naming: Naming, types: Types, decls: Declarations, entries: seq<Entry>, members: seq<Member>,
    j: Json
  )
    requires Declaring(scope, naming, types, decls) && EntriesFor(naming, types, entries, FieldsOf(members))
    ensures FieldsConform(decls, Rules.FieldsOf(scope, MembersAst(members)), j) <==> AdmitsEntries(entries, j)
    decreases j, 1
  {
    var models := Rules.FieldsOf(scope, MembersAst(members));
    FieldsOfAst(scope, members);
    assert |models| == |entries|;
    if j.JObj? {
      forall i, k | 0 <= i < |entries| && 0 <= k < |j.entries|
        ensures models[i].Name() == entries[i].key && models[i].required == !entries[i].field.optional
        ensures FieldHolds(decls, models[i], j, j.entries[k].1) <==> AdmitsField(entries[i].field, j, j.entries[k].1)
      {
        var out := FieldsOf(members)[i];
        FieldModelIs(scope, naming, types, entries[i].key, entries[i].field, out);
        FieldAgrees(
          scope, naming, types, decls, entries[i].key, entries[i].field, out, models[i], j, j.entries[k].1);
      }
      forall i | 0 <= i < |entries|
        ensures models[i].Name() == entries[i].key && models[i].required == !entries[i].field.optional
      {
        FieldModelIs(scope, naming, types, entries[i].key, entries[i].field, FieldsOf(members)[i]);
      }
    }
    hide Declaring, FieldFor, EntriesFor, FieldsOf, Rules.FieldsOf, FieldHolds, AdmitsField, MembersAst, HasKey;
  }

  lemma {:induction false} ItemsAgree(
    scope: Rules.Scope, naming: Naming, types: Types, decls: Declarations, items: seq<Field>, members: seq<Member>,
    j: Json
  )
    requires Declaring(scope, naming, types, decls)
    requires EntriesFor(naming, types, ItemEntries(items), FieldsOf(members))
    ensures var models := Rules.FieldsOf(scope, MembersAst(members));
      && |models| == |items|
      && (j.JArr? && |j.elems| == |items| ==>
            forall i :: 0 <= i < |items| ==>
              (FieldHolds(decls, models[i], j, j.elems[i]) <==> AdmitsField(items[i], j, j.elems[i])))
    decreases j, 1
  {
    var models, entries := Rules.FieldsOf(scope, MembersAst(members)), ItemEntries(items);
    FieldsOfAst(scope, members);
    if j.JArr? && |j.elems| == |items| {
      forall i | 0 <= i < |items|
        ensures FieldHolds(decls, models[i], j, j.elems[i]) <==> AdmitsField(items[i], j, j.elems[i])
      {
        var out := FieldsOf(members)[i];
        assert entries[i] == Entry(ItemKey(i), items[i]);
        FieldModelIs(scope, naming, types, entries[i].key, items[i], out);
        FieldAgrees(scope, naming, types, decls, entries[i].key, items[i], out, models[i], j, j.elems[i]);
      }
    }
  }

  lemma InterfaceModel(scope: Rules.Scope, naming: Naming, types: Types, s: Sir, d: Decl)
    requires s.Interface? && DeclFor(naming, types, s, d) && Fine(scope, naming, s)
    ensures var model := Model(scope, d);
      && model.InterfaceDecl? && model.fields == [] && model.strategy == Schema.Tagged(s.tag)
      && |model.subTypes| == |s.subTypes| == |d.subTypes|
      && forall i :: 0 <= i < |s.subTypes| ==>
           && model.subTypes[i].Name() == s.subTypes[i].name
           && model.subTypes[i].fields == Rules.FieldsOf(scope, MembersAst(d.subTypes[i].members))
           && EntriesFor(naming, types, s.subTypes[i].structure, FieldsOf(d.subTypes[i].members))
  {
    var outs, models := d.subTypes, Model(scope, d).subTypes;
    assert models == Rules.SubTypeModels(scope, SubTypesAst(outs));
    assert Rules.FieldsOf(scope, []) == [];
    forall i | 0 <= i < |s.subTypes|
      ensures models[i] == Rules.SubTypeModel(scope, SubTypeAst(outs[i]))
      ensures models[i].Name() == s.subTypes[i].name
    {
      assert SubTypeFor(naming, types, s.subTypes[i], outs[i]);
      SubTypeLocalIff(scope, naming, types, s.subTypes[i], outs[i]);
    }
    hide EntriesFine, MembersAst, Rules.FieldsOf, FieldsOf;
  }

  lemma {:induction false} InterfaceAgrees(
    scope: Rules.Scope, naming: Naming, types: Types, decls: Declarations, s: Sir, d: Decl, j: Json
  )
    requires Declaring(scope, naming, types, decls)
    requires s.Interface? && DeclFor(naming, types, s, d) && Fine(scope, naming, s)
    ensures DeclConforms(decls, Model(scope, d), j) <==> Admits(s, j)
    decreases j, 2
  {
    InterfaceModel(scope, naming, types, s, d);
    var model := Model(scope, d);
    hide *;
    forall i | 0 <= i < |s.subTypes|
      ensures FieldsConform(decls, [] + model.subTypes[i].fields, j) <==> AdmitsEntries(s.subTypes[i].structure, j)
    {
      assert [] + model.subTypes[i].fields == model.subTypes[i].fields;
      EntriesAgree(scope, naming, types, decls, s.subTypes[i].structure, d.subTypes[i].members, j);
    }
    InterfaceChoice(decls, s, model, j);
  }

  lemma InterfaceChoice(decls: Declarations, s: Sir, model: Schema.Decl, j: Json)
    requires s.Interface? && model.InterfaceDecl? && model.fields == [] && model.strategy == Schema.Tagged(s.tag)
    requires |model.subTypes| == |s.subTypes|
    requires forall i :: 0 <= i < |s.subTypes| ==>
      && model.subTypes[i].Name() == s.subTypes[i].name
      && (FieldsConform(decls, [] + model.subTypes[i].fields, j) <==> AdmitsEntries(s.subTypes[i].structure, j))
    ensures DeclConforms(decls, model, j) <==> Admits(s, j)
  {
    hide FieldsConform, AdmitsEntries, HasTag;
  }

  /** The values of a declaration built from a structure are what has that structure. */
  lemma {:induction false} StructAgrees(
    scope: Rules.Scope, naming: Naming, types: Types, decls: Declarations, s: Sir, d: Decl, j: Json
  )
    requires Declaring(scope, naming, types, decls)
    requires Struct(s) && DeclFor(naming, types, s, d) && Fine(scope, naming, s)
    ensures DeclConforms(decls, Model(scope, d), j) <==> Admits(s, j)
    decreases j, 3
  {
    match s {
      case Object(entries) =>
        EntriesAgree(scope, naming, types, decls, entries, d.members, j);
        hide EntriesFor, FieldsConform, AdmitsEntries, Rules.FieldsOf, Declaring, Fine;
      case Tuple(items) =>
        ItemsAgree(scope, naming, types, decls, items, d.members, j);
        hide EntriesFor, FieldHolds, AdmitsField, Rules.FieldsOf, Declaring, Fine;
      case Interface(_, _) =>
        hide *;
        InterfaceAgrees(scope, naming, types, decls, s, d, j);
    }
  }

  // Derived files

  lemma CachedStruct(naming: Naming, types: Types, root: Path, s: Sir, d: Decl, t: Sir)
    requires Derived(naming, types, root, s, d) && t in types && Struct(Strip(s))
    ensures t in Structs(s) && Struct(t) && BackedBy(naming, types, t, ProvidedInside(root, d))
  {
    InnerSmaller(s, t);
    hide BackedBy, DeclFor, Named, Once, Apart, ProvidedInside;
  }

  lemma OnlyProvided(scope: Rules.Scope, root: Path, d: Decl, path: Path, inner: Decl)
    requires Apart(d) && (path, inner) in ProvidedInside(root, d)
    ensures Only(Registry.Flatten(root, Model(scope, d)), path, Model(scope, inner))
  {
    ApartOnce(root, d);
    ProvidedFlat(scope, root, d);
    var provided, decls := Provided(root, d), Registry.Flatten(root, Model(scope, d));
    assert (path, inner) in provided;
    hide Apart, Provided, ProvidedInside, Registry.Flatten, Model;
    assert Modelled(scope, (path, inner)) in Flat(decls);
    forall e | e in decls && e.0 == path
      ensures e == (path, Model(scope, inner))
    {
      assert e in Flat(decls);
      var x :| x in provided && e == Modelled(scope, x);
      assert x.0 == (path, inner).0;
    }
  }

  lemma DerivedDeclares(scope: Rules.Scope, naming: Naming, types: Types, root: Path, s: Sir, d: Decl)
    requires Struct(Strip(s)) && Derived(naming, types, root, s, d)
    requires Rules.DeclOk(scope, DeclAst(d)) && scope.fieldNaming.None?
    ensures Declaring(scope, naming, types, Registry.Flatten(root, Model(scope, d)))
    ensures Fine(scope, naming, Strip(s)) && DeclFor(naming, types, Strip(s), d)
  {
    var decls := Registry.Flatten(root, Model(scope, d));
    DeclForStrip(naming, types, s, d);
    assert Strip(s) in Structs(s);
    hide *;
    DerivedIsAccepted(scope, naming, types, root, s, d);
    Accepted(scope, root, d);
    forall t | t in types
      ensures DeclaredAs(scope, naming, types, decls, t)
    {
      CachedStruct(naming, types, root, s, d, t);
      var inner := BackedDecl(naming, types, t, ProvidedInside(root, d));
      OnlyProvided(scope, root, d, types[t], inner);
      IsDeclared(scope, naming, types, decls, t, inner);
    }
    AllDeclared(scope, naming, types, decls);
  }

  lemma BackedDecl(naming: Naming, types: Types, t: Sir, provided: set<Declared>) returns (d: Decl)
    requires t in types && BackedBy(naming, types, t, provided)
    ensures (types[t], d) in provided && DeclFor(naming, types, t, d)
  {
    hide DeclFor;
    d :| (types[t], d) in provided && DeclFor(naming, types, t, d);
  }

  lemma IsDeclared(scope: Rules.Scope, naming: Naming, types: Types, decls: Declarations, t: Sir, d: Decl)
    requires t in types && Struct(t) && Fine(scope, naming, t)
    requires DeclFor(naming, types, t, d) && Only(decls, types[t], Model(scope, d))
    ensures DeclaredAs(scope, naming, types, decls, t)
  {
    hide DeclFor, Fine, Only, Model;
  }

  lemma AllDeclared(scope: Rules.Scope, naming: Naming, types: Types, decls: Declarations)
    requires scope.fieldNaming.None? && forall t :: t in types ==> DeclaredAs(scope, naming, types, decls, t)
    ensures Declaring(scope, naming, types, decls)
  {
    hide DeclaredAs;
  }

  /** The values of an accepted derived declaration are exactly the documents that have the structure it is
      derived from. */
  lemma DerivedAdmits(scope: Rules.Scope, naming: Naming, types: Types, root: Path, s: Sir, d: Decl, j: Json)
    requires Struct(Strip(s)) && Derived(naming, types, root, s, d)
    requires Rules.DeclOk(scope, DeclAst(d)) && scope.fieldNaming.None?
    ensures DeclConforms(Registry.Flatten(root, Model(scope, d)), Model(scope, d), j) <==> Admits(Strip(s), j)
  {
    hide *;
    DerivedDeclares(scope, naming, types, root, s, d);
    StructAgrees(scope, naming, types, Registry.Flatten(root, Model(scope, d)), Strip(s), d, j);
  }

  // The document that the structure is inferred from

  /** What a structure leaves out of a document: nulls that are neither optional nor typed as anything, integers
      of 2^63 or more beside negative ones, and arrays of an interface, which are declared as one object. */
  predicate Plain(s: Sir, j: Json)
    decreases j, 1
  {
    match j
    case JNull => s.Any?
    case JNum(kind) => kind.Wide? ==> !s.I64?
    case JObj(_) => s.Object? && PlainEntries(s.fields, j)
    case JArr(elems) =>
      if s.Array? then forall i :: 0 <= i < |elems| ==> Plain(s.inner, elems[i])
      else
        s.Tuple? && |s.items| == |elems| &&
        forall i :: 0 <= i < |elems| ==>
          if elems[i].JNull? then s.items[i].optional else Plain(s.items[i].sir, elems[i])
    case _ => true
  }

  predicate PlainEntries(entries: seq<Entry>, j: Json)
    requires j.JObj?
    decreases j, 0
  {
    forall i, k :: 0 <= i < |entries| && 0 <= k < |j.entries| && j.entries[k].0 == entries[i].key ==>
      j.entries[k].1.JNull? || Plain(entries[i].field.sir, j.entries[k].1)
  }

  /** The same for a whole document, whose outermost arrays are not part of the declaration. */
  predicate PlainDocument(s: Sir, j: Json)
    decreases j
  {
    match s
    case Array(inner) => j.JArr? && forall i :: 0 <= i < |j.elems| ==> PlainDocument(inner, j.elems[i])
    case Interface(_, subs) =>
      j.JArr? && |j.elems| == |subs| &&
      forall i :: 0 <= i < |subs| ==> j.elems[i].JObj? && PlainEntries(subs[i].structure, j.elems[i])
    case _ => Plain(s, j)
  }

  /** The declaration of `s` describes the document: what is inside its outermost arrays are values of it. */
  ghost predicate Described(decls: Declarations, d: Schema.Decl, s: Sir, j: Json)
    decreases j
  {
    match s
    case Array(inner) => j.JArr? && forall i :: 0 <= i < |j.elems| ==> Described(decls, d, inner, j.elems[i])
    case Interface(_, _) => j.JArr? && forall i :: 0 <= i < |j.elems| ==> DeclConforms(decls, d, j.elems[i])
    case _ => DeclConforms(decls, d, j)
  }

  /** Each entry of the structure is one of the object. */
  predicate Located(entries: seq<Entry>, j: Json)
    requires j.JObj?
  {
    forall i :: 0 <= i < |entries| ==> LocatedAt(entries[i], j)
  }

  predicate LocatedAt(e: Entry, j: Json)
    requires j.JObj?
  {
    exists k :: 0 <= k < |j.entries| && Fitting.FitsEntry(e, j, k)
  }

  lemma TheEntry(e: Entry, j: Json, k: nat)
    requires Keyed(j) && j.JObj? && LocatedAt(e, j) && k < |j.entries| && j.entries[k].0 == e.key
    ensures (j.entries[k].1.JNull? ==> e.field.optional) && Fitting.Fits(e.field.sir, j.entries[k].1)
    ensures Keyed(j.entries[k].1)
  {
    var at :| 0 <= at < |j.entries| && Fitting.FitsEntry(e, j, at);
    assert at == k;
  }

  lemma {:induction false} EntriesPlain(entries: seq<Entry>, j: Json)
    requires Keyed(j) && j.JObj? && Located(entries, j)
    ensures AdmitsEntries(entries, j) <==> PlainEntries(entries, j)
    decreases j, 0
  {
    forall i | 0 <= i < |entries| ensures HasKey(j, entries[i].key) {
      assert LocatedAt(entries[i], j);
      var at :| 0 <= at < |j.entries| && Fitting.FitsEntry(entries[i], j, at);
      assert j.entries[at].0 == entries[i].key;
    }
    forall i, k | 0 <= i < |entries| && 0 <= k < |j.entries| && j.entries[k].0 == entries[i].key
      ensures AdmitsField(entries[i].field, j, j.entries[k].1) <==>
        j.entries[k].1.JNull? || Plain(entries[i].field.sir, j.entries[k].1)
    {
      assert LocatedAt(entries[i], j);
      TheEntry(entries[i], j, k);
      if !j.entries[k].1.JNull? {
        FitsPlain(entries[i].field.sir, j.entries[k].1);
      }
    }
    hide Keyed, Located, LocatedAt, HasKey, AdmitsField, Plain;
  }

  /** Of the documents that fit a structure, those that are plain have it. */
  lemma {:induction false} FitsPlain(s: Sir, j: Json)
    requires Fitting.Fits(s, j) && Keyed(j)
    ensures Admits(s, j) <==> Plain(s, j)
    decreases j, 1
  {
    match j {
      case JObj(entries) =>
        forall i | 0 <= i < |entries| ensures LocatedAt(s.fields[i], j) {
          assert Fitting.FitsEntry(s.fields[i], j, i);
        }
        EntriesPlain(s.fields, j);
      case JArr(elems) =>
        if s.Array? {
          forall i | 0 <= i < |elems| ensures Admits(s.inner, elems[i]) <==> Plain(s.inner, elems[i]) {
            FitsPlain(s.inner, elems[i]);
          }
        } else if s.Tuple? {
          forall i | 0 <= i < |elems| ensures Admits(s.items[i].sir, elems[i]) <==> Plain(s.items[i].sir, elems[i]) {
            FitsPlain(s.items[i].sir, elems[i]);
          }
        }
      case _ =>
    }
  }

  lemma ElementLocated(tag: string, sub: SubType, j: Json)
    requires Fitting.FitsSubType(tag, sub, j)
    ensures Located(sub.structure, j) && HasTag(j, tag, sub.name)
  {
    var p :| 0 <= p < |j.entries| && Fitting.TaggedAt(tag, sub, j, p);
    assert IsTag(j.entries[p], tag, sub.name);
    forall i | 0 <= i < |sub.structure| ensures LocatedAt(sub.structure[i], j) {
      assert Fitting.FitsEntry(sub.structure[i], j, Fitting.Shift(p, i));
    }
  }

  lemma OneTag(j: Json, tag: string, name: string, other: string)
    requires Keyed(j) && HasTag(j, tag, name) && HasTag(j, tag, other)
    ensures name == other
  {
    var k :| 0 <= k < |j.entries| && IsTag(j.entries[k], tag, name);
    var l :| 0 <= l < |j.entries| && IsTag(j.entries[l], tag, other);
    assert k == l;
  }

  lemma {:induction false} ElementPlain(s: Sir, j: Json, i: nat)
    requires s.Interface? && i < |s.subTypes| && Fitting.FitsSubType(s.tag, s.subTypes[i], j) && Keyed(j)
    requires forall k, l :: 0 <= k < l < |s.subTypes| ==> s.subTypes[k].name != s.subTypes[l].name
    ensures Admits(s, j) <==> j.JObj? && PlainEntries(s.subTypes[i].structure, j)
  {
    ElementLocated(s.tag, s.subTypes[i], j);
    hide Fitting.FitsSubType, Located;
    EntriesPlain(s.subTypes[i].structure, j);
    hide Keyed, AdmitsEntries, PlainEntries, HasTag;
    forall k | 0 <= k < |s.subTypes| && HasTag(j, s.tag, s.subTypes[k].name)
      ensures k == i
    {
      OneTag(j, s.tag, s.subTypes[k].name, s.subTypes[i].name);
    }
  }

  /** The values of the declaration are what has the structure. */
  ghost predicate SameValues(decls: Declarations, d: Schema.Decl, s: Sir) {
    forall part :: DeclConforms(decls, d, part) <==> Admits(s, part)
  }

  predicate SubTypesDiffer(s: Sir) {
    s.Interface? ==> forall k, l :: 0 <= k < l < |s.subTypes| ==> s.subTypes[k].name != s.subTypes[l].name
  }

  lemma FitsElements(s: Sir, j: Json)
    requires Fitting.Fits(s, j) && Keyed(j)
    ensures s.Array? || s.Interface? ==> j.JArr?
    ensures s.Array? ==> forall i :: 0 <= i < |j.elems| ==> Fitting.Fits(s.inner, j.elems[i]) && Keyed(j.elems[i])
    ensures s.Interface? ==> |j.elems| == |s.subTypes|
    ensures s.Interface? ==> forall i :: 0 <= i < |j.elems| ==>
      Fitting.FitsSubType(s.tag, s.subTypes[i], j.elems[i]) && Keyed(j.elems[i])
  {
  }

  lemma InterfacePlain(decls: Declarations, d: Schema.Decl, s: Sir, j: Json)
    requires s.Interface? && SameValues(decls, d, s) && SubTypesDiffer(s)
    requires j.JArr? && |j.elems| == |s.subTypes|
    requires forall i :: 0 <= i < |j.elems| ==>
      Fitting.FitsSubType(s.tag, s.subTypes[i], j.elems[i]) && Keyed(j.elems[i])
    ensures Described(decls, d, s, j) <==> PlainDocument(s, j)
  {
    hide DeclConforms, Admits, Keyed, PlainEntries, Fitting.FitsSubType;
    forall i | 0 <= i < |j.elems|
      ensures DeclConforms(decls, d, j.elems[i]) <==>
        j.elems[i].JObj? && PlainEntries(s.subTypes[i].structure, j.elems[i])
    {
      ElementPlain(s, j.elems[i], i);
    }
  }

  lemma StructPlain(decls: Declarations, d: Schema.Decl, s: Sir, j: Json)
    requires !s.Array? && !s.Interface? && SameValues(decls, d, s) && (Admits(s, j) <==> Plain(s, j))
    ensures Described(decls, d, s, j) <==> PlainDocument(s, j)
  {
    hide DeclConforms, Admits, Plain;
  }

  lemma ArrayPlain(decls: Declarations, d: Schema.Decl, s: Sir, j: Json)
    requires s.Array? && j.JArr? && forall i :: 0 <= i < |j.elems| ==>
      (Described(decls, d, s.inner, j.elems[i]) <==> PlainDocument(s.inner, j.elems[i]))
    ensures Described(decls, d, s, j) <==> PlainDocument(s, j)
  {
  }

  lemma {:induction false} DocumentPlain(decls: Declarations, d: Schema.Decl, s: Sir, j: Json)
    requires Fitting.Fits(s, j) && Keyed(j) && SameValues(decls, d, Strip(s)) && SubTypesDiffer(Strip(s))
    ensures Described(decls, d, s, j) <==> PlainDocument(s, j)
    decreases j
  {
    FitsElements(s, j);
    assert Strip(s) == if s.Array? then Strip(s.inner) else s;
    hide *;
    if s.Array? {
      forall i | 0 <= i < |j.elems|
        ensures Described(decls, d, s.inner, j.elems[i]) <==> PlainDocument(s.inner, j.elems[i])
      {
        DocumentPlain(decls, d, s.inner, j.elems[i]);
      }
      ArrayPlain(decls, d, s, j);
    } else if s.Interface? {
      InterfacePlain(decls, d, s, j);
    } else {
      FitsPlain(s, j);
      StructPlain(decls, d, s, j);
    }
  }

  /** A document that fits a structure is described by the accepted declaration derived from the structure, if and
      only if it is plain. */
  lemma DerivedDescribes(
    scope: Rules.Scope, naming: Naming, types: Types, root: Path, s: Sir, d: Decl, j: Json
  )
    requires Struct(Strip(s)) && Derived(naming, types, root, s, d)
    requires Rules.DeclOk(scope, DeclAst(d)) && scope.fieldNaming.None?
    requires Fitting.Fits(s, j) && Keyed(j)
    ensures Described(Registry.Flatten(root, Model(scope, d)), Model(scope, d), s, j) <==> PlainDocument(s, j)
  {
    var decls, model := Registry.Flatten(root, Model(scope, d)), Model(scope, d);
    DerivedDeclares(scope, naming, types, root, s, d);
    hide Derived, Declaring, Rules.DeclOk, Fitting.Fits, Keyed, DeclConforms, Admits, DeclFor, Described, PlainDocument,
      Model, Registry.Flatten;
    forall part
      ensures DeclConforms(decls, model, part) <==> Admits(Strip(s), part)
    {
      DerivedAdmits(scope, naming, types, root, s, d, part);
    }
    assert SubTypesDiffer(Strip(s));
    DocumentPlain(decls, model, s, j);
  }

  /** The same for the structure that is inferred from the document, where that fits. */
  lemma InferredDescribes(
    scope: Rules.Scope, naming: Naming, types: Types, root: Path, s: Sir, d: Decl, j: Json
  )
    requires SirOf(j) == Some(s) && Keyed(j) && Fitting.FirstsCover(j)
    requires Struct(Strip(s)) && Derived(naming, types, root, s, d)
    requires Rules.DeclOk(scope, DeclAst(d)) && scope.fieldNaming.None?
    ensures Described(Registry.Flatten(root, Model(scope, d)), Model(scope, d), s, j) <==> PlainDocument(s, j)
  {
    hide *;
    Fitting.InferredFits(j);
    DerivedDescribes(scope, naming, types, root, s, d, j);
  }

  // Documents that their own schema does not describe

  /** What is not plain under a key is not plain in the object. */
  lemma OneEntry(key: string, s: Sir, value: Json)
    requires Fitting.Fits(s, value) && Keyed(value) && !value.JNull? && !Plain(s, value)
    ensures var j, o := JObj([(key, value)]), Object([Entry(key, Field(false, s))]);
      Keyed(j) && Fitting.Fits(o, j) && !PlainDocument(o, j)
  {
    var j, o := JObj([(key, value)]), Object([Entry(key, Field(false, s))]);
    hide Scalar, Numeric;
    assert Fitting.FitsEntry(o.fields[0], j, 0);
    assert j.entries[0] == (key, value) && o.fields[0].field.sir == s;
    assert !PlainEntries(o.fields, j);
  }

  lemma InferredEntry(key: string, value: Json, s: Sir)
    requires SirOf(value) == Some(s) && s != Any
    ensures SirOf(JObj([(key, value)])) == Some(Object([Entry(key, Field(false, s))]))
  {
    var entries, fields := [(key, value)], [Entry(key, Field(false, s))];
    assert SirOf(entries[0].1) == Some(s);
    assert fields == seq(|entries|, i requires 0 <= i < |entries| && SirOf(entries[i].1).Some? =>
      EntryOf(entries[i].0, SirOf(entries[i].1).value));
  }

  lemma JoinPair(a: Sir, b: Sir)
    requires Scalar(a) && Scalar(b) && Refinable(a, b)
    ensures Agreeable([a, b]) && OneHash([a, b], Hash(a)) && JoinAll([a, b]) == Join(a, b)
  {
    assert [a, b][..1] == [a];
  }

  /** An array of two scalars that refine. */
  lemma InferredPair(a: Json, b: Json)
    requires SirOf(a).Some? && SirOf(b).Some? && Scalar(SirOf(a).value) && Scalar(SirOf(b).value)
    requires Refinable(SirOf(a).value, SirOf(b).value)
    ensures SirOf(JArr([a, b])) == Some(Array(Join(SirOf(a).value, SirOf(b).value)))
  {
    var elems, cs := [a, b], [SirOf(a).value, SirOf(b).value];
    JoinPair(cs[0], cs[1]);
    assert Describes(cs, elems);
    hide SirOf, Scalar, Refinable, Hash, Join, JoinAll, Agreeable, OneHash;
    ArrayOf(elems, cs);
  }

  lemma FitsPair(inner: Sir, a: Json, b: Json)
    requires Fitting.Fits(inner, a) && Fitting.Fits(inner, b) && Keyed(a) && Keyed(b)
    requires !Plain(inner, a) || !Plain(inner, b)
    ensures Fitting.Fits(Array(inner), JArr([a, b])) && Keyed(JArr([a, b])) && !Plain(Array(inner), JArr([a, b]))
  {
    assert [a, b][0] == a && [a, b][1] == b;
    hide Scalar, Numeric;
  }

  /** `{"a": [1, null]}`: the array is one of unsigned numbers, and null is not one. */
  lemma NullElement()
    ensures var j := JObj([("a", JArr([JNum(Unsigned), JNull]))]);
      var s := Object([Entry("a", Field(false, Array(U64)))]);
      SirOf(j) == Some(s) && Keyed(j) && Fitting.Fits(s, j) && !PlainDocument(s, j)
  {
    InferredPair(JNum(Unsigned), JNull);
    FitsPair(U64, JNum(Unsigned), JNull);
    var value := JArr([JNum(Unsigned), JNull]);
    hide *;
    assert Join(U64, Any) == U64 by { JoinAny(U64); }
    InferredEntry("a", value, Array(U64));
    OneEntry("a", Array(U64), value);
  }

  lemma JoinAny(s: Sir)
    requires s.U64?
    ensures Join(s, Any) == s
  {
  }

  /** `{"a": [18446744073709551615, -1]}`: the array is one of signed numbers, which the first is not. */
  lemma WideElement()
    ensures var j := JObj([("a", JArr([JNum(Wide), JNum(Signed)]))]);
      var s := Object([Entry("a", Field(false, Array(I64)))]);
      SirOf(j) == Some(s) && Keyed(j) && Fitting.Fits(s, j) && !PlainDocument(s, j)
  {
    InferredPair(JNum(Wide), JNum(Signed));
    FitsPair(I64, JNum(Wide), JNum(Signed));
    var value := JArr([JNum(Wide), JNum(Signed)]);
    assert Join(U64, I64) == I64;
    hide *;
    InferredEntry("a", value, Array(I64));
    OneEntry("a", Array(I64), value);
  }

  /** `{"a": [null, {}]}`: the array is a tuple, and all fields of a tuple are required. */
  lemma NullItem()
    ensures var j := JObj([("a", JArr([JNull, JObj([])]))]);
      var s := Object([Entry("a", Field(false, Tuple([Field(false, Any), Field(false, Object([]))])))]);
      SirOf(j) == Some(s) && Keyed(j) && Fitting.Fits(s, j) && !PlainDocument(s, j)
  {
    hide *;
    var elems, cs := [JNull, JObj([])], [Any, Object([])];
    var inner := Tuple([Field(false, Any), Field(false, Object([]))]);
    NullItemFits();
    NullItemParts(cs, elems);
    MixedPair(cs[1], elems);
    ArrayOf(elems, cs);
    InferredEntry("a", JArr(elems), inner);
    OneEntry("a", inner, JArr(elems));
  }

  lemma NullItemParts(cs: seq<Sir>, elems: seq<Json>)
    requires cs == [Any, Object([])] && elems == [JNull, JObj([])]
    ensures Describes(cs, elems)
  {
    ObjectOf([], []);
    assert SirOf(elems[0]) == Some(cs[0]);
    hide SirOf;
  }

  /** A null beside an object: they differ, and there is no tag. */
  lemma MixedPair(c: Sir, elems: seq<Json>)
    requires c.Object? && |elems| == 2
    ensures Agreeable([Any, c]) && ArraySir([Any, c], elems) == Tuple([Field(false, Any), Field(false, c)])
  {
    var cs := [Any, c];
    assert Hash(Any) != Hash(c);
    assert cs[0] == Any && cs[1] == c && !OneHash(cs, Hash(cs[0]));
    assert forall key :: !HasString(cs[0], key);
    hide Hash, HasString, Refinable, OneHash;
    assert PickTag(cs).None?;
    assert [Field(false, Any), Field(false, c)] == seq(|cs|, i requires 0 <= i < |cs| => Field(false, cs[i]));
  }

  lemma NullItemFits()
    ensures var elems, inner := [JNull, JObj([])], Tuple([Field(false, Any), Field(false, Object([]))]);
      Fitting.Fits(inner, JArr(elems)) && Keyed(JArr(elems)) && !Plain(inner, JArr(elems))
  {
    var elems := [JNull, JObj([])];
    assert Keyed(elems[0]) && Keyed(elems[1]) && elems[0].JNull?;
  }

  /** An array of an interface is never plain in a field: the field is declared as one object. */
  lemma NestedInterface(key: string, tag: string, subs: seq<SubType>, elems: seq<Json>)
    requires Fitting.Fits(Interface(tag, subs), JArr(elems)) && Keyed(JArr(elems))
    ensures var j, s := JObj([(key, JArr(elems))]), Object([Entry(key, Field(false, Interface(tag, subs)))]);
      Keyed(j) && Fitting.Fits(s, j) && !PlainDocument(s, j)
  {
    assert !Plain(Interface(tag, subs), JArr(elems));
    hide *;
    OneEntry(key, Interface(tag, subs), JArr(elems));
  }
}
