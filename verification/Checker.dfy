/** The schema checker of lib/trans/into_model.rs: loops over a syntax tree that record errors in a
    shared diagnostics object and only look at it after the loop. */
module Checker {
  import opened Wrappers
  import opened Schema
  import opened SchemaRules

  class Diagnostics {
    var errors: nat

    constructor ()
      ensures errors == 0
    {
      errors := 0;
    }

    predicate HasErrors()
      reads this
    {
      errors > 0
    }

    method Err()
      modifies this
      ensures errors == old(errors) + 1
    {
      errors := errors + 1;
    }
  }

  datatype Members = Members(fields: seq<Field>, decls: seq<Decl>, idents: set<string>, names: set<string>)

  // The conflict, tag and reserved macros

  method CheckConflict(diag: Diagnostics, existing: set<string>, key: string)
    returns (isNew: bool, existing': set<string>)
    modifies diag
    ensures isNew == (key !in existing)
    ensures existing' == existing + {key}
    ensures diag.errors == old(diag.errors) + if isNew then 0 else 1
  {
    isNew := key !in existing;
    existing' := existing + {key};
    if !isNew {
      diag.Err();
    }
  }

  method CheckField(diag: Diagnostics, f: Field, limits: Limits, idents: set<string>, names: set<string>)
    returns (accepted: bool, idents': set<string>, names': set<string>)
    modifies diag
    ensures accepted ==
      (f.ident !in idents && f.Name() !in names && Some(f.Name()) != limits.tag && f.Name() !in limits.reserved)
    ensures accepted ==> idents' == idents + {f.ident} && names' == names + {f.Name()}
    ensures diag.HasErrors() <==> old(diag.HasErrors()) || !accepted
  {
    names' := names;
    accepted, idents' := CheckConflict(diag, idents, f.ident);
    if !accepted {
      return;
    }
    accepted, names' := CheckConflict(diag, names, f.Name());
    if !accepted {
      return;
    }
    if limits.tag == Some(f.Name()) {
      diag.Err();
      accepted := false;
      return;
    }
    if f.Name() in limits.reserved {
      diag.Err();
      accepted := false;
    }
  }

  method IntoField(diag: Diagnostics, scope: Scope, f: AstField) returns (r: Option<Field>)
    modifies diag
    ensures r == if f.ty.Some? then Some(FieldModel(scope, f)) else None
    ensures diag.HasErrors() <==> old(diag.HasErrors()) || !(f.ty.Some? && f.endl)
  {
    if !f.endl {
      diag.Err();
    }
    if f.ty.None? {
      diag.Err();
      return None;
    }
    return Some(Field(
      f.required, SafeIdent(scope, f.name), f.name, f.ty.value, FieldAlias(scope, f.name, f.alias)));
  }

  // Members of types, tuples, interfaces and sub-types

  lemma MembersSnoc(scope: Scope, ms: seq<AstMember>, m: AstMember, limits: Limits)
    ensures FieldsOf(scope, ms + [m]) ==
      FieldsOf(scope, ms) + if m.FieldMember? && m.field.ty.Some? then [FieldModel(scope, m.field)] else []
    ensures DeclsOf(scope, ms + [m]) == DeclsOf(scope, ms) + InnerModel(scope, m)
    ensures InnerIdents(ms + [m]) == InnerIdents(ms) + if m.InnerDecl? then [m.decl.name] else []
    ensures MembersOk(scope, ms + [m], limits) <==>
      && MembersOk(scope, ms, limits)
      && MemberFine(scope, m)
      && (m.FieldMember? && m.field.ty.Some? ==>
            var f := FieldModel(scope, m.field);
            && FieldFits(f, limits)
            && f.ident !in Idents(FieldsOf(scope, ms))
            && f.Name() !in Names(FieldsOf(scope, ms)))
      && (m.InnerDecl? ==> m.decl.name !in InnerIdents(ms))
  {
    var all := ms + [m];
    assert all[..|all| - 1] == ms && all[|all| - 1] == m;
    assert MembersFine(scope, all) <==> MembersFine(scope, ms) && MemberFine(scope, m);
    if m.FieldMember? && m.field.ty.Some? {
      FieldsSnoc(FieldsOf(scope, ms), FieldModel(scope, m.field), limits);
    } else {
      assert FieldsOf(scope, all) == FieldsOf(scope, ms);
    }
    if m.InnerDecl? {
      DistinctSnoc(InnerIdents(ms), m.decl.name);
    } else {
      assert InnerIdents(all) == InnerIdents(ms);
    }
  }

  lemma FieldsSnoc(fs: seq<Field>, f: Field, limits: Limits)
    ensures FieldsOk(fs + [f], limits) <==>
      FieldsOk(fs, limits) && FieldFits(f, limits) && f.ident !in Idents(fs) && f.Name() !in Names(fs)
    ensures Idents(fs + [f]) == Idents(fs) + {f.ident}
    ensures Names(fs + [f]) == Names(fs) + {f.Name()}
  {
    var all := fs + [f];
    assert all[|fs|] == f;
    assert forall i :: 0 <= i < |fs| ==> all[i] == fs[i];
    if FieldsOk(all, limits) {
      assert f.ident !in Idents(fs);
      assert f.Name() !in Names(fs);
    }
    assert forall g :: g in all <==> g in fs || g == f;
  }

  lemma DistinctSnoc<T>(s: seq<T>, x: T)
    ensures Distinct(s + [x]) <==> Distinct(s) && x !in s
  {
    var all := s + [x];
    assert all[|s|] == x;
    assert forall i :: 0 <= i < |s| ==> all[i] == s[i];
  }

  method IntoMembers(diag: Diagnostics, scope: Scope, ms: seq<AstMember>, limits: Limits)
    returns (r: Option<Members>)
    modifies diag
    ensures r.Some? <==> !old(diag.HasErrors()) && MembersOk(scope, ms, limits)
    ensures diag.HasErrors() <==> r.None?
    ensures r.Some? ==>
      var fields := FieldsOf(scope, ms);
      r.value == Members(fields, DeclsOf(scope, ms), limits.idents + Idents(fields), limits.names + Names(fields))
    decreases ms, 1
  {
    var fields: seq<Field> := [];
    var decls: seq<Decl> := [];
    var idents, names := limits.idents, limits.names;
    var inner: set<string> := {};
    for k := 0 to |ms|
      invariant diag.HasErrors() <==> old(diag.HasErrors()) || !MembersOk(scope, ms[..k], limits)
      invariant !diag.HasErrors() ==>
        && fields == FieldsOf(scope, ms[..k])
        && decls == DeclsOf(scope, ms[..k])
        && idents == limits.idents + Idents(fields)
        && names == limits.names + Names(fields)
        && (forall n :: n in inner <==> n in InnerIdents(ms[..k]))
    {
      assert ms[..k + 1] == ms[..k] + [ms[k]];
      MembersSnoc(scope, ms[..k], ms[k], limits);
      match ms[k] {
        case FieldMember(f) =>
          var field := IntoField(diag, scope, f);
          if field.None? {
            continue;
          }
          FieldsSnoc(fields, field.value, limits);
          var accepted;
          accepted, idents, names := CheckField(diag, field.value, limits, idents, names);
          if !accepted {
            continue;
          }
          fields := fields + [field.value];
        case CodeMember(known) =>
          if !known {
            diag.Err();
          }
        case InnerDecl(d) =>
          assert d < ms[k];
          var decl := IntoDecl(diag, scope, d);
          if decl.None? {
            continue;
          }
          DistinctSnoc(InnerIdents(ms[..k]), d.name);
          var isNew;
          isNew, inner := CheckConflict(diag, inner, d.name);
          if !isNew {
            continue;
          }
          decls := decls + [decl.value];
      }
    }
    assert ms[..|ms|] == ms;
    if diag.HasErrors() {
      return None;
    }
    return Some(Members(fields, decls, idents, names));
  }

  // Interfaces

  /** Takes the arguments that mean something. */
  method PushTypeInfo(diag: Diagnostics, info: Selection) returns (r: Option<Strategy>, rest: Selection)
    modifies diag
    ensures r == Asked(info)
    ensures r.Some? ==> rest == info.Without(Meant(info))
    ensures diag.HasErrors() <==> old(diag.HasErrors()) || r.None?
  {
    var strategy := info.Value("strategy");
    rest := info.Without({"strategy"});
    if strategy.Some? {
      if !strategy.value.StringAst? {
        diag.Err();
        return None, rest;
      }
      if strategy.value.text == "tagged" {
        var tag := rest.Value("tag");
        rest := rest.Without({"tag"});
        if tag.Some? {
          if !tag.value.StringAst? {
            diag.Err();
            return None, rest;
          }
          return Some(Tagged(tag.value.text)), rest;
        }
      } else if strategy.value.text == "untagged" {
        return Some(Untagged), rest;
      } else {
        diag.Err();
        return None, rest;
      }
    }
    return Some(Tagged(DEFAULT_TAG)), rest;
  }

  /** Every word and every value that was not taken is an error. */
  method CheckSelection(diag: Diagnostics, rest: Selection)
    modifies diag
    ensures diag.HasErrors() <==> old(diag.HasErrors()) || !rest.Used()
  {
    for k := 0 to |rest.words|
      invariant diag.HasErrors() <==> old(diag.HasErrors()) || k > 0
    {
      diag.Err();
    }
    var keys := rest.values.Keys;
    while keys != {}
      invariant keys <= rest.values.Keys
      invariant diag.HasErrors() <==> old(diag.HasErrors()) || rest.words != [] || keys != rest.values.Keys
    {
      var key :| key in keys;
      keys := keys - {key};
      diag.Err();
    }
  }

  /** The strategy that an interface's attribute asks for, if every argument has a meaning. */
  method IntoStrategy(diag: Diagnostics, info: Option<Selection>) returns (r: Option<Strategy>)
    modifies diag
    ensures r == if old(diag.HasErrors()) && info.Some? then None else StrategyOf(info)
    ensures diag.HasErrors() <==> old(diag.HasErrors()) || r.None?
  {
    if info.None? {
      return Some(Tagged(DEFAULT_TAG));
    }
    var rest;
    r, rest := PushTypeInfo(diag, info.value);
    if r.None? {
      return;
    }
    assert rest.Used() <==> info.value.words == [] && info.value.values.Keys <= Meant(info.value) by {
      if rest.Used() {
        forall k | k in info.value.values.Keys ensures k in Meant(info.value) {
          assert k !in rest.values;
        }
      }
    }
    CheckSelection(diag, rest);
    if diag.HasErrors() {
      return None;
    }
  }

  /** Converts one sub-type; for untagged interfaces its required set joins `untagged`. */
  method IntoSubType(
    diag: Diagnostics, scope: Scope, s: AstSubType, base: Members, strategy: Strategy, reserved: set<string>,
    untagged: seq<set<string>>
  )
    returns (r: Option<SubType>, untagged': seq<set<string>>)
    requires base.idents == Idents(base.fields) && base.names == Names(base.fields)
    modifies diag
    ensures r.Some? <==>
      && !old(diag.HasErrors())
      && SubTypeOk(scope, s, base.fields, strategy, reserved)
      && (strategy.Untagged? ==> SubTypeModel(scope, s).Required() !in untagged)
    ensures diag.HasErrors() <==> r.None?
    ensures r.Some? ==>
      && r.value == SubTypeModel(scope, s)
      && untagged' == untagged + if strategy.Untagged? then [r.value.Required()] else []
    decreases s, 3
  {
    untagged' := untagged;
    var members := IntoMembers(
      diag, scope, s.members, Limits(base.idents, base.names, TagOf(strategy), reserved + s.reserved));
    if members.None? {
      return None, untagged';
    }
    if s.alias.Some? && !s.alias.value.StringAst? {
      diag.Err();
      return None, untagged';
    }
    var alias := if s.alias.Some? then Some(s.alias.value.text) else None;
    var sub := SubType(s.name, members.value.fields, members.value.decls, alias);
    if strategy.Untagged? {
      if sub.Required() in untagged {
        diag.Err();
        return None, untagged';
      }
      untagged' := untagged + [sub.Required()];
    }
    return Some(sub), untagged';
  }

  function RequiredSets(subs: seq<SubType>): seq<set<string>> {
    seq(|subs|, i requires 0 <= i < |subs| => subs[i].Required())
  }

  /** The fields of one sub-type against one required set. */
  method CheckOptionals(diag: Diagnostics, s: SubType, key: set<string>)
    modifies diag
    ensures diag.HasErrors() <==> old(diag.HasErrors()) || !OptionalsAvoid(s, key)
  {
    for k := 0 to |s.fields|
      invariant diag.HasErrors() <==>
        (old(diag.HasErrors()) || exists i :: 0 <= i < k && !s.fields[i].required && s.fields[i].Name() in key)
    {
      if !s.fields[k].required && s.fields[k].Name() in key {
        diag.Err();
      }
    }
  }

  method CheckUntagged(diag: Diagnostics, subs: seq<SubType>, untagged: seq<set<string>>)
    requires untagged == RequiredSets(subs)
    modifies diag
    ensures diag.HasErrors() <==> old(diag.HasErrors()) || !OptionalsApart(subs)
  {
    for i := 0 to |subs|
      invariant diag.HasErrors() <==> (old(diag.HasErrors()) || exists a :: 0 <= a < i && !Apart(subs, a, |subs|))
    {
      var required := subs[i].Required();
      for j := 0 to |untagged|
        invariant diag.HasErrors() <==>
          (old(diag.HasErrors()) || (exists a :: 0 <= a < i && !Apart(subs, a, |subs|)) || !Apart(subs, i, j))
      {
        if untagged[j] != required {
          CheckOptionals(diag, subs[i], untagged[j]);
        }
      }
    }
  }

  method CheckOrder(diag: Diagnostics, subs: seq<SubType>, untagged: seq<set<string>>)
    requires untagged == RequiredSets(subs)
    modifies diag
    ensures diag.HasErrors() <==> old(diag.HasErrors()) || !RequiredOrdered(subs)
  {
    for i := 0 to |untagged|
      invariant diag.HasErrors() <==> (old(diag.HasErrors()) || exists a :: 0 <= a < i && Shadows(subs, a, |subs|))
    {
      for j := i + 1 to |untagged|
        invariant diag.HasErrors() <==>
          (old(diag.HasErrors()) || (exists a :: 0 <= a < i && Shadows(subs, a, |subs|)) || Shadows(subs, i, j))
      {
        if untagged[i] <= untagged[j] {
          diag.Err();
        }
      }
    }
  }

  /** What the loop over the sub-types has verified when it has processed `subs`. */
  predicate SubTypesOk(
    scope: Scope, subs: seq<AstSubType>, base: seq<Field>, strategy: Strategy, reserved: set<string>
  ) {
    && (forall i :: 0 <= i < |subs| ==> SubTypeOk(scope, subs[i], base, strategy, reserved))
    && SubTypeNamesOk(SubTypeModels(scope, subs))
    && (strategy.Untagged? ==> RequiredDistinct(SubTypeModels(scope, subs)))
  }

  function SubIdents(subs: seq<SubType>): set<string> { set s <- subs :: s.ident }

  function SubNames(subs: seq<SubType>): set<string> { set s <- subs :: s.Name() }

  lemma SubTypesSnoc(
    scope: Scope, subs: seq<AstSubType>, s: AstSubType, base: seq<Field>, strategy: Strategy, reserved: set<string>
  )
    ensures var models, model := SubTypeModels(scope, subs), SubTypeModel(scope, s);
      && SubTypeModels(scope, subs + [s]) == models + [model]
      && (SubTypesOk(scope, subs + [s], base, strategy, reserved) <==>
            && SubTypesOk(scope, subs, base, strategy, reserved)
            && SubTypeOk(scope, s, base, strategy, reserved)
            && model.ident !in SubIdents(models)
            && model.Name() !in SubNames(models)
            && (strategy.Untagged? ==> model.Required() !in RequiredSets(models)))
  {
    var all := subs + [s];
    assert all[|subs|] == s && forall i :: 0 <= i < |subs| ==> all[i] == subs[i];
    var models, model := SubTypeModels(scope, subs), SubTypeModel(scope, s);
    assert SubTypeModels(scope, all) == models + [model];
    NamesSnoc(models, model);
    RequiredSnoc(models, model);
  }

  lemma NamesSnoc(models: seq<SubType>, model: SubType)
    ensures SubTypeNamesOk(models + [model]) <==>
      SubTypeNamesOk(models) && model.ident !in SubIdents(models) && model.Name() !in SubNames(models)
    ensures SubIdents(models + [model]) == SubIdents(models) + {model.ident}
    ensures SubNames(models + [model]) == SubNames(models) + {model.Name()}
  {
    var all := models + [model];
    assert all[|models|] == model && forall i :: 0 <= i < |models| ==> all[i] == models[i];
    assert forall s :: s in all <==> s in models || s == model;
  }

  lemma RequiredSnoc(models: seq<SubType>, model: SubType)
    ensures RequiredDistinct(models + [model]) <==>
      RequiredDistinct(models) && model.Required() !in RequiredSets(models)
    ensures RequiredSets(models + [model]) == RequiredSets(models) + [model.Required()]
  {
    var all := models + [model];
    assert all[|models|] == model && forall i :: 0 <= i < |models| ==> all[i] == models[i];
    assert forall i :: 0 <= i < |models| ==> RequiredSets(models)[i] == models[i].Required();
  }

  method IntoSubTypes(
    diag: Diagnostics, scope: Scope, asts: seq<AstSubType>, base: Members, strategy: Strategy, reserved: set<string>
  )
    returns (subs: seq<SubType>, untagged: seq<set<string>>)
    requires base.idents == Idents(base.fields) && base.names == Names(base.fields)
    requires !diag.HasErrors()
    modifies diag
    ensures diag.HasErrors() <==> !SubTypesOk(scope, asts, base.fields, strategy, reserved)
    ensures !diag.HasErrors() ==> subs == SubTypeModels(scope, asts)
    ensures !diag.HasErrors() && strategy.Untagged? ==> untagged == RequiredSets(subs)
    decreases asts, 6
  {
    hide SubTypeOk, SubTypeModel;
    var idents: set<string>, names: set<string> := {}, {};
    subs, untagged := [], [];
    for k := 0 to |asts|
      invariant diag.HasErrors() <==> !SubTypesOk(scope, asts[..k], base.fields, strategy, reserved)
      invariant !diag.HasErrors() ==>
        && subs == SubTypeModels(scope, asts[..k])
        && idents == SubIdents(subs)
        && names == SubNames(subs)
        && untagged == if strategy.Untagged? then RequiredSets(subs) else []
    {
      assert asts[..k + 1] == asts[..k] + [asts[k]];
      SubTypesSnoc(scope, asts[..k], asts[k], base.fields, strategy, reserved);
      NamesSnoc(subs, SubTypeModel(scope, asts[k]));
      RequiredSnoc(subs, SubTypeModel(scope, asts[k]));
      var sub;
      sub, untagged := IntoSubType(diag, scope, asts[k], base, strategy, reserved, untagged);
      if sub.None? {
        continue;
      }
      var isNew;
      isNew, idents := CheckConflict(diag, idents, sub.value.ident);
      if !isNew {
        continue;
      }
      isNew, names := CheckConflict(diag, names, sub.value.Name());
      if !isNew {
        continue;
      }
      subs := subs + [sub.value];
    }
    assert asts[..|asts|] == asts;
  }

  method IntoInterface(diag: Diagnostics, scope: Scope, d: AstDecl) returns (r: Option<Decl>)
    requires d.InterfaceAst?
    modifies diag
    ensures r.Some? <==> !old(diag.HasErrors()) && DeclOk(scope, d)
    ensures diag.HasErrors() <==> r.None?
    ensures r.Some? ==> r.value == DeclModel(scope, d)
    decreases d, 7
  {
    var strategy := IntoStrategy(diag, d.info);
    if strategy.None? {
      return None;
    }
    var members := IntoMembers(diag, scope, d.members, Limits({}, {}, TagOf(strategy.value), {}));
    if members.None? {
      return None;
    }
    var base := members.value;
    var subs, untagged := IntoSubTypes(diag, scope, d.subTypes, base, strategy.value, d.reserved);
    if diag.HasErrors() {
      return None;
    }
    if strategy.value.Untagged? {
      CheckUntagged(diag, subs, untagged);
      if diag.HasErrors() {
        return None;
      }
      CheckOrder(diag, subs, untagged);
      if diag.HasErrors() {
        return None;
      }
    }
    return Some(InterfaceDecl(d.name, base.fields, base.decls, subs, strategy.value));
  }

  // Enums

  /** The variant loop; `state` is the default generator. An explicit number becomes the next
      default itself, not its successor. */
  method IntoEnum(diag: Diagnostics, d: AstDecl) returns (r: Option<Decl>)
    requires d.EnumAst?
    modifies diag
    ensures r.Some? <==> !old(diag.HasErrors()) && IsEnumType(d.ty) && VariantsOk(d.ty, d.variants)
    ensures diag.HasErrors() <==> r.None?
    ensures r.Some? ==> r.value == EnumDecl(d.name, VariantModels(d.ty, d.variants))
  {
    if !IsEnumType(d.ty) {
      diag.Err();
      return None;
    }
    var vs := d.variants;
    var out: seq<Variant> := [];
    var idents: set<string> := {};
    var values: set<VariantValue> := {};
    var state := 0;
    for k := 0 to |vs|
      invariant state == NextDefault(vs[..k])
      invariant diag.HasErrors() <==> (old(diag.HasErrors()) || !VariantsOk(d.ty, vs[..k]))
      invariant !diag.HasErrors() ==>
        && out == VariantModels(d.ty, vs[..k])
        && (forall n :: n in idents <==> n in VariantNames(vs[..k]))
        && (forall v :: v in values <==> Some(v) in VariantValues(d.ty, vs[..k]))
    {
      assert vs[..k + 1] == vs[..k] + [vs[k]];
      VariantsSnoc(d.ty, vs[..k], vs[k]);
      VariantsOkSnoc(d.ty, vs[..k], vs[k]);
      var value := VariantValueOf(d.ty, vs[k], state);
      state := StateAfter(vs[k], state);
      if value.None? {
        diag.Err();
        continue;
      }
      var isNew;
      isNew, idents := CheckConflict(diag, idents, vs[k].name);
      if !isNew {
        continue;
      }
      if value.value in values {
        diag.Err();
        continue;
      }
      values := values + {value.value};
      out := out + [Variant(vs[k].name, value.value)];
    }
    assert vs[..|vs|] == vs;
    if diag.HasErrors() {
      return None;
    }
    return Some(EnumDecl(d.name, out));
  }

  lemma VariantsSnoc(ty: RpType, vs: seq<AstVariant>, v: AstVariant)
    ensures NextDefault(vs + [v]) == StateAfter(v, NextDefault(vs))
    ensures var value := VariantValueOf(ty, v, NextDefault(vs));
      && VariantValues(ty, vs + [v]) == VariantValues(ty, vs) + [value]
      && (value.Some? ==>
            VariantModels(ty, vs + [v]) == VariantModels(ty, vs) + [Variant(v.name, value.value)])
  {
    var all := vs + [v];
    assert all[..|vs|] == vs && all[|vs|] == v;
  }

  lemma VariantsOkSnoc(ty: RpType, vs: seq<AstVariant>, v: AstVariant)
    ensures VariantNames(vs + [v]) == VariantNames(vs) + [v.name]
    ensures var value := VariantValueOf(ty, v, NextDefault(vs));
      VariantsOk(ty, vs + [v]) <==>
        VariantsOk(ty, vs) && value.Some? && v.name !in VariantNames(vs) && value !in VariantValues(ty, vs)
  {
    VariantsSnoc(ty, vs, v);
    var value := VariantValueOf(ty, v, NextDefault(vs));
    assert VariantNames(vs + [v]) == VariantNames(vs) + [v.name];
    DistinctSnoc(VariantNames(vs), v.name);
    DistinctSnoc(VariantValues(ty, vs), value);
  }

  /** A variant without a value right after a numbered one receives the same number again, so no enum
      with such a pair is accepted. */
  lemma RepeatedDefault(
    kind: NumberKind, before: seq<AstVariant>, numbered: AstVariant, next: AstVariant, after: seq<AstVariant>
  )
    requires numbered.argument.Some? && numbered.argument.value.NumberAst? && numbered.argument.value.decimal == 0
    requires next.argument.None?
    ensures !VariantsOk(RpType.Number(kind), before + [numbered] + [next] + after)
    decreases after
  {
    var ty, pair := RpType.Number(kind), before + [numbered];
    if after == [] {
      VariantsSnoc(ty, before, numbered);
      VariantsOkSnoc(ty, before, numbered);
      VariantsOkSnoc(ty, pair, next);
      assert pair + [next] + after == pair + [next];
    } else {
      var init, last := after[..|after| - 1], after[|after| - 1];
      RepeatedDefault(kind, before, numbered, next, init);
      VariantsOkSnoc(ty, pair + [next] + init, last);
      assert pair + [next] + after == (pair + [next] + init) + [last];
    }
  }

  // Declarations

  method IntoDecl(diag: Diagnostics, scope: Scope, d: AstDecl) returns (r: Option<Decl>)
    modifies diag
    ensures r.Some? <==> !old(diag.HasErrors()) && DeclOk(scope, d)
    ensures diag.HasErrors() <==> r.None?
    ensures r.Some? ==> r.value == DeclModel(scope, d)
    decreases d, 8
  {
    match d {
      case TypeAst(name, reserved, ms) =>
        var members := IntoMembers(diag, scope, ms, Limits({}, {}, None, reserved));
        if members.None? {
          return None;
        }
        return Some(TypeDecl(name, members.value.fields, members.value.decls));
      case TupleAst(name, ms) =>
        var members := IntoMembers(diag, scope, ms, Limits({}, {}, None, {}));
        if members.None? {
          return None;
        }
        return Some(TupleDecl(name, members.value.fields, members.value.decls));
      case InterfaceAst(_, _, _, _, _) =>
        r := IntoInterface(diag, scope, d);
      case EnumAst(_, _, _) =>
        r := IntoEnum(diag, d);
    }
  }
}
