/** When the emitted module is legal JavaScript, and the round-trip theorem for whole modules. */
module JsLoading {
  import opened Wrappers
  import Schema
  import IdlSyntax
  import opened Joined
  import opened Js
  import opened JsBackend
  import opened JsRoundTrip

  // Conditions on the schema

  /** Type identifiers as the schema lexer reads them. */
  predicate TypeIdent(s: string) {
    s != "" && 'A' <= s[0] <= 'Z' && forall i :: 0 <= i < |s| ==> IdlSyntax.IsTypeChar(s[i])
  }

  predicate ClassPath(package: Path, c: Path) {
    package < c && forall i :: 0 <= i < |c| - |package| ==> TypeIdent(c[|package|..][i])
  }

  /** Every class is named by type identifiers below the package. */
  predicate Lexical(package: Path, env: Env) {
    forall c :: c in PathsWithout(env, {}) ==> ClassPath(package, c)
  }

  predicate Collection(ty: Type) { ty.Array? || ty.Map? }

  /** No map has collections both as keys and as values. */
  predicate TypeLoads(ty: Type) {
    match ty
    case Array(argument) => TypeLoads(argument)
    case Map(key, value) => !(Collection(key) && Collection(value)) && TypeLoads(key) && TypeLoads(value)
    case _ => true
  }

  /** A required field of a collection type binds `o0` in the scope of `decode` itself. */
  predicate Collecting(f: Schema.Field) { f.required && Collection(Translate(f.ty)) }

  predicate FieldLoads(f: Schema.Field) {
    BindingName(f.Safe()) && BindingName(LocalOf(f)) && TypeLoads(Translate(f.ty))
  }

  predicate FieldsLoad(fields: seq<Schema.Field>) {
    && (forall i :: 0 <= i < |fields| ==> FieldLoads(fields[i]))
    && (forall i, j :: 0 <= i < j < |fields| ==> !(Collecting(fields[i]) && Collecting(fields[j])))
  }

  predicate DeclLoads(d: Schema.Decl) {
    match d
    case TypeDecl(_, fields, _) => FieldsLoad(fields)
    case TupleDecl(_, fields, _) => FieldsLoad(fields)
    case EnumDecl(_, _) => true
    case InterfaceDecl(_, fields, _, subs, strategy) =>
      forall i :: 0 <= i < |subs| ==>
        FieldsLoad(fields + subs[i].fields) && (strategy.Untagged? ==> subs[i].Required() != {})
  }

  /** Field names can be bound, no class has two required collections, no map has collections on both
      sides, and untagged sub-types have something to test for. */
  predicate Loadable(env: Env) { forall path :: path in env ==> DeclLoads(env[path]) }

  // Reserved words

  lemma ReservedWords(w: string)
    requires Reserved(w)
    ensures |w| >= 2 && 'a' <= w[0] <= 'z' && 'a' <= w[1] <= 'z'
    ensures w != "name" && w != "value"
  {
  }

  lemma FixedNames()
    ensures BindingName("name") && BindingName("value") && BindingName("o0")
  {
    if Reserved("name") {
      ReservedWords("name");
    }
    if Reserved("value") {
      ReservedWords("value");
    }
    if Reserved("o0") {
      ReservedWords("o0");
    }
  }

  // Names of classes

  lemma {:induction false} JoinedIdents(parts: seq<string>)
    requires parts != [] && forall i :: 0 <= i < |parts| ==> TypeIdent(parts[i])
    ensures var s := Join(parts); IdentifierText(s) && 'A' <= s[0] <= 'Z'
  {
    var n := |parts| - 1;
    if n > 0 {
      JoinedIdents(parts[..n]);
      var s, prefix, last := Join(parts), Join(parts[..n]), parts[n];
      forall i | 0 <= i < |s|
        ensures ContinuesIdentifier(s[i])
      {
        if i < |prefix| {
          assert s[i] == prefix[i];
        } else if i > |prefix| {
          assert s[i] == last[i - |prefix| - 1];
        }
      }
    }
  }

  lemma ClassBinding(p: Program, c: Path)
    requires ClassPath(p.package, c)
    ensures BindingName(p.Binding(c))
  {
    JoinedIdents(c[|p.package|..]);
    if Reserved(p.Binding(c)) {
      ReservedWords(p.Binding(c));
    }
  }

  lemma BindingsApart(p: Program, c: Path, d: Path)
    requires ClassPath(p.package, c) && ClassPath(p.package, d) && c != d
    ensures p.Binding(c) != p.Binding(d)
  {
    var n := |p.package|;
    assert c == p.package + c[n..] && d == p.package + d[n..];
    if p.Binding(c) == p.Binding(d) {
      JoinInjective(c[n..], d[n..]);
    }
  }

  /** A global is shadowed exactly by a declaration of that name at the top of the package. */
  lemma ShadowedIff(p: Program, env: Env, g: string)
    requires Lexical(p.package, env) && p.classes.Keys == PathsWithout(env, {})
    ensures g in p.Hosted().shadowed <==> g in GLOBALS && p.package + [g] in env
  {
    var top := p.package + [g];
    assert top[|p.package|..] == [g];
    if g in GLOBALS && top in env {
      assert top in DeclPaths(top, env[top]);
      assert top in p.classes && p.Binding(top) == g;
    }
    if g in p.Hosted().shadowed {
      var c :| c in p.classes && p.Binding(c) == g;
      SingleBinding(p, c, g);
      var path :| path in env && c in DeclPaths(path, env[path]);
      assert path in DeclPaths(path, env[path]);
      assert path in PathsWithout(env, {});
    }
  }

  /** A binding without an underscore belongs to a class right below the package. */
  lemma SingleBinding(p: Program, c: Path, g: string)
    requires p.package < c && p.Binding(c) == g && '_' !in g
    ensures c == p.package + [g]
  {
    var rest := c[|p.package|..];
    if |rest| > 1 {
      JoinMarked(rest);
    }
    assert rest == [g] && c == p.package + rest;
  }

  // Names inside a decoder

  /** What is bound by the decoding blocks of fields with different locals. */
  lemma {:induction false} LetsElements(blocks: seq<DecBlock>, x: string)
    ensures x in Lets(blocks) <==>
      || (exists i :: 0 <= i < |blocks| && blocks[i].local == x)
      || (x == "o0" && exists i :: 0 <= i < |blocks| && Clashes(blocks[i]))
  {
    if blocks != [] {
      var n := |blocks| - 1;
      LetsElements(blocks[..n], x);
      assert blocks == blocks[..n] + [blocks[n]];
    }
  }

  predicate Clashes(b: DecBlock) { b.required && Collects(b.code) }

  lemma BindingsSnoc(names: seq<string>, x: string)
    ensures Bindings(names + [x]) <==> Bindings(names) && BindingName(x) && x !in names
  {
    hide BindingName;
    var all := names + [x];
    assert all[|names|] == x && forall i :: 0 <= i < |names| ==> all[i] == names[i];
    if Bindings(all) {
      forall i | 0 <= i < |names|
        ensures BindingName(names[i]) && names[i] != x
      {
        assert all[i] == names[i];
      }
    }
  }

  predicate LetsFine(blocks: seq<DecBlock>) {
    && (forall i :: 0 <= i < |blocks| ==> BindingName(blocks[i].local))
    && (forall i, j :: 0 <= i < j < |blocks| ==> !(Clashes(blocks[i]) && Clashes(blocks[j])))
  }

  lemma LetsFineSnoc(blocks: seq<DecBlock>)
    requires blocks != []
    ensures var n := |blocks| - 1;
      LetsFine(blocks) <==>
        && LetsFine(blocks[..n])
        && BindingName(blocks[n].local)
        && (Clashes(blocks[n]) ==> forall i :: 0 <= i < n ==> !Clashes(blocks[..n][i]))
  {
    hide BindingName, Clashes;
    var n := |blocks| - 1;
    var prefix := blocks[..n];
    assert blocks == prefix + [blocks[n]];
    if LetsFine(blocks) && Clashes(blocks[n]) {
      forall i | 0 <= i < n
        ensures !Clashes(prefix[i])
      {
        assert prefix[i] == blocks[i];
      }
    }
    if LetsFine(prefix) && BindingName(blocks[n].local) {
      if Clashes(blocks[n]) ==> forall i :: 0 <= i < n ==> !Clashes(prefix[i]) {
        forall i, j | 0 <= i < j < |blocks|
          ensures !(Clashes(blocks[i]) && Clashes(blocks[j]))
        {
          assert prefix[i] == blocks[i];
          if j < n {
            assert prefix[j] == blocks[j];
          }
        }
      }
    }
  }

  /** Legal locals, and at most one `o0`. */
  lemma {:induction false} LetsBind(blocks: seq<DecBlock>)
    requires forall i, j :: 0 <= i < j < |blocks| ==> blocks[i].local != blocks[j].local
    requires forall i :: 0 <= i < |blocks| ==> blocks[i].local != "o0"
    ensures Bindings(Lets(blocks)) <==> LetsFine(blocks)
  {
    if blocks != [] {
      var n := |blocks| - 1;
      var prefix, last := blocks[..n], blocks[n];
      LetsBind(prefix);
      LetsFineSnoc(blocks);
      LetsElements(prefix, last.local);
      LetsElements(prefix, "o0");
      FixedNames();
      var outer := Lets(prefix) + [last.local];
      assert Lets(blocks) == outer + if Clashes(last) then ["o0"] else [];
      hide Bindings, LetsFine, BindingName, Lets;
      BindingsSnoc(Lets(prefix), last.local);
      BindingsSnoc(outer, "o0");
      forall i | 0 <= i < n
        ensures prefix[i].local != last.local && prefix[i].local != "o0"
      {
        assert prefix[i] == blocks[i];
      }
      if Clashes(last) {
        assert Lets(blocks) == outer + ["o0"];
      } else {
        assert Lets(blocks) == outer;
      }
    }
  }

  lemma {:induction false} CodeLoadsIff(ty: Type)
    ensures CodeLoads(Decode(ty)) <==> TypeLoads(ty)
    ensures Collects(Decode(ty)) <==> Collection(ty)
  {
    match ty {
      case Array(argument) => CodeLoadsIff(argument);
      case Map(key, value) =>
        CodeLoadsIff(key);
        CodeLoadsIff(value);
      case _ =>
    }
  }

  // Classes

  lemma BlockLoads(r: Record, i: nat)
    requires i < |r.fields|
    ensures var b := BlocksOf(r)[i];
      && b.local == LocalOf(r.fields[i]) && b.local != "o0"
      && (CodeLoads(b.code) <==> TypeLoads(Translate(r.fields[i].ty)))
      && (Clashes(b) <==> Collecting(r.fields[i]))
  {
    CodeLoadsIff(Translate(r.fields[i].ty));
    assert LocalOf(r.fields[i])[0] == 'v';
  }

  lemma RecordLoads(cls: Path, r: Record)
    requires RecordOk(r)
    ensures ClassLoads(RecordClass(cls, r)) <==> FieldsLoad(r.fields)
  {
    var blocks, params, n := BlocksOf(r), SafeIdents(r.fields), |r.fields|;
    LocalsDistinct(r);
    forall i | 0 <= i < n
      ensures blocks[i].local == LocalOf(r.fields[i]) && blocks[i].local != "o0"
      ensures CodeLoads(blocks[i].code) <==> TypeLoads(Translate(r.fields[i].ty))
      ensures Clashes(blocks[i]) <==> Collecting(r.fields[i])
    {
      BlockLoads(r, i);
    }
    ParamsBind(r);
    hide *;
    LetsBind(blocks);
    RecordParts(cls, r);
    BlocksFine(r, blocks);
  }

  lemma ParamsBind(r: Record)
    requires RecordOk(r)
    ensures Bindings(SafeIdents(r.fields)) <==> forall i :: 0 <= i < |r.fields| ==> BindingName(r.fields[i].Safe())
  {
    hide BindingName;
    var params := SafeIdents(r.fields);
    assert forall i :: 0 <= i < |r.fields| ==> params[i] == r.fields[i].Safe();
  }

  lemma RecordParts(cls: Path, r: Record)
    ensures ClassLoads(RecordClass(cls, r)) <==>
      && Bindings(SafeIdents(r.fields))
      && Bindings(Lets(BlocksOf(r)))
      && forall i :: 0 <= i < |BlocksOf(r)| ==> CodeLoads(BlocksOf(r)[i].code)
  {
    hide Bindings, Lets, CodeLoads, BlocksOf;
  }

  /** The conditions on fields, one by one, are those on the blocks and the parameters. */
  lemma BlocksFine(r: Record, blocks: seq<DecBlock>)
    requires |blocks| == |r.fields|
    requires forall i :: 0 <= i < |blocks| ==>
      && blocks[i].local == LocalOf(r.fields[i])
      && (CodeLoads(blocks[i].code) <==> TypeLoads(Translate(r.fields[i].ty)))
      && (Clashes(blocks[i]) <==> Collecting(r.fields[i]))
    ensures FieldsLoad(r.fields) <==>
      && (forall i :: 0 <= i < |r.fields| ==> BindingName(r.fields[i].Safe()))
      && LetsFine(blocks)
      && forall i :: 0 <= i < |blocks| ==> CodeLoads(blocks[i].code)
  {
    hide BindingName, TypeLoads, CodeLoads, Clashes, Collecting, LocalOf;
    if FieldsLoad(r.fields) {
      forall i | 0 <= i < |blocks|
        ensures BindingName(blocks[i].local) && CodeLoads(blocks[i].code)
      {
        assert FieldLoads(r.fields[i]);
      }
    }
  }

  lemma EnumLoads(path: Path, vs: seq<Schema.Variant>)
    ensures ClassLoads(EnumClass(path, vs))
  {
    FixedNames();
    assert |"name"| != |"value"|;
  }

  lemma RequiredEmpty(s: Schema.SubType)
    ensures RequiredNames(s.fields) == [] <==> s.Required() == {}
  {
    RequiredNamesOf(s.fields);
    assert forall k :: k in s.Required() <==> k in RequiredNames(s.fields);
    if RequiredNames(s.fields) != [] {
      assert RequiredNames(s.fields)[0] in s.Required();
    }
    if s.Required() != {} {
      var k :| k in s.Required();
      assert k in RequiredNames(s.fields);
    }
  }

  lemma ChoicesLoad(path: Path, subs: seq<Schema.SubType>)
    ensures ClassLoads(InterfaceClass(path, subs, Schema.Strategy.Untagged)) <==>
      forall i :: 0 <= i < |subs| ==> subs[i].Required() != {}
  {
    var choices := Choices(path, subs);
    forall i | 0 <= i < |subs|
      ensures choices[i].0 == [] <==> subs[i].Required() == {}
    {
      RequiredEmpty(subs[i]);
    }
  }

  /** The classes of a declaration are legal exactly if the declaration meets its conditions. */
  lemma DeclLoadsIff(classes: map<Path, Class>, path: Path, d: Schema.Decl)
    requires EmittedDecl(classes, path, d) && DeclSafe(d) && DeclPaths(path, d) <= classes.Keys
    ensures (forall c :: c in DeclPaths(path, d) ==> ClassLoads(classes[c])) <==> DeclLoads(d)
  {
    match d {
      case TypeDecl(_, fields, _) => RecordLoads(path, Record(fields, Plain));
      case TupleDecl(_, fields, _) => RecordLoads(path, Record(fields, Tuple));
      case EnumDecl(_, vs) => EnumLoads(path, vs);
      case InterfaceDecl(_, fields, _, subs, strategy) =>
        forall i | 0 <= i < |subs|
          ensures SubPath(path, subs[i]) in DeclPaths(path, d)
          ensures ClassLoads(classes[SubPath(path, subs[i])]) <==> FieldsLoad(fields + subs[i].fields)
        {
          RecordLoads(SubPath(path, subs[i]), SubRecord(fields, strategy, subs[i]));
        }
        assert path in DeclPaths(path, d);
        if strategy.Untagged? {
          ChoicesLoad(path, subs);
        }
        hide ClassLoads, FieldsLoad, EmittedSubTypes;
        InterfaceLoads(classes, path, d);
    }
  }

  lemma InterfaceLoads(classes: map<Path, Class>, path: Path, d: Schema.Decl)
    requires d.InterfaceDecl? && EmittedDecl(classes, path, d) && DeclPaths(path, d) <= classes.Keys
    requires forall i :: 0 <= i < |d.subTypes| ==>
      (ClassLoads(classes[SubPath(path, d.subTypes[i])]) <==> FieldsLoad(d.fields + d.subTypes[i].fields))
    requires ClassLoads(classes[path]) <==>
      (d.strategy.Untagged? ==> forall i :: 0 <= i < |d.subTypes| ==> d.subTypes[i].Required() != {})
    ensures (forall c :: c in DeclPaths(path, d) ==> ClassLoads(classes[c])) <==> DeclLoads(d)
  {
    hide ClassLoads, FieldsLoad, EmittedDecl;
    if forall c :: c in DeclPaths(path, d) ==> ClassLoads(classes[c]) {
      forall i | 0 <= i < |d.subTypes|
        ensures FieldsLoad(d.fields + d.subTypes[i].fields)
      {
        assert SubPath(path, d.subTypes[i]) in DeclPaths(path, d);
      }
    }
    if DeclLoads(d) {
      forall c | c in DeclPaths(path, d)
        ensures ClassLoads(classes[c])
      {
        if c != path {
          var s :| s in d.subTypes && c == SubPath(path, s);
          var i :| 0 <= i < |d.subTypes| && d.subTypes[i] == s;
        }
      }
    }
  }

  // Modules

  /** The module of a safe schema loads exactly if every declaration meets its conditions. */
  lemma LoadsIff(p: Program, env: Env)
    requires EnvSafe(env) && Lexical(p.package, env)
    requires Emitted(p.classes, env) && p.classes.Keys == PathsWithout(env, {})
    ensures Loads(p) <==> Loadable(env)
  {
    hide *;
    forall path | path in env
      ensures DeclPaths(path, env[path]) <= p.classes.Keys
      ensures (forall c :: c in DeclPaths(path, env[path]) ==> ClassLoads(p.classes[c])) <==> DeclLoads(env[path])
    {
      PathsOf(env, path);
      DeclFacts(p.classes, env, path);
      DeclLoadsIff(p.classes, path, env[path]);
    }
    BindingsFine(p, env);
    AllClasses(p, env);
  }

  lemma DeclFacts(classes: map<Path, Class>, env: Env, path: Path)
    requires EnvSafe(env) && Emitted(classes, env) && path in env
    ensures EmittedDecl(classes, path, env[path]) && DeclSafe(env[path])
  {
  }

  lemma PathsOf(env: Env, path: Path)
    requires path in env
    ensures DeclPaths(path, env[path]) <= PathsWithout(env, {})
  {
  }

  lemma BindingsFine(p: Program, env: Env)
    requires Lexical(p.package, env) && p.classes.Keys == PathsWithout(env, {})
    ensures Loads(p) <==> forall c :: c in p.classes ==> ClassLoads(p.classes[c])
  {
    forall c | c in p.classes
      ensures BindingName(p.Binding(c))
    {
      assert c in PathsWithout(env, {});
      ClassBinding(p, c);
    }
    forall c, d | c in p.classes && d in p.classes && c != d
      ensures p.Binding(c) != p.Binding(d)
    {
      assert c in PathsWithout(env, {}) && d in PathsWithout(env, {});
      BindingsApart(p, c, d);
    }
    hide BindingName, ClassLoads;
  }

  lemma AllClasses(p: Program, env: Env)
    requires p.classes.Keys == PathsWithout(env, {})
    requires forall path :: path in env ==> DeclPaths(path, env[path]) <= p.classes.Keys
    requires forall path :: path in env ==>
      ((forall c :: c in DeclPaths(path, env[path]) ==> ClassLoads(p.classes[c])) <==> DeclLoads(env[path]))
    ensures (forall c :: c in p.classes ==> ClassLoads(p.classes[c])) <==> Loadable(env)
  {
    hide ClassLoads, DeclLoads, DeclPaths;
    if Loadable(env) {
      forall c | c in p.classes
        ensures ClassLoads(p.classes[c])
      {
        var path :| path in env && c in DeclPaths(path, env[path]);
      }
    }
  }

  // The main theorem

  /** The module loads, and `encode` followed by `decode` gives the value back. */
  ghost predicate RoundTrips(p: Program, ty: Schema.RpType, v: Val) { Loads(p) && Survives(p, ty, v) }

  /** For the module of a checked schema and any well-typed value, encoding and decoding gives the value
      back if and only if the schema is loadable and the value is clean. */
  lemma RoundTripIff(p: Program, env: Env, ty: Schema.RpType, v: Val)
    requires EnvSafe(env) && Lexical(p.package, env) && WellTyped(env, ty, v)
    requires Emitted(p.classes, env) && p.classes.Keys == PathsWithout(env, {})
    ensures RoundTrips(p, ty, v) <==> Loadable(env) && Clean(env, p.Hosted(), ty, v)
  {
    hide Loads, Loadable, Survives, Clean, EnvSafe, Lexical, Emitted, WellTyped, PathsWithout;
    LoadsIff(p, env);
    SurvivesIff(p, env, ty, v);
  }
}
