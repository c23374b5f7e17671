/** Deriving declarations from a structure (lib/derive/lib.rs), with the cache that lets equal
    structures share a declaration. */
module Derive {
  import opened Wrappers
  import opened Sir
  import opened Occurrences
  import Decimal
  import Schema

  // Declarations

  datatype Type =
    | Unsigned64
    | Signed64
    | FloatType
    | DoubleType
    | BooleanType
    | StringType
    | DateTimeType
    | AnyType
    | ArrayType(inner: Type)
    | NameType(path: Path)

  datatype FieldDecl = FieldDecl(name: string, ty: Type, required: bool, alias: Option<string>)

  datatype Member = FieldMember(field: FieldDecl) | InnerDecl(decl: Decl)

  datatype SubTypeDecl = SubTypeDecl(ident: string, alias: Option<string>, members: seq<Member>)

  datatype Decl =
    | TypeDecl(ident: string, members: seq<Member>)
    | TupleDecl(ident: string, members: seq<Member>)
    | InterfaceDecl(ident: string, info: Option<Schema.Selection>, subTypes: seq<SubTypeDecl>)

  type Declared = (Path, Decl)

  /** All declarations in `d`, which stands at `path`, with their full paths. */
  function Provided(path: Path, d: Decl): set<Declared>
    decreases d, 1
  {
    {(path, d)} + ProvidedInside(path, d)
  }

  function ProvidedInside(path: Path, d: Decl): set<Declared>
    decreases d, 0
  {
    match d
    case TypeDecl(_, members) => ProvidedMembers(path, members)
    case TupleDecl(_, members) => ProvidedMembers(path, members)
    case InterfaceDecl(_, _, subs) => ProvidedSubTypes(path, subs)
  }

  function ProvidedMembers(path: Path, members: seq<Member>): set<Declared>
    decreases members, 1
  {
    if members == [] then {}
    else
      var last := members[|members| - 1];
      ProvidedMembers(path, members[..|members| - 1]) + ProvidedMember(path, last)
  }

  function ProvidedMember(path: Path, m: Member): set<Declared>
    decreases m, 2
  {
    match m
    case InnerDecl(decl) => Provided(path + [decl.ident], decl)
    case FieldMember(_) => {}
  }

  function ProvidedSubTypes(path: Path, subs: seq<SubTypeDecl>): set<Declared>
    decreases subs, 1
  {
    if subs == [] then {}
    else
      var last := subs[|subs| - 1];
      ProvidedSubTypes(path, subs[..|subs| - 1]) + ProvidedMembers(path + [last.ident], last.members)
  }

  function FieldsOf(members: seq<Member>): seq<FieldDecl> {
    if members == [] then []
    else
      var last := members[|members| - 1];
      FieldsOf(members[..|members| - 1]) + if last.FieldMember? then [last.field] else []
  }

  // What it means for a declaration to be built from a structure

  /** Structures inside arrays are named by the cache, with exactly that structure as key. */
  predicate TypeFor(types: Types, s: Sir, ty: Type) {
    match s
    case U64 => ty.Unsigned64?
    case I64 => ty.Signed64?
    case Float => ty.FloatType?
    case Double => ty.DoubleType?
    case Boolean => ty.BooleanType?
    case String => ty.StringType?
    case DateTime => ty.DateTimeType?
    case Any => ty.AnyType?
    case Array(inner) => ty.ArrayType? && TypeFor(types, inner, ty.inner)
    case _ => s in types && ty == NameType(types[s])
  }

  predicate FieldFor(naming: Naming, types: Types, key: string, f: Field, out: FieldDecl) {
    && out.name == naming.snake(key)
    && out.alias == (if naming.snake(key) == key then None else Some(key))
    && out.required == !f.optional
    && TypeFor(types, f.sir, out.ty)
  }

  predicate EntriesFor(naming: Naming, types: Types, entries: seq<Entry>, fields: seq<FieldDecl>) {
    && |entries| == |fields|
    && forall i :: 0 <= i < |entries| ==> FieldFor(naming, types, entries[i].key, entries[i].field, fields[i])
  }

  predicate SubTypeFor(naming: Naming, types: Types, sub: SubType, out: SubTypeDecl) {
    && out.ident == naming.pascal(sub.name)
    && out.alias == (if sub.name == out.ident then None else Some(sub.name))
    && EntriesFor(naming, types, sub.structure, FieldsOf(out.members))
  }

  predicate DeclFor(naming: Naming, types: Types, s: Sir, d: Decl) {
    match s
    case Object(entries) => d.TypeDecl? && EntriesFor(naming, types, entries, FieldsOf(d.members))
    case Tuple(items) => d.TupleDecl? && EntriesFor(naming, types, ItemEntries(items), FieldsOf(d.members))
    case Interface(tag, subs) =>
      && d.InterfaceDecl?
      && d.info == TagInfo(tag)
      && SubTypesFor(naming, types, subs, d.subTypes)
    case Array(inner) => DeclFor(naming, types, inner, d)
    case _ => false
  }

  /** An unusual tag is recorded in an attribute, which carries neither the tag nor a known argument. */
  function TagInfo(tag: string): Option<Schema.Selection> {
    if tag == Schema.DEFAULT_TAG then None
    else Some(Schema.Selection([], map["type" := Schema.StringAst("type")]))
  }

  lemma {:induction false} TypeForGrows(before: Types, after: Types, s: Sir, ty: Type)
    requires Includes(after, before) && TypeFor(before, s, ty)
    ensures TypeFor(after, s, ty)
  {
    if s.Array? {
      TypeForGrows(before, after, s.inner, ty.inner);
    }
  }

  lemma EntriesForGrows(
    naming: Naming, before: Types, after: Types, entries: seq<Entry>, fields: seq<FieldDecl>
  )
    requires Includes(after, before) && EntriesFor(naming, before, entries, fields)
    ensures EntriesFor(naming, after, entries, fields)
  {
    forall i | 0 <= i < |entries| ensures FieldFor(naming, after, entries[i].key, entries[i].field, fields[i]) {
      TypeForGrows(before, after, entries[i].field.sir, fields[i].ty);
    }
  }

  lemma {:induction false} DeclForGrows(naming: Naming, before: Types, after: Types, s: Sir, d: Decl)
    requires Includes(after, before) && DeclFor(naming, before, s, d)
    ensures DeclFor(naming, after, s, d)
  {
    match s {
      case Object(entries) => EntriesForGrows(naming, before, after, entries, FieldsOf(d.members));
      case Tuple(items) => EntriesForGrows(naming, before, after, ItemEntries(items), FieldsOf(d.members));
      case Interface(_, subs) =>
        SubTypesForGrows(naming, before, after, subs, d.subTypes);
      case Array(inner) => DeclForGrows(naming, before, after, inner, d);
      case _ =>
    }
  }

  /** What has been cached since `before` and the declarations `provided` belong together: each is declared
      there under its name, built from that very structure, and nothing else is declared. */
  ghost predicate Backed(naming: Naming, before: Types, after: Types, provided: set<Declared>) {
    && Includes(after, before)
    && (forall s :: s in after && s !in before ==> BackedBy(naming, after, s, provided))
    && (forall e :: e in provided ==> Builds(naming, before, after, e))
  }

  /** The name cached for `s` stands for a declaration built from `s`. */
  ghost predicate BackedBy(naming: Naming, types: Types, s: Sir, provided: set<Declared>)
    requires s in types
  {
    exists d :: (types[s], d) in provided && DeclFor(naming, types, s, d)
  }

  /** A declaration is built from a new structure, under its name. */
  ghost predicate Builds(naming: Naming, before: Types, after: Types, e: Declared) {
    exists s :: s in after && s !in before && after[s] == e.0 && DeclFor(naming, after, s, e.1)
  }

  lemma BackedByGrows(
    naming: Naming, before: Types, after: Types, s: Sir, provided: set<Declared>, more: set<Declared>
  )
    requires s in before && Includes(after, before) && BackedBy(naming, before, s, provided) && provided <= more
    ensures BackedBy(naming, after, s, more)
  {
    var d :| (before[s], d) in provided && DeclFor(naming, before, s, d);
    DeclForGrows(naming, before, after, s, d);
    assert (after[s], d) in more;
  }

  lemma BuildsGrows(naming: Naming, first: Types, second: Types, third: Types, e: Declared)
    requires Builds(naming, first, second, e) && Includes(third, second)
    ensures Builds(naming, first, third, e)
  {
    var s :| s in second && s !in first && second[s] == e.0 && DeclFor(naming, second, s, e.1);
    DeclForGrows(naming, second, third, s, e.1);
  }

  lemma BuildsEarlier(naming: Naming, first: Types, second: Types, third: Types, e: Declared)
    requires Builds(naming, second, third, e) && Includes(second, first)
    ensures Builds(naming, first, third, e)
  {
    hide DeclFor;
    var s :| s in third && s !in second && third[s] == e.0 && DeclFor(naming, third, s, e.1);
  }

  lemma IncludesThrough(first: Types, second: Types, third: Types)
    requires Includes(second, first) && Includes(third, second)
    ensures Includes(third, first)
  {
  }

  lemma BackedThen(
    naming: Naming, first: Types, second: Types, third: Types, p: set<Declared>, q: set<Declared>
  )
    requires Backed(naming, first, second, p) && Backed(naming, second, third, q)
    ensures Backed(naming, first, third, p + q)
  {
    hide BackedBy, Builds, Includes;
    IncludesThrough(first, second, third);
    forall s | s in third && s !in first
      ensures BackedBy(naming, third, s, p + q)
    {
      if s in second {
        BackedByGrows(naming, second, third, s, p, p + q);
      } else {
        IncludesSelf(third);
        BackedByGrows(naming, third, third, s, q, p + q);
      }
    }
    forall e | e in p + q
      ensures Builds(naming, first, third, e)
    {
      if e in p {
        BuildsGrows(naming, first, second, third, e);
      } else {
        BuildsEarlier(naming, first, second, third, e);
      }
    }
  }

  lemma IncludesSelf(types: Types)
    ensures Includes(types, types)
  {
  }

  lemma BackedNothing(naming: Naming, types: Types)
    ensures Backed(naming, types, types, {})
  {
  }

  lemma NewIsBacked(
    naming: Naming, before: Types, cached: Types, s: Sir, after: Types, d: Decl, provided: set<Declared>
  )
    requires s !in before && s in cached && Includes(cached, before) && Includes(after, cached)
    requires DeclFor(naming, after, s, d) && (cached[s], d) in provided
    ensures s in after && after[s] == cached[s] && BackedBy(naming, after, s, provided)
    ensures Builds(naming, before, after, (cached[s], d))
  {
    hide DeclFor;
    assert (after[s], d) in provided;
  }

  lemma OthersBacked(
    naming: Naming, before: Types, cached: Types, s: Sir, after: Types, inner: set<Declared>, all: set<Declared>
  )
    requires cached.Keys == before.Keys + {s} && Backed(naming, cached, after, inner) && inner <= all
    ensures forall t :: t in after && t !in before && t != s ==> BackedBy(naming, after, t, all)
  {
    hide BackedBy, Builds, DeclFor;
    IncludesSelf(after);
    hide Includes;
    forall t | t in after && t !in before && t != s
      ensures BackedBy(naming, after, t, all)
    {
      BackedByGrows(naming, after, after, t, inner, all);
    }
  }

  lemma OthersBuilt(naming: Naming, before: Types, cached: Types, after: Types, inner: set<Declared>)
    requires Includes(cached, before) && Backed(naming, cached, after, inner)
    ensures forall e :: e in inner ==> Builds(naming, before, after, e)
  {
    hide BackedBy, Builds, DeclFor, Includes;
    forall e | e in inner
      ensures Builds(naming, before, after, e)
    {
      BuildsEarlier(naming, before, cached, after, e);
    }
  }

  /** A new structure is backed by its own declaration. */
  lemma BackedNew(
    naming: Naming, before: Types, cached: Types, s: Sir, after: Types, d: Decl, inner: set<Declared>
  )
    requires cached.Keys == before.Keys + {s} && s !in before && Includes(cached, before)
    requires Backed(naming, cached, after, inner) && DeclFor(naming, after, s, d)
    ensures Backed(naming, before, after, {(cached[s], d)} + inner)
  {
    hide BackedBy, Builds, Includes, DeclFor;
    var self := (cached[s], d);
    var all := {self} + inner;
    assert self in all && inner <= all && forall e :: e in all ==> e == self || e in inner;
    IncludesThrough(before, cached, after);
    NewIsBacked(naming, before, cached, s, after, d, all);
    OthersBacked(naming, before, cached, s, after, inner, all);
    OthersBuilt(naming, before, cached, after, inner);
    Assembled(naming, before, after, s, self, inner, all);
  }

  lemma Assembled(
    naming: Naming, before: Types, after: Types, s: Sir, self: Declared, inner: set<Declared>, all: set<Declared>
  )
    requires Includes(after, before) && forall e :: e in all ==> e == self || e in inner
    requires s in after && BackedBy(naming, after, s, all)
    requires forall t :: t in after && t !in before && t != s ==> BackedBy(naming, after, t, all)
    requires Builds(naming, before, after, self) && forall e :: e in inner ==> Builds(naming, before, after, e)
    ensures Backed(naming, before, after, all)
  {
    hide BackedBy, Builds, Includes, DeclFor;
  }

  lemma NothingAdded(naming: Naming, types: Types, ctx: Path)
    ensures Backed(naming, types, types, InnerProvided(ctx, None))
  {
    BackedNothing(naming, types);
  }

  lemma InnerProvidedIs(ctx: Path, d: Decl)
    ensures var path := ctx + [d.ident];
      InnerProvided(ctx, Some(d)) == {(path, d)} + ProvidedInside(path, d)
  {
  }

  lemma CachedOne(before: Types, s: Sir, path: Path)
    requires s !in before
    ensures before[s := path].Keys == before.Keys + {s} && before[s := path][s] == path
    ensures Includes(before[s := path], before)
  {
  }

  lemma BackedIncludes(naming: Naming, before: Types, after: Types, provided: set<Declared>)
    requires Backed(naming, before, after, provided)
    ensures Includes(after, before)
  {
  }

  // Where declarations are distinct

  /** No two declarations in one place have the same name. */
  predicate Apart(d: Decl)
    decreases d, 0
  {
    match d
    case TypeDecl(_, members) => MembersApart(members)
    case TupleDecl(_, members) => MembersApart(members)
    case InterfaceDecl(_, _, subs) => SubTypesApart(subs)
  }

  predicate MembersApart(members: seq<Member>)
    decreases members, 1
  {
    && (forall i :: 0 <= i < |members| ==> MemberApart(members[i]))
    && (forall i, k :: 0 <= i < k < |members| && members[i].InnerDecl? && members[k].InnerDecl? ==>
          members[i].decl.ident != members[k].decl.ident)
  }

  predicate MemberApart(m: Member)
    decreases m, 2
  {
    match m
    case InnerDecl(decl) => Apart(decl)
    case FieldMember(_) => true
  }

  predicate SubTypesApart(subs: seq<SubTypeDecl>)
    decreases subs, 1
  {
    && (forall i :: 0 <= i < |subs| ==> MembersApart(subs[i].members))
    && (forall i, k :: 0 <= i < k < |subs| ==> subs[i].ident != subs[k].ident)
  }

  function InnerIdents(members: seq<Member>): set<string> { set m <- members | m.InnerDecl? :: m.decl.ident }

  lemma MembersApartSnoc(members: seq<Member>, m: Member)
    ensures MembersApart(members + [m]) <==>
      MembersApart(members) && (m.InnerDecl? ==> Apart(m.decl) && m.decl.ident !in InnerIdents(members))
    ensures InnerIdents(members + [m]) == InnerIdents(members) + if m.InnerDecl? then {m.decl.ident} else {}
  {
    hide Apart;
    var all := members + [m];
    assert all[|members|] == m && forall i :: 0 <= i < |members| ==> all[i] == members[i];
    if MembersApart(all) {
      assert forall i :: 0 <= i < |members| ==> MemberApart(members[i]);
      assert MemberApart(m);
    }
    assert forall n :: n in all <==> n in members || n == m;
  }

  lemma MembersApartStep(members: seq<Member>, added: Option<Decl>, field: FieldDecl)
    ensures var out := members + InnerMembers(added) + [FieldMember(field)];
      && (MembersApart(out) <==>
            MembersApart(members) && (added.Some? ==> Apart(added.value) && added.value.ident !in InnerIdents(members)))
      && InnerIdents(out) == InnerIdents(members) + if added.Some? then {added.value.ident} else {}
  {
    hide Apart, MembersApart, InnerIdents;
    MembersApartSnoc(members + InnerMembers(added), FieldMember(field));
    if added.Some? {
      MembersApartSnoc(members, InnerDecl(added.value));
    } else {
      assert members + InnerMembers(added) == members;
    }
  }

  lemma SubTypesApartSnoc(subs: seq<SubTypeDecl>, sub: SubTypeDecl)
    ensures SubTypesApart(subs + [sub]) <==>
      && SubTypesApart(subs)
      && MembersApart(sub.members)
      && forall i :: 0 <= i < |subs| ==> subs[i].ident != sub.ident
  {
    hide MembersApart;
    var all := subs + [sub];
    assert all[|subs|] == sub && forall i :: 0 <= i < |subs| ==> all[i] == subs[i];
    if SubTypesApart(all) {
      assert forall i :: 0 <= i < |subs| ==> MembersApart(all[i].members);
    }
  }

  /** What a field does: a declaration is added exactly if its structure occurs for the first time. If what is
      cached of the structure is cached with everything inside, then afterwards all of it is, under the names of
      the places where it first occurred. */
  predicate Adds(
    naming: Naming, before: Types, after: Types, ctx: Path, key: string, s: Sir, added: Option<Decl>
  ) {
    && (added.Some? <==> New(before.Keys, s))
    && (added.Some? ==> added.value.ident == InnerIdent(naming, key, s))
    && (Ready(before.Keys, Structs(s)) ==>
          && after.Keys == before.Keys + Structs(s)
          && (added.Some? ==>
                && EntryNamed(naming, before.Keys, after, ctx, key, s)
                && (Apart(added.value) <==> Once(naming, before.Keys + {Strip(s)}, s))))
  }

  lemma AddsScalar(naming: Naming, types: Types, ctx: Path, key: string, s: Sir)
    requires !s.Array? && !Struct(s)
    ensures Adds(naming, types, types, ctx, key, s, None)
  {
  }

  lemma AddsCached(naming: Naming, types: Types, ctx: Path, key: string, s: Sir)
    requires Struct(s) && s in types
    ensures Adds(naming, types, types, ctx, key, s, None)
  {
    if Ready(types.Keys, Structs(s)) {
      ReadyCached(types.Keys, s);
    }
  }

  lemma AddsArray(
    naming: Naming, before: Types, after: Types, ctx: Path, key: string, s: Sir, added: Option<Decl>
  )
    requires s.Array? && Adds(naming, before, after, ctx, naming.snake(key), s.inner, added)
    ensures Adds(naming, before, after, ctx, key, s, added)
  {
    assert Strip(s) == Strip(s.inner) && Inner(s) == Inner(s.inner) && Structs(s) == Structs(s.inner);
    assert InnerIdent(naming, key, s) == InnerIdent(naming, naming.snake(key), s.inner);
    var path := ctx + [InnerIdent(naming, key, s)];
    var seen := before.Keys + {Strip(s)};
    assert Once(naming, seen, s) <==> Once(naming, seen, s.inner);
    assert Named(naming, seen, after, path, s) <==> Named(naming, seen, after, path, s.inner);
    hide Once, Named, Apart, Ready, Structs, InnerIdent, Strip;
  }

  /** What deriving the declaration of a structure does. */
  predicate Declares(naming: Naming, before: Types, after: Types, ctx: Path, s: Sir, d: Decl) {
    Ready(before.Keys, Inner(s)) ==>
      && after.Keys == before.Keys + Inner(s)
      && Named(naming, before.Keys, after, ctx, s)
      && (Apart(d) <==> Once(naming, before.Keys, s))
  }

  lemma AddsNew(
    naming: Naming, before: Types, cached: Types, after: Types, ctx: Path, key: string, s: Sir, d: Decl
  )
    requires Struct(s) && s !in before && cached.Keys == before.Keys + {s}
    requires d.ident == naming.pascal(naming.snake(key)) && cached[s] == ctx + [d.ident]
    requires Includes(after, cached) && Declares(naming, cached, after, cached[s], s, d)
    ensures Adds(naming, before, after, ctx, key, s, Some(d))
  {
    assert after[s] == cached[s];
    if Ready(before.Keys, Structs(s)) {
      ReadyInner(before.Keys, s);
    }
    hide Once, Named, Apart, Ready, Inner, Includes;
  }

  /** What deriving entries does. */
  predicate Stems(
    naming: Naming, start: Types, types: Types, ctx: Path, entries: seq<Entry>, members: seq<Member>
  ) {
    Ready(start.Keys, EntryStructs(entries)) ==>
      && types.Keys == start.Keys + EntryStructs(entries)
      && InnerIdents(members) == FirstIdents(naming, start.Keys, entries)
      && EntriesNamed(naming, start.Keys, types, ctx, entries)
      && (MembersApart(members) <==> EntriesOnce(naming, start.Keys, entries))
  }

  lemma StemsStep(
    naming: Naming, start: Types, before: Types, after: Types, ctx: Path, entries: seq<Entry>, e: Entry,
    members: seq<Member>, added: Option<Decl>, field: FieldDecl
  )
    requires Stems(naming, start, before, ctx, entries, members) && Includes(after, before)
    requires Adds(naming, before, after, ctx, e.key, e.field.sir, added)
    ensures Stems(naming, start, after, ctx, entries + [e], members + InnerMembers(added) + [FieldMember(field)])
  {
    if Ready(start.Keys, EntryStructs(entries + [e])) {
      hide InnerIdent, Apart, Strip, Once, EntriesOnce, MembersApart, FirstIdents, EntryNamed, EntriesNamed, Structs,
        EntryStructs, InnerIdents, InnerMembers, New, Ready, Includes;
      ReadyNext(start.Keys, before.Keys, entries, e);
      OnceNext(naming, start.Keys, before.Keys, entries, e);
      MembersApartStep(members, added, field);
      NamedNext(naming, start.Keys, before.Keys, before, after, ctx, entries, e);
    }
  }

  lemma EntryStep(
    naming: Naming, start: Types, before: Types, after: Types, ctx: Path, entries: seq<Entry>, i: nat,
    members: seq<Member>, added: Option<Decl>, field: FieldDecl
  )
    requires i < |entries| && Stems(naming, start, before, ctx, entries[..i], members) && Includes(after, before)
    requires Adds(naming, before, after, ctx, entries[i].key, entries[i].field.sir, added)
    ensures Stems(naming, start, after, ctx, entries[..i + 1], members + InnerMembers(added) + [FieldMember(field)])
  {
    hide *;
    assert entries[..i + 1] == entries[..i] + [entries[i]];
    StemsStep(naming, start, before, after, ctx, entries[..i], entries[i], members, added, field);
  }

  /** What holds of the entries that have been derived. */
  ghost predicate EntriesDone(
    naming: Naming, start: Types, types: Types, ctx: Path, entries: seq<Entry>, members: seq<Member>
  ) {
    && EntriesFor(naming, types, entries, FieldsOf(members))
    && Backed(naming, start, types, ProvidedMembers(ctx, members))
    && Stems(naming, start, types, ctx, entries, members)
  }

  lemma NoEntries(naming: Naming, types: Types, ctx: Path)
    ensures EntriesDone(naming, types, types, ctx, [], [])
  {
    BackedNothing(naming, types);
  }

  lemma EntriesNext(
    naming: Naming, start: Types, before: Types, after: Types, ctx: Path, entries: seq<Entry>, i: nat,
    members: seq<Member>, added: Option<Decl>, field: FieldDecl
  )
    requires i < |entries| && EntriesDone(naming, start, before, ctx, entries[..i], members)
    requires FieldFor(naming, after, entries[i].key, entries[i].field, field)
    requires Backed(naming, before, after, InnerProvided(ctx, added))
    requires Adds(naming, before, after, ctx, entries[i].key, entries[i].field.sir, added)
    ensures EntriesDone(
      naming, start, after, ctx, entries[..i + 1], members + InnerMembers(added) + [FieldMember(field)])
  {
    hide Adds, Stems, FieldFor, FieldsOf, ProvidedMembers, InnerProvided, BackedBy, Builds, DeclFor;
    MembersStep(ctx, members, added, field);
    BackedThen(naming, start, before, after, ProvidedMembers(ctx, members), InnerProvided(ctx, added));
    EntriesForGrows(naming, before, after, entries[..i], FieldsOf(members));
    EntryStep(naming, start, before, after, ctx, entries, i, members, added, field);
    assert entries[..i + 1] == entries[..i] + [entries[i]];
  }

  /** What deriving sub-types does. */
  predicate SubTypesStem(
    naming: Naming, start: Types, types: Types, ctx: Path, subs: seq<SubType>, out: seq<SubTypeDecl>
  ) {
    Ready(start.Keys, SubTypeStructs(subs)) ==>
      && types.Keys == start.Keys + SubTypeStructs(subs)
      && SubTypesNamed(naming, start.Keys, types, ctx, subs)
      && (SubTypesApart(out) <==> SubTypesOnce(naming, start.Keys, subs))
  }

  lemma SubTypesStemStep(
    naming: Naming, start: Types, before: Types, after: Types, ctx: Path, subs: seq<SubType>, s: SubType,
    out: seq<SubTypeDecl>, sub: SubTypeDecl
  )
    requires SubTypesStem(naming, start, before, ctx, subs, out) && Includes(after, before)
    requires |out| == |subs| && forall i :: 0 <= i < |subs| ==> out[i].ident == naming.pascal(subs[i].name)
    requires sub.ident == naming.pascal(s.name)
    requires Stems(naming, before, after, ctx + [sub.ident], s.structure, sub.members)
    ensures SubTypesStem(naming, start, after, ctx, subs + [s], out + [sub])
  {
    if Ready(start.Keys, SubTypeStructs(subs + [s])) {
      hide SubTypesApart, SubTypesOnce, EntriesOnce, MembersApart, FirstIdents, EntriesNamed, SubTypesNamed,
        EntryStructs, SubTypeStructs, InnerIdents, Ready;
      ReadyNextSubType(start.Keys, before.Keys, subs, s);
      SubTypesOnceNext(naming, start.Keys, before.Keys, subs, s);
      SubTypesApartSnoc(out, sub);
      NamedNextSubType(naming, start.Keys, before.Keys, before, after, ctx, subs, s);
    }
  }

  ghost predicate SubTypesDone(
    naming: Naming, start: Types, types: Types, ctx: Path, subs: seq<SubType>, out: seq<SubTypeDecl>
  ) {
    && SubTypesFor(naming, types, subs, out)
    && Backed(naming, start, types, ProvidedSubTypes(ctx, out))
    && SubTypesStem(naming, start, types, ctx, subs, out)
  }

  lemma NoSubTypes(naming: Naming, types: Types, ctx: Path)
    ensures SubTypesDone(naming, types, types, ctx, [], [])
  {
    BackedNothing(naming, types);
  }

  lemma SubTypesNext(
    naming: Naming, start: Types, before: Types, after: Types, ctx: Path, subs: seq<SubType>, i: nat,
    out: seq<SubTypeDecl>, sub: SubTypeDecl
  )
    requires i < |subs| && SubTypesDone(naming, start, before, ctx, subs[..i], out)
    requires sub.ident == naming.pascal(subs[i].name)
    requires sub.alias == if subs[i].name != sub.ident then Some(subs[i].name) else None
    requires EntriesFor(naming, after, subs[i].structure, FieldsOf(sub.members))
    requires Backed(naming, before, after, ProvidedMembers(ctx + [sub.ident], sub.members))
    requires Stems(naming, before, after, ctx + [sub.ident], subs[i].structure, sub.members)
    ensures SubTypesDone(naming, start, after, ctx, subs[..i + 1], out + [sub])
  {
    hide EntriesFor, FieldsOf, ProvidedMembers, BackedBy, Builds, DeclFor, Stems, SubTypesStem;
    assert (out + [sub])[..|out|] == out;
    BackedThen(
      naming, start, before, after, ProvidedSubTypes(ctx, out), ProvidedMembers(ctx + [sub.ident], sub.members));
    SubTypesForGrows(naming, before, after, subs[..i], out);
    assert subs[..i + 1] == subs[..i] + [subs[i]];
    SubTypesStemStep(naming, start, before, after, ctx, subs[..i], subs[i], out, sub);
  }

  // The derivers

  class Deriver {
    const naming: Naming
    var types: Types

    constructor (naming: Naming)
      ensures this.naming == naming && types == map[]
    {
      this.naming := naming;
      types := map[];
    }

    /** The declaration of a field; a structure that is not cached yet is declared inside `members`, and
        cached first. */
    method InitField(ctx: Path, original: string, f: Field, members: seq<Member>)
      returns (field: FieldDecl, out: seq<Member>, ghost added: Option<Decl>)
      modifies this
      ensures FieldFor(naming, types, original, f, field)
      ensures out == members + InnerMembers(added)
      ensures Backed(naming, old(types), types, InnerProvided(ctx, added))
      ensures Adds(naming, old(types), types, ctx, original, f.sir, added)
      decreases f.sir, 1
    {
      hide DeclFor, Backed, EntriesFor, Adds, Declares, Provided, ProvidedInside, InnerProvided, Includes;
      var name := naming.snake(original);
      var ty;
      out, added := members, None;
      NothingAdded(naming, types, ctx);
      if !f.sir.Array? && !Struct(f.sir) {
        AddsScalar(naming, types, ctx, original, f.sir);
      }
      match f.sir {
        case Boolean => ty := BooleanType;
        case Float => ty := FloatType;
        case Double => ty := DoubleType;
        case I64 => ty := Signed64;
        case U64 => ty := Unsigned64;
        case String => ty := StringType;
        case DateTime => ty := DateTimeType;
        case Any => ty := AnyType;
        case Array(inner) =>
          var element;
          element, out, added := InitField(ctx, name, Field(false, inner), members);
          ty := ArrayType(element.ty);
          AddsArray(naming, old(types), types, ctx, original, f.sir, added);
        case _ =>
          var path := ctx + [naming.pascal(name)];
          if f.sir in types {
            AddsCached(naming, types, ctx, original, f.sir);
            path := types[f.sir];
          } else {
            ghost var before := types;
            types := types[f.sir := path];
            ghost var cached := types;
            CachedOne(before, f.sir, path);
            var decl := DeriveDecl(path, f.sir);
            BackedNew(naming, before, cached, f.sir, types, decl.value, ProvidedInside(path, decl.value));
            BackedIncludes(naming, cached, types, ProvidedInside(path, decl.value));
            InnerProvidedIs(ctx, decl.value);
            AddsNew(naming, before, cached, types, ctx, original, f.sir, decl.value);
            out := out + [InnerDecl(decl.value)];
            added := decl;
          }
          ty := NameType(path);
      }
      field := FieldDecl(name, ty, !f.optional, if name != original then Some(original) else None);
    }

    /** The body of a type or a sub-type. */
    method InitEntries(ctx: Path, entries: seq<Entry>) returns (members: seq<Member>)
      modifies this
      ensures EntriesFor(naming, types, entries, FieldsOf(members))
      ensures Backed(naming, old(types), types, ProvidedMembers(ctx, members))
      ensures Stems(naming, old(types), types, ctx, entries, members)
      decreases entries, 2
    {
      members := [];
      NoEntries(naming, types, ctx);
      ghost var start := types;
      for i := 0 to |entries|
        invariant EntriesDone(naming, start, types, ctx, entries[..i], members)
      {
        hide *;
        ghost var before, last := types, members;
        var field;
        ghost var added;
        field, members, added := InitField(ctx, entries[i].key, entries[i].field, members);
        members := members + [FieldMember(field)];
        EntriesNext(naming, start, before, types, ctx, entries, i, last, added, field);
      }
      assert entries[..|entries|] == entries;
    }

    method InitItem(ctx: Path, index: nat, f: Field, members: seq<Member>)
      returns (field: FieldDecl, out: seq<Member>, ghost added: Option<Decl>)
      modifies this
      ensures FieldFor(naming, types, ItemKey(index), f, field)
      ensures out == members + InnerMembers(added)
      ensures Backed(naming, old(types), types, InnerProvided(ctx, added))
      ensures Adds(naming, old(types), types, ctx, ItemKey(index), f.sir, added)
      decreases f, 1
    {
      hide Adds, Backed, FieldFor, InnerProvided, InnerMembers;
      field, out, added := InitField(ctx, "field_" + Decimal.Digits(index), f, members);
    }

    /** The body of a tuple, whose fields are numbered. */
    method InitItems(ctx: Path, items: seq<Field>) returns (members: seq<Member>)
      modifies this
      ensures EntriesFor(naming, types, ItemEntries(items), FieldsOf(members))
      ensures Backed(naming, old(types), types, ProvidedMembers(ctx, members))
      ensures Stems(naming, old(types), types, ctx, ItemEntries(items), members)
      decreases items, 2
    {
      members := [];
      NoEntries(naming, types, ctx);
      ghost var start, entries := types, ItemEntries(items);
      for i := 0 to |items|
        invariant EntriesDone(naming, start, types, ctx, entries[..i], members)
      {
        assert entries[i] == Entry(ItemKey(i), items[i]);
        hide *;
        ghost var before, last := types, members;
        var field;
        ghost var added;
        field, members, added := InitItem(ctx, i, items[i], members);
        members := members + [FieldMember(field)];
        EntriesNext(naming, start, before, types, ctx, entries, i, last, added, field);
      }
      assert entries[..|items|] == entries;
    }

    method InitSubTypes(ctx: Path, subs: seq<SubType>) returns (out: seq<SubTypeDecl>)
      modifies this
      ensures SubTypesFor(naming, types, subs, out)
      ensures Backed(naming, old(types), types, ProvidedSubTypes(ctx, out))
      ensures SubTypesStem(naming, old(types), types, ctx, subs, out)
      decreases subs, 2
    {
      out := [];
      NoSubTypes(naming, types, ctx);
      ghost var start := types;
      for i := 0 to |subs|
        invariant SubTypesDone(naming, start, types, ctx, subs[..i], out)
      {
        hide *;
        ghost var before, last := types, out;
        var ident := naming.pascal(subs[i].name);
        var alias := if subs[i].name != ident then Some(subs[i].name) else None;
        var members := InitEntries(ctx + [ident], subs[i].structure);
        var sub := SubTypeDecl(ident, alias, members);
        out := out + [sub];
        SubTypesNext(naming, start, before, types, ctx, subs, i, last, sub);
      }
      assert subs[..|subs|] == subs;
    }

    /** The declaration of a structure, with everything it declares inside; arrays stand for their
        elements, and scalars have none. */
    method DeriveDecl(ctx: Path, s: Sir) returns (r: Option<Decl>)
      requires ctx != []
      modifies this
      ensures r.Some? <==> Struct(Strip(s))
      ensures r.Some? ==> r.value.ident == ctx[|ctx| - 1] && DeclFor(naming, types, s, r.value)
      ensures r.Some? ==> Backed(naming, old(types), types, ProvidedInside(ctx, r.value))
      ensures r.Some? ==> Declares(naming, old(types), types, ctx, s, r.value)
      decreases s, 0
    {
      hide Backed, EntriesFor, SubTypesFor, EntriesOnce, SubTypesOnce, EntriesNamed, SubTypesNamed, EntryStructs,
        SubTypeStructs, MembersApart, SubTypesApart, ProvidedMembers, ProvidedSubTypes, Ready;
      var ident := ctx[|ctx| - 1];
      match s {
        case Tuple(items) =>
          var members := InitItems(ctx, items);
          r := Some(TupleDecl(ident, members));
        case Object(entries) =>
          var members := InitEntries(ctx, entries);
          r := Some(TypeDecl(ident, members));
        case Interface(tag, subs) =>
          var info := None;
          if tag != Schema.DEFAULT_TAG {
            info := Some(Schema.Selection([], map["type" := Schema.StringAst("type")]));
          }
          var subTypes := InitSubTypes(ctx, subs);
          r := Some(InterfaceDecl(ident, info, subTypes));
        case Array(inner) => r := DeriveDecl(ctx, inner);
        case _ => return None;
      }
    }
  }

  function InnerMembers(added: Option<Decl>): seq<Member> {
    if added.Some? then [InnerDecl(added.value)] else []
  }

  function InnerProvided(ctx: Path, added: Option<Decl>): set<Declared> {
    if added.Some? then Provided(ctx + [added.value.ident], added.value) else {}
  }

  predicate SubTypesFor(naming: Naming, types: Types, subs: seq<SubType>, out: seq<SubTypeDecl>) {
    |subs| == |out| && forall i :: 0 <= i < |subs| ==> SubTypeFor(naming, types, subs[i], out[i])
  }

  lemma SubTypesForGrows(naming: Naming, before: Types, after: Types, subs: seq<SubType>, out: seq<SubTypeDecl>)
    requires Includes(after, before) && SubTypesFor(naming, before, subs, out)
    ensures SubTypesFor(naming, after, subs, out)
  {
    forall i | 0 <= i < |subs| ensures SubTypeFor(naming, after, subs[i], out[i]) {
      EntriesForGrows(naming, before, after, subs[i].structure, FieldsOf(out[i].members));
    }
  }

  lemma MemberSnoc(ctx: Path, members: seq<Member>, m: Member)
    ensures FieldsOf(members + [m]) == FieldsOf(members) + if m.FieldMember? then [m.field] else []
    ensures ProvidedMembers(ctx, members + [m]) == ProvidedMembers(ctx, members) + ProvidedMember(ctx, m)
  {
    assert (members + [m])[..|members|] == members;
  }

  lemma MembersStep(ctx: Path, members: seq<Member>, added: Option<Decl>, field: FieldDecl)
    ensures var out := members + InnerMembers(added) + [FieldMember(field)];
      && FieldsOf(out) == FieldsOf(members) + [field]
      && ProvidedMembers(ctx, out) == ProvidedMembers(ctx, members) + InnerProvided(ctx, added)
  {
    var inner := members + InnerMembers(added);
    MemberSnoc(ctx, inner, FieldMember(field));
    assert ProvidedMember(ctx, FieldMember(field)) == {};
    if added.Some? {
      MemberSnoc(ctx, members, InnerDecl(added.value));
      assert ProvidedMember(ctx, InnerDecl(added.value)) == InnerProvided(ctx, added);
    } else {
      assert inner == members;
    }
  }

  // Whole derivations

  /** The type names that `ty` mentions. */
  function Mentions(ty: Type): set<Path> {
    match ty
    case NameType(path) => {path}
    case ArrayType(inner) => Mentions(inner)
    case _ => {}
  }

  // Paths of declarations

  /** A path stands for one declaration only. */
  ghost predicate DeclaredOnce(provided: set<Declared>) {
    forall e, f :: e in provided && f in provided && e.0 == f.0 ==> e == f
  }

  lemma {:induction false} FromMember(path: Path, members: seq<Member>, e: Declared) returns (i: nat)
    requires e in ProvidedMembers(path, members)
    ensures i < |members| && members[i].InnerDecl?
    ensures e in Provided(path + [members[i].decl.ident], members[i].decl)
  {
    var n := |members| - 1;
    if e in ProvidedMembers(path, members[..n]) {
      i := FromMember(path, members[..n], e);
    } else {
      i := n;
    }
  }

  lemma {:induction false} FromSubType(path: Path, subs: seq<SubTypeDecl>, e: Declared) returns (i: nat)
    requires e in ProvidedSubTypes(path, subs)
    ensures i < |subs| && e in ProvidedMembers(path + [subs[i].ident], subs[i].members)
  {
    var n := |subs| - 1;
    if e in ProvidedSubTypes(path, subs[..n]) {
      i := FromSubType(path, subs[..n], e);
    } else {
      i := n;
    }
  }

  predicate Under(path: Path, e: Declared) { path <= e.0 }

  lemma {:induction false} ProvidedUnder(path: Path, d: Decl, e: Declared)
    requires e in Provided(path, d)
    ensures Under(path, e) && (e == (path, d) || |e.0| > |path|)
    decreases d, 1
  {
    if e != (path, d) {
      match d {
        case TypeDecl(_, members) => MembersUnder(path, members, e);
        case TupleDecl(_, members) => MembersUnder(path, members, e);
        case InterfaceDecl(_, _, subs) =>
          var i := FromSubType(path, subs, e);
          MembersUnder(path + [subs[i].ident], subs[i].members, e);
      }
    }
  }

  lemma {:induction false} MembersUnder(path: Path, members: seq<Member>, e: Declared)
    requires e in ProvidedMembers(path, members)
    ensures Under(path, e) && |e.0| > |path|
    decreases members, 0
  {
    var i := FromMember(path, members, e);
    MemberUnder(path, members[i], e);
  }

  lemma {:induction false} MemberUnder(path: Path, m: Member, e: Declared)
    requires m.InnerDecl? && e in Provided(path + [m.decl.ident], m.decl)
    ensures Under(path + [m.decl.ident], e)
    decreases m, 2
  {
    ProvidedUnder(path + [m.decl.ident], m.decl, e);
  }

  lemma {:induction false} SamePath(path: Path, d: Decl, e: Declared, f: Declared)
    requires Apart(d) && e in Provided(path, d) && f in Provided(path, d) && e.0 == f.0
    ensures e == f
    decreases d, 1
  {
    ProvidedUnder(path, d, e);
    ProvidedUnder(path, d, f);
    if e != (path, d) && f != (path, d) {
      match d {
        case TypeDecl(_, members) => SameMember(path, members, e, f);
        case TupleDecl(_, members) => SameMember(path, members, e, f);
        case InterfaceDecl(_, _, subs) =>
          var i := FromSubType(path, subs, e);
          var k := FromSubType(path, subs, f);
          MembersUnder(path + [subs[i].ident], subs[i].members, e);
          MembersUnder(path + [subs[k].ident], subs[k].members, f);
          assert e.0[|path|] == subs[i].ident && f.0[|path|] == subs[k].ident;
          SameMember(path + [subs[i].ident], subs[i].members, e, f);
      }
    }
  }

  lemma {:induction false} SameMember(path: Path, members: seq<Member>, e: Declared, f: Declared)
    requires MembersApart(members) && e in ProvidedMembers(path, members) && f in ProvidedMembers(path, members)
    requires e.0 == f.0
    ensures e == f
    decreases members, 0
  {
    var i := FromMember(path, members, e);
    var k := FromMember(path, members, f);
    MemberUnder(path, members[i], e);
    MemberUnder(path, members[k], f);
    assert e.0[|path|] == members[i].decl.ident && f.0[|path|] == members[k].decl.ident;
    assert MemberApart(members[i]);
    SameInner(path, members[i], e, f);
  }

  lemma {:induction false} SameInner(path: Path, m: Member, e: Declared, f: Declared)
    requires m.InnerDecl? && Apart(m.decl) && e.0 == f.0
    requires e in Provided(path + [m.decl.ident], m.decl) && f in Provided(path + [m.decl.ident], m.decl)
    ensures e == f
    decreases m, 2
  {
    SamePath(path + [m.decl.ident], m.decl, e, f);
  }

  lemma ApartOnce(path: Path, d: Decl)
    requires Apart(d)
    ensures DeclaredOnce(Provided(path, d))
  {
    forall e, f | e in Provided(path, d) && f in Provided(path, d) && e.0 == f.0
      ensures e == f
    {
      SamePath(path, d, e, f);
    }
  }

  /** `d` is a derived declaration of `s` at `path`, and `types` the cache that remains: it holds exactly the
      structures inside `s`, under the names of the places where they first occur. */
  ghost predicate Derived(naming: Naming, types: Types, path: Path, s: Sir, d: Decl) {
    && DeclFor(naming, types, s, d)
    && Backed(naming, map[], types, ProvidedInside(path, d))
    && types.Keys == Inner(s)
    && Named(naming, {}, types, path, s)
    && (Apart(d) <==> Once(naming, {}, s))
  }

  /** Derives the declaration of a document's structure, named `root`. No two declarations in one place have
      the same name if and only if structures that first occur in one place have different names. */
  method Derive(naming: Naming, root: string, s: Sir) returns (r: Option<Decl>, ghost types: Types)
    ensures r.Some? <==> Struct(Strip(s))
    ensures r.Some? ==> r.value.ident == root && Derived(naming, types, [root], s, r.value)
    ensures r.Some? && Once(naming, {}, s) ==> DeclaredOnce(Provided([root], r.value))
  {
    hide Apart, Once, Named, Inner, Backed, DeclFor, ProvidedInside, Provided, DeclaredOnce;
    var deriver := new Deriver(naming);
    assert deriver.types.Keys == {} && {} + Inner(s) == Inner(s);
    r := deriver.DeriveDecl([root], s);
    types := deriver.types;
    if r.Some? && Once(naming, {}, s) {
      ApartOnce([root], r.value);
    }
  }

  lemma {:induction false} MentionedIsCached(types: Types, s: Sir, ty: Type, path: Path)
    requires TypeFor(types, s, ty) && path in Mentions(ty)
    ensures Struct(Strip(s)) && Strip(s) in types && types[Strip(s)] == path
  {
    if s.Array? {
      MentionedIsCached(types, s.inner, ty.inner, path);
    }
  }

  /** After a derivation, the type name of a field of structure `s` stands for a declaration at exactly
      that path, and that declaration is built from `s` (from the structure inside its arrays). If paths are
      declared once, it is the only one there. */
  lemma MentionResolves(
    naming: Naming, types: Types, provided: set<Declared>, key: string, f: Field, out: FieldDecl, path: Path
  )
    returns (d: Decl)
    requires Backed(naming, map[], types, provided) && FieldFor(naming, types, key, f, out) && path in Mentions(out.ty)
    ensures (path, d) in provided && DeclFor(naming, types, Strip(f.sir), d)
    ensures DeclaredOnce(provided) ==> forall e: Decl :: (path, e) in provided ==> e == d
  {
    MentionedIsCached(types, f.sir, out.ty, path);
    assert BackedBy(naming, types, Strip(f.sir), provided);
    d :| (types[Strip(f.sir)], d) in provided && DeclFor(naming, types, Strip(f.sir), d);
  }

  /** The fields of a declaration, including those of its sub-types. */
  function AllFields(d: Decl): set<FieldDecl> {
    match d
    case TypeDecl(_, members) => set f <- FieldsOf(members)
    case TupleDecl(_, members) => set f <- FieldsOf(members)
    case InterfaceDecl(_, _, subs) =>
      set i, f | 0 <= i < |subs| && f in FieldsOf(subs[i].members) :: f
  }

  /** The entries of a structure, including those of its sub-types. */
  function AllEntries(s: Sir): set<Entry> {
    match s
    case Object(entries) => set e <- entries
    case Tuple(items) => set e <- ItemEntries(items)
    case Interface(_, subs) => set i, e | 0 <= i < |subs| && e in subs[i].structure :: e
    case _ => {}
  }

  /** Every field of a declaration built from a structure comes from an entry of that structure. */
  lemma {:induction false} FieldHasSource(naming: Naming, types: Types, s: Sir, d: Decl, out: FieldDecl)
    returns (e: Entry)
    requires DeclFor(naming, types, s, d) && out in AllFields(d)
    ensures e in AllEntries(Strip(s)) && FieldFor(naming, types, e.key, e.field, out)
  {
    match s {
      case Object(entries) =>
        var i :| 0 <= i < |entries| && FieldsOf(d.members)[i] == out;
        e := entries[i];
      case Tuple(items) =>
        var i :| 0 <= i < |items| && FieldsOf(d.members)[i] == out;
        e := ItemEntries(items)[i];
        assert Strip(s) == s;
      case Interface(_, subs) =>
        var k :| 0 <= k < |subs| && out in FieldsOf(d.subTypes[k].members);
        assert SubTypeFor(naming, types, subs[k], d.subTypes[k]);
        var i :| 0 <= i < |subs[k].structure| && FieldsOf(d.subTypes[k].members)[i] == out;
        e := subs[k].structure[i];
        assert Strip(s) == s && e in subs[k].structure;
      case Array(inner) => e := FieldHasSource(naming, types, inner, d, out);
    }
  }

  /** Every type name mentioned anywhere in a derived declaration is declared in it, at that path. */
  lemma EveryMentionDeclared(
    naming: Naming, types: Types, root: Path, s: Sir, d: Decl, e: Declared, out: FieldDecl, path: Path
  )
    requires Derived(naming, types, root, s, d) && e in Provided(root, d)
    requires out in AllFields(e.1) && path in Mentions(out.ty)
    ensures exists f :: f in ProvidedInside(root, d) && f.0 == path
  {
    hide DeclFor, FieldFor, Backed, Provided, ProvidedInside, Inner, Named, AllFields, AllEntries, Mentions;
    var t := SourceOf(naming, types, root, s, d, e);
    var entry := FieldHasSource(naming, types, t, e.1, out);
    var f := MentionResolves(naming, types, ProvidedInside(root, d), entry.key, entry.field, out, path);
    assert (path, f) in ProvidedInside(root, d);
  }

  /** Every declaration is built from a structure in the document. */
  lemma SourceOf(naming: Naming, types: Types, root: Path, s: Sir, d: Decl, e: Declared) returns (t: Sir)
    requires Derived(naming, types, root, s, d) && e in Provided(root, d)
    ensures (t == s && e == (root, d)) || t in Inner(s)
    ensures DeclFor(naming, types, t, e.1)
  {
    hide DeclFor, ProvidedInside, Inner, Named;
    t := s;
    if e in ProvidedInside(root, d) {
      assert Builds(naming, map[], types, e);
      t :| t in types && types[t] == e.0 && DeclFor(naming, types, t, e.1);
    }
  }
}
