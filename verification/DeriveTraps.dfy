/** Documents whose derived declarations share a path, or only seem to, and documents whose derived
    declarations the checker refuses. */
module DeriveTraps {
  import opened Wrappers
  import opened Sir
  import opened Inference
  import opened Occurrences
  import opened Derive
  import DerivedSchemas
  import Schema
  import SchemaRules

  function OneEntry(key: string, s: Sir): Sir { Object([Entry(key, Field(false, s))]) }

  function TwoEntries(k: string, s: Sir, l: string, t: Sir): Sir {
    Object([Entry(k, Field(false, s)), Entry(l, Field(false, t))])
  }

  lemma OneStructs(key: string, s: Sir)
    ensures Structs(OneEntry(key, s)) == {OneEntry(key, s)} + Structs(s)
  {
    var entries := [Entry(key, Field(false, s))];
    assert entries[..0] == [] && EntryStructs(entries) == EntryStructs([]) + Structs(s);
  }

  function Ident(naming: Naming, key: string): string { naming.pascal(naming.snake(key)) }

  // Two declarations at one path

  const COUNT: Sir := OneEntry("m", U64)
  const LABEL: Sir := OneEntry("n", String)

  /** `{"a_b": {"m": 1}, "aB": {"n": "z"}}` */
  const CLASHING: Sir := TwoEntries("a_b", COUNT, "aB", LABEL)

  lemma ClashingDocument()
    ensures SirOf(JObj([
      ("a_b", JObj([("m", JNum(Unsigned))])),
      ("aB", JObj([("n", JStr("z", false))]))
    ])) == Some(CLASHING)
  {
    var first, second := JObj([("m", JNum(Unsigned))]), JObj([("n", JStr("z", false))]);
    ObjectOf(first.entries, COUNT.fields);
    ObjectOf(second.entries, LABEL.fields);
    hide SirOf;
    ObjectOf([("a_b", first), ("aB", second)], CLASHING.fields);
  }

  lemma DifferentStructs()
    ensures COUNT != LABEL && Structs(COUNT) == {COUNT} && Structs(LABEL) == {LABEL}
  {
    OneStructs("m", U64);
    OneStructs("n", String);
    assert COUNT.fields[0] != LABEL.fields[0];
  }

  lemma ClashingFirsts()
    ensures First({}, CLASHING.fields, 0) && First({}, CLASHING.fields, 1)
    ensures LABEL !in SeenBefore({}, CLASHING.fields, 1)
  {
    var entries := CLASHING.fields;
    DifferentStructs();
    assert entries[..0] == [] && entries[..1] == [] + [entries[0]];
    EntryStructsSnoc([], entries[0]);
  }

  /** Both structures occur for the first time, so the identifiers of their keys decide. */
  lemma ClashingOnce(naming: Naming)
    ensures Once(naming, {}, CLASHING) <==> Ident(naming, "a_b") != Ident(naming, "aB")
  {
    ClashingFirsts();
    var entries := CLASHING.fields;
    assert EntryIdent(naming, entries[0]) == Ident(naming, "a_b");
    assert EntryIdent(naming, entries[1]) == Ident(naming, "aB");
    ScalarsOnce(naming, SeenBefore({}, entries, 0) + {COUNT}, "m", U64);
    ScalarsOnce(naming, SeenBefore({}, entries, 1) + {LABEL}, "n", String);
    assert Strip(COUNT) == COUNT && Strip(LABEL) == LABEL;
    hide First, SeenBefore, EntryIdent, Strip;
  }

  lemma OneOnce(naming: Naming, seen: set<Sir>, key: string, s: Sir)
    ensures Once(naming, seen, OneEntry(key, s)) <==> (New(seen, s) ==> Once(naming, seen + {Strip(s)}, s))
  {
    var e := Entry(key, Field(false, s));
    assert [] + [e] == OneEntry(key, s).fields && seen == seen + EntryStructs([]);
    OnceNext(naming, seen, seen, [], e);
  }

  lemma ScalarsOnce(naming: Naming, seen: set<Sir>, key: string, s: Sir)
    requires Scalar(s)
    ensures Once(naming, seen, OneEntry(key, s))
  {
    OneOnce(naming, seen, key, s);
    hide Once;
  }

  /** Two structures that are cached under one path are two declarations there. */
  lemma SharedPath(naming: Naming, types: Types, path: Path, d: Decl)
    requires Derived(naming, types, path, CLASHING, d) && Ident(naming, "a_b") == Ident(naming, "aB")
    ensures !DeclaredOnce(Provided(path, d))
  {
    var provided := ProvidedInside(path, d);
    ClashingNames(naming, types, path);
    hide Named, Inner, Provided, ProvidedInside, DeclFor;
    assert BackedBy(naming, types, COUNT, provided) && BackedBy(naming, types, LABEL, provided);
    var first :| (types[COUNT], first) in provided && DeclFor(naming, types, COUNT, first);
    var second :| (types[LABEL], second) in provided && DeclFor(naming, types, LABEL, second);
    DifferentDecls(naming, types, first, second);
    InsideProvided(path, d, (types[COUNT], first));
    InsideProvided(path, d, (types[LABEL], second));
  }

  lemma InsideProvided(path: Path, d: Decl, e: Declared)
    requires e in ProvidedInside(path, d)
    ensures e in Provided(path, d)
  {
  }

  lemma ClashingNames(naming: Naming, types: Types, path: Path)
    requires Named(naming, {}, types, path, CLASHING)
    ensures COUNT in types && types[COUNT] == path + [Ident(naming, "a_b")]
    ensures LABEL in types && types[LABEL] == path + [Ident(naming, "aB")]
  {
    var entries := CLASHING.fields;
    ClashingFirsts();
    assert entries[0].key == "a_b" && entries[0].field.sir == COUNT && Strip(COUNT) == COUNT;
    assert entries[1].key == "aB" && entries[1].field.sir == LABEL && Strip(LABEL) == LABEL;
    hide First, SeenBefore, Strip, Named;
    assert EntryNamed(naming, SeenBefore({}, entries, 0), types, path, "a_b", COUNT);
    assert EntryNamed(naming, SeenBefore({}, entries, 1), types, path, "aB", LABEL);
  }

  lemma DifferentDecls(naming: Naming, types: Types, first: Decl, second: Decl)
    requires DeclFor(naming, types, COUNT, first) && DeclFor(naming, types, LABEL, second)
    ensures first != second
  {
    assert FieldFor(naming, types, "m", COUNT.fields[0].field, FieldsOf(first.members)[0]);
    assert FieldFor(naming, types, "n", LABEL.fields[0].field, FieldsOf(second.members)[0]);
  }

  /** If the case conversions do not tell `a_b` from `aB`, the document has two different declarations at one
      path. */
  method DeriveClashing(naming: Naming, root: string) returns (d: Decl)
    requires Ident(naming, "a_b") == Ident(naming, "aB")
    ensures d.ident == root && !DeclaredOnce(Provided([root], d))
  {
    var r;
    ghost var types;
    r, types := Derive.Derive(naming, root, CLASHING);
    SharedPath(naming, types, [root], r.value);
    d := r.value;
  }

  // Names that agree without harm

  const COUNTS: Sir := OneEntry("x", COUNT)
  const LABELS: Sir := OneEntry("y", LABEL)

  /** `{"b": {"x": {"m": 1}}, "c": {"y": {"n": "z"}}, "z_b": {"m": 1}, "zB": {"n": "z"}}` */
  const REPEATING: Sir := Object(REPEATING_ENTRIES)

  const REPEATING_ENTRIES: seq<Entry> := [
    Entry("b", Field(false, COUNTS)),
    Entry("c", Field(false, LABELS)),
    Entry("z_b", Field(false, COUNT)),
    Entry("zB", Field(false, LABEL))
  ]

  lemma RepeatingStructs()
    ensures Structs(COUNTS) == {COUNTS, COUNT} && Structs(LABELS) == {LABELS, LABEL}
    ensures COUNTS != LABELS && COUNTS != COUNT && COUNTS != LABEL && LABELS != COUNT && LABELS != LABEL
  {
    DifferentStructs();
    OneStructs("x", COUNT);
    OneStructs("y", LABEL);
    assert COUNTS.fields[0].field.sir == COUNT && LABELS.fields[0].field.sir == LABEL;
    assert COUNT.fields[0].field.sir == U64 && LABEL.fields[0].field.sir == String;
  }

  lemma OldNext(naming: Naming, entries: seq<Entry>, e: Entry)
    requires Strip(e.field.sir) in EntryStructs(entries)
    ensures EntriesOnce(naming, {}, entries + [e]) <==> EntriesOnce(naming, {}, entries)
  {
    var now := EntryStructs(entries);
    assert {} + now == now && !New(now, e.field.sir);
    hide *;
    OnceNext(naming, {}, now, entries, e);
  }

  lemma SecondNext(naming: Naming, d: Entry, e: Entry)
    requires Struct(Strip(d.field.sir)) && New(Structs(d.field.sir), e.field.sir)
    requires Once(naming, {Strip(d.field.sir)}, d.field.sir)
    requires Once(naming, Structs(d.field.sir) + {Strip(e.field.sir)}, e.field.sir)
    ensures EntriesOnce(naming, {}, [d, e]) <==> EntryIdent(naming, d) != EntryIdent(naming, e)
  {
    var none: set<Sir>, now := {}, Structs(d.field.sir);
    assert none + {Strip(d.field.sir)} == {Strip(d.field.sir)};
    assert EntryStructs([]) == none && EntriesOnce(naming, none, []) && FirstIdents(naming, none, []) == {};
    assert New(none, d.field.sir);
    hide *;
    assert [] + [d] == [d] && [d] + [e] == [d, e];
    EntryStructsSnoc([], d);
    assert none + now == now;
    OnceNext(naming, none, none, [], d);
    OnceNext(naming, none, now, [d], e);
  }

  /** Two structures that bring others along, and then those others. */
  lemma OthersRepeat(naming: Naming, es: seq<Entry>)
    requires |es| == 4
    requires Struct(Strip(es[0].field.sir)) && New(Structs(es[0].field.sir), es[1].field.sir)
    requires Strip(es[2].field.sir) in Structs(es[0].field.sir) && Strip(es[3].field.sir) in Structs(es[1].field.sir)
    requires Once(naming, {Strip(es[0].field.sir)}, es[0].field.sir)
    requires Once(naming, Structs(es[0].field.sir) + {Strip(es[1].field.sir)}, es[1].field.sir)
    ensures EntriesOnce(naming, {}, es) <==> EntryIdent(naming, es[0]) != EntryIdent(naming, es[1])
  {
    hide *;
    var first, second, third := [es[0]], [es[0], es[1]], [es[0], es[1], es[2]];
    assert [] + [es[0]] == first && first + [es[1]] == second && second + [es[2]] == third && third + [es[3]] == es;
    EntryStructsSnoc([], es[0]);
    EntryStructsSnoc(first, es[1]);
    EntryStructsSnoc(second, es[2]);
    SecondNext(naming, es[0], es[1]);
    OldNext(naming, second, es[2]);
    OldNext(naming, third, es[3]);
  }

  lemma RepeatingParts()
    ensures var es := REPEATING_ENTRIES;
      && Struct(Strip(es[0].field.sir)) && New(Structs(es[0].field.sir), es[1].field.sir)
      && Strip(es[2].field.sir) in Structs(es[0].field.sir) && Strip(es[3].field.sir) in Structs(es[1].field.sir)
  {
    RepeatingStructs();
    assert Strip(COUNTS) == COUNTS && Strip(LABELS) == LABELS && Strip(COUNT) == COUNT && Strip(LABEL) == LABEL;
    hide Structs, Strip;
  }

  lemma RepeatingIs(naming: Naming)
    ensures var es := REPEATING_ENTRIES;
      && (Once(naming, {}, REPEATING) <==> EntriesOnce(naming, {}, es))
      && EntryIdent(naming, es[0]) == Ident(naming, "b") && EntryIdent(naming, es[1]) == Ident(naming, "c")
      && |es| == 4 && es[0].field.sir == COUNTS && es[1].field.sir == LABELS
  {
    hide EntriesOnce;
  }

  /** The structures under `z_b` and `zB` have occurred before, so it does not matter whether the case
      conversions tell those keys apart. */
  lemma RepeatingOnce(naming: Naming)
    ensures Once(naming, {}, REPEATING) <==> Ident(naming, "b") != Ident(naming, "c")
  {
    hide *;
    RepeatingParts();
    RepeatingIs(naming);
    NestedOnce(naming, {Strip(COUNTS)}, "x", COUNT);
    NestedOnce(naming, Structs(COUNTS) + {Strip(LABELS)}, "y", LABEL);
    OneEntries();
    OthersRepeat(naming, REPEATING_ENTRIES);
  }

  lemma OneEntries()
    ensures COUNTS == OneEntry("x", COUNT) && LABELS == OneEntry("y", LABEL)
  {
  }

  lemma NestedOnce(naming: Naming, seen: set<Sir>, key: string, s: Sir)
    requires s == COUNT || s == LABEL
    ensures Once(naming, seen, OneEntry(key, s))
  {
    OneOnce(naming, seen, key, s);
    if s == COUNT {
      ScalarsOnce(naming, seen + {Strip(s)}, "m", U64);
    } else {
      ScalarsOnce(naming, seen + {Strip(s)}, "n", String);
    }
    hide Once;
  }

  // Declarations that the checker refuses

  /** Whatever the sub-types are, an interface that is told apart by another key than `type` is derived as a
      declaration that no file may hold. */
  method DeriveUnusualTag(naming: Naming, root: string, tag: string, subs: seq<SubType>) returns (d: Decl)
    requires tag != Schema.DEFAULT_TAG
    ensures d.ident == root && forall scope :: !SchemaRules.DeclOk(scope, DerivedSchemas.DeclAst(d))
  {
    var s := Interface(tag, subs);
    var r;
    ghost var types;
    r, types := Derive.Derive(naming, root, s);
    d := r.value;
    assert s in Structs(s);
    hide Derived, Structs, SchemaRules.DeclOk, DerivedSchemas.DeclAst;
    forall scope: SchemaRules.Scope
      ensures !SchemaRules.DeclOk(scope, DerivedSchemas.DeclAst(d))
    {
      DerivedSchemas.UnusualTagRefused(scope, naming, types, [root], s, d, s);
    }
  }
}
