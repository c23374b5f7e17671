/** Where structures occur inside a structure, in the order in which they are derived, and under which
    names: the condition for a derivation to declare every path once. */
module Occurrences {
  import opened Sir
  import Decimal

  /** The case conversions. */
  datatype Naming = Naming(snake: string -> string, pascal: string -> string)

  type Path = seq<string>

  type Types = map<Sir, Path>

  /** What is declared under a name of its own, and therefore cached. */
  predicate Struct(s: Sir) { s.Object? || s.Interface? || s.Tuple? }

  /** The structure inside any arrays. */
  function Strip(s: Sir): Sir { if s.Array? then Strip(s.inner) else s }

  function ItemKey(i: nat): string { "field_" + Decimal.Digits(i) }

  /** The items of a tuple, under the keys that number them. */
  function ItemEntries(items: seq<Field>): (entries: seq<Entry>)
    ensures |entries| == |items|
  {
    seq(|items|, i requires 0 <= i < |items| => Entry(ItemKey(i), items[i]))
  }

  /** What a structure under `key` is declared as: names are converted once for every array around it. */
  function InnerIdent(naming: Naming, key: string, s: Sir): string
    decreases s
  {
    if s.Array? then InnerIdent(naming, naming.snake(key), s.inner) else naming.pascal(naming.snake(key))
  }

  function EntryIdent(naming: Naming, e: Entry): string { InnerIdent(naming, e.key, e.field.sir) }

  // Sizes

  function Size(s: Sir): nat
    decreases s, 0
  {
    match s
    case Object(entries) => 1 + EntriesSize(entries)
    case Interface(_, subs) => 1 + SubTypesSize(subs)
    case Array(inner) => 1 + Size(inner)
    case Tuple(items) => 1 + ItemsSize(items)
    case _ => 0
  }

  function EntriesSize(entries: seq<Entry>): nat
    decreases entries, 1
  {
    if entries == [] then 0
    else
      var last := entries[|entries| - 1];
      EntriesSize(entries[..|entries| - 1]) + 1 + Size(last.field.sir)
  }

  function ItemsSize(items: seq<Field>): nat
    decreases items, 1
  {
    if items == [] then 0
    else
      var last := items[|items| - 1];
      assert last.sir < last;
      ItemsSize(items[..|items| - 1]) + 1 + Size(last.sir)
  }

  function SubTypesSize(subs: seq<SubType>): nat
    decreases subs, 1
  {
    if subs == [] then 0
    else
      var last := subs[|subs| - 1];
      SubTypesSize(subs[..|subs| - 1]) + 1 + EntriesSize(last.structure)
  }

  lemma {:induction false} ItemEntriesSize(items: seq<Field>)
    ensures EntriesSize(ItemEntries(items)) == ItemsSize(items)
  {
    if items != [] {
      var n := |items| - 1;
      ItemEntriesSize(items[..n]);
      assert ItemEntries(items)[..n] == ItemEntries(items[..n]);
    }
  }

  lemma {:induction false} EntrySmaller(entries: seq<Entry>, i: nat)
    requires i < |entries|
    ensures Size(entries[i].field.sir) < EntriesSize(entries)
    decreases |entries|
  {
    var n := |entries| - 1;
    if i < n {
      EntrySmaller(entries[..n], i);
    }
  }

  lemma {:induction false} SubTypeSmaller(subs: seq<SubType>, i: nat)
    requires i < |subs|
    ensures EntriesSize(subs[i].structure) < SubTypesSize(subs)
    decreases |subs|
  {
    var n := |subs| - 1;
    if i < n {
      SubTypeSmaller(subs[..n], i);
    }
  }

  // The structures inside a structure

  /** The structures that `s` brings along: the one that it is, inside its arrays, and all inside that. */
  function Structs(s: Sir): set<Sir>
    decreases Size(s), 1
  {
    if Struct(Strip(s)) then {Strip(s)} + Inner(s) else {}
  }

  function Inner(s: Sir): set<Sir>
    decreases Size(s), 0
  {
    match s
    case Object(entries) => EntryStructs(entries)
    case Interface(_, subs) => SubTypeStructs(subs)
    case Array(inner) => Inner(inner)
    case Tuple(items) => ItemEntriesSize(items); EntryStructs(ItemEntries(items))
    case _ => {}
  }

  function EntryStructs(entries: seq<Entry>): set<Sir>
    decreases EntriesSize(entries), 2
  {
    if entries == [] then {}
    else
      var last := entries[|entries| - 1];
      EntryStructs(entries[..|entries| - 1]) + Structs(last.field.sir)
  }

  function SubTypeStructs(subs: seq<SubType>): set<Sir>
    decreases SubTypesSize(subs), 2
  {
    if subs == [] then {}
    else
      var last := subs[|subs| - 1];
      SubTypeStructs(subs[..|subs| - 1]) + EntryStructs(last.structure)
  }

  lemma EntryStructsSnoc(entries: seq<Entry>, e: Entry)
    ensures EntryStructs(entries + [e]) == EntryStructs(entries) + Structs(e.field.sir)
  {
    assert (entries + [e])[..|entries|] == entries;
  }

  lemma SubTypeStructsSnoc(subs: seq<SubType>, sub: SubType)
    ensures SubTypeStructs(subs + [sub]) == SubTypeStructs(subs) + EntryStructs(sub.structure)
  {
    assert (subs + [sub])[..|subs|] == subs;
  }

  /** A structure inside another is smaller, and brings nothing along that the other does not. */
  lemma {:induction false} InnerSmaller(s: Sir, t: Sir)
    requires t in Inner(s)
    ensures Struct(t) && Size(t) < Size(s) && Structs(t) <= Inner(s)
    decreases Size(s), 0
  {
    match s {
      case Object(entries) => EntryStructSmaller(entries, t);
      case Interface(_, subs) => SubTypeStructSmaller(subs, t);
      case Array(inner) => InnerSmaller(inner, t);
      case Tuple(items) =>
        ItemEntriesSize(items);
        EntryStructSmaller(ItemEntries(items), t);
    }
  }

  lemma {:induction false} StripInner(s: Sir)
    ensures Inner(Strip(s)) == Inner(s) && Size(Strip(s)) <= Size(s)
    ensures Structs(Strip(s)) == Structs(s)
  {
    if s.Array? {
      StripInner(s.inner);
    }
  }

  lemma {:induction false} StructSmaller(s: Sir, t: Sir)
    requires t in Structs(s)
    ensures Struct(t) && Size(t) <= Size(s) && Structs(t) <= Structs(s)
    decreases Size(s), 1
  {
    StripInner(s);
    if t in Inner(s) {
      InnerSmaller(s, t);
    }
  }

  lemma {:induction false} EntryStructSmaller(entries: seq<Entry>, t: Sir)
    requires t in EntryStructs(entries)
    ensures Struct(t) && Size(t) < EntriesSize(entries) && Structs(t) <= EntryStructs(entries)
    decreases EntriesSize(entries), 2
  {
    var n := |entries| - 1;
    if t in EntryStructs(entries[..n]) {
      EntryStructSmaller(entries[..n], t);
    } else {
      StructSmaller(entries[n].field.sir, t);
    }
  }

  lemma {:induction false} SubTypeStructSmaller(subs: seq<SubType>, t: Sir)
    requires t in SubTypeStructs(subs)
    ensures Struct(t) && Size(t) < SubTypesSize(subs) && Structs(t) <= SubTypeStructs(subs)
    decreases SubTypesSize(subs), 2
  {
    var n := |subs| - 1;
    if t in SubTypeStructs(subs[..n]) {
      SubTypeStructSmaller(subs[..n], t);
    } else {
      EntryStructSmaller(subs[n].structure, t);
    }
  }

  /** No structure occurs inside itself. */
  lemma NotInside(s: Sir)
    ensures Strip(s) !in Inner(s)
  {
    StripInner(s);
    if Strip(s) in Inner(Strip(s)) {
      InnerSmaller(Strip(s), Strip(s));
    }
  }

  // What a cache must hold

  /** What is cached of `structs` is cached with everything inside it. */
  predicate Ready(seen: set<Sir>, structs: set<Sir>) {
    forall t :: t in seen && t in structs ==> Structs(t) <= seen
  }

  lemma ReadyCached(seen: set<Sir>, s: Sir)
    requires Ready(seen, Structs(s)) && Struct(Strip(s)) && Strip(s) in seen
    ensures Structs(s) <= seen
  {
    StripInner(s);
  }

  lemma ReadyInner(seen: set<Sir>, s: Sir)
    requires Ready(seen, Structs(s)) && Struct(Strip(s))
    ensures Ready(seen + {Strip(s)}, Inner(s))
  {
    NotInside(s);
  }

  lemma ReadyNext(seen: set<Sir>, now: set<Sir>, entries: seq<Entry>, e: Entry)
    requires Ready(seen, EntryStructs(entries + [e]))
    ensures Ready(seen, EntryStructs(entries))
    ensures now == seen + EntryStructs(entries) ==>
      Ready(now, Structs(e.field.sir)) && seen + EntryStructs(entries + [e]) == now + Structs(e.field.sir)
  {
    EntryStructsSnoc(entries, e);
    forall t | t in EntryStructs(entries)
      ensures Structs(t) <= EntryStructs(entries)
    {
      EntryStructSmaller(entries, t);
    }
  }

  lemma ReadyNextSubType(seen: set<Sir>, now: set<Sir>, subs: seq<SubType>, sub: SubType)
    requires Ready(seen, SubTypeStructs(subs + [sub]))
    ensures Ready(seen, SubTypeStructs(subs))
    ensures now == seen + SubTypeStructs(subs) ==>
      && Ready(now, EntryStructs(sub.structure))
      && seen + SubTypeStructs(subs + [sub]) == now + EntryStructs(sub.structure)
  {
    SubTypeStructsSnoc(subs, sub);
    forall t | t in SubTypeStructs(subs)
      ensures Structs(t) <= SubTypeStructs(subs)
    {
      SubTypeStructSmaller(subs, t);
    }
  }

  // First occurrences

  predicate New(seen: set<Sir>, s: Sir) { Struct(Strip(s)) && Strip(s) !in seen }

  /** What has been seen before entry `i`: what was seen before all of them, and what those before it bring. */
  function SeenBefore(seen: set<Sir>, entries: seq<Entry>, i: nat): set<Sir>
    requires i <= |entries|
  {
    seen + EntryStructs(entries[..i])
  }

  /** The structure of entry `i` occurs there for the first time. */
  predicate First(seen: set<Sir>, entries: seq<Entry>, i: nat)
    requires i < |entries|
  {
    New(SeenBefore(seen, entries, i), entries[i].field.sir)
  }

  /** The names of the structures that occur for the first time. */
  function FirstIdents(naming: Naming, seen: set<Sir>, entries: seq<Entry>): set<string> {
    set i | 0 <= i < |entries| && First(seen, entries, i) :: EntryIdent(naming, entries[i])
  }

  /** In every object, tuple and sub-type inside `s`, the structures that occur there for the first time
      have different names; so have the sub-types of every interface. */
  predicate Once(naming: Naming, seen: set<Sir>, s: Sir)
    decreases Size(s), 0
  {
    match s
    case Object(entries) => EntriesOnce(naming, seen, entries)
    case Interface(_, subs) => SubTypesOnce(naming, seen, subs)
    case Array(inner) => Once(naming, seen, inner)
    case Tuple(items) => ItemEntriesSize(items); EntriesOnce(naming, seen, ItemEntries(items))
    case _ => true
  }

  predicate EntriesOnce(naming: Naming, seen: set<Sir>, entries: seq<Entry>)
    decreases EntriesSize(entries), 1
  {
    && (forall i, k :: 0 <= i < k < |entries| && First(seen, entries, i) && First(seen, entries, k) ==>
          EntryIdent(naming, entries[i]) != EntryIdent(naming, entries[k]))
    && (forall i :: 0 <= i < |entries| && First(seen, entries, i) ==>
          (EntrySmaller(entries, i);
           Once(naming, SeenBefore(seen, entries, i) + {Strip(entries[i].field.sir)}, entries[i].field.sir)))
  }

  predicate SubTypesOnce(naming: Naming, seen: set<Sir>, subs: seq<SubType>)
    decreases SubTypesSize(subs), 1
  {
    && (forall i, k :: 0 <= i < k < |subs| ==> naming.pascal(subs[i].name) != naming.pascal(subs[k].name))
    && (forall i :: 0 <= i < |subs| ==>
          (SubTypeSmaller(subs, i); EntriesOnce(naming, seen + SubTypeStructs(subs[..i]), subs[i].structure)))
  }

  lemma FirstPrefix(seen: set<Sir>, entries: seq<Entry>, e: Entry)
    ensures forall i :: 0 <= i < |entries| ==>
      (First(seen, entries + [e], i) <==> First(seen, entries, i)) &&
      SeenBefore(seen, entries + [e], i) == SeenBefore(seen, entries, i)
    ensures First(seen, entries + [e], |entries|) <==> New(seen + EntryStructs(entries), e.field.sir)
    ensures SeenBefore(seen, entries + [e], |entries|) == seen + EntryStructs(entries)
  {
    hide New, EntryStructs;
    assert (entries + [e])[..|entries|] == entries;
    forall i | 0 <= i < |entries|
      ensures (entries + [e])[..i] == entries[..i] && (entries + [e])[i] == entries[i]
    {
    }
  }

  /** One more entry, when `now` has been seen. */
  lemma OnceNext(naming: Naming, seen: set<Sir>, now: set<Sir>, entries: seq<Entry>, e: Entry)
    requires now == seen + EntryStructs(entries)
    ensures FirstIdents(naming, seen, entries + [e]) ==
      FirstIdents(naming, seen, entries) + if New(now, e.field.sir) then {EntryIdent(naming, e)} else {}
    ensures EntriesOnce(naming, seen, entries + [e]) <==>
      && EntriesOnce(naming, seen, entries)
      && (New(now, e.field.sir) ==>
            && EntryIdent(naming, e) !in FirstIdents(naming, seen, entries)
            && Once(naming, now + {Strip(e.field.sir)}, e.field.sir))
  {
    var all := entries + [e];
    FirstPrefix(seen, entries, e);
    hide First, SeenBefore, New, EntryStructs, Strip, EntryIdent, Once;
    assert all[|entries|] == e;
    forall i | 0 <= i < |entries|
      ensures all[i] == entries[i]
    {
    }
    IdentsNext(naming, seen, entries, e);
  }

  lemma IdentsNext(naming: Naming, seen: set<Sir>, entries: seq<Entry>, e: Entry)
    ensures FirstIdents(naming, seen, entries + [e]) ==
      FirstIdents(naming, seen, entries) +
      (if New(seen + EntryStructs(entries), e.field.sir) then {EntryIdent(naming, e)} else {})
  {
    var all := entries + [e];
    FirstPrefix(seen, entries, e);
    hide First, SeenBefore, New, EntryStructs, EntryIdent;
    assert all[|entries|] == e;
    forall n | n in FirstIdents(naming, seen, entries)
      ensures n in FirstIdents(naming, seen, all)
    {
      var i :| 0 <= i < |entries| && First(seen, entries, i) && EntryIdent(naming, entries[i]) == n;
      assert all[i] == entries[i] && First(seen, all, i);
    }
    forall n | n in FirstIdents(naming, seen, all)
      ensures n in FirstIdents(naming, seen, entries) || (First(seen, all, |entries|) && n == EntryIdent(naming, e))
    {
      var i :| 0 <= i < |all| && First(seen, all, i) && EntryIdent(naming, all[i]) == n;
      if i < |entries| {
        assert all[i] == entries[i] && First(seen, entries, i);
      }
    }
    if First(seen, all, |entries|) {
      assert EntryIdent(naming, all[|entries|]) in FirstIdents(naming, seen, all);
    }
  }

  lemma SubTypesOnceNext(naming: Naming, seen: set<Sir>, now: set<Sir>, subs: seq<SubType>, sub: SubType)
    requires now == seen + SubTypeStructs(subs)
    ensures SubTypesOnce(naming, seen, subs + [sub]) <==>
      && SubTypesOnce(naming, seen, subs)
      && (forall i :: 0 <= i < |subs| ==> naming.pascal(subs[i].name) != naming.pascal(sub.name))
      && EntriesOnce(naming, now, sub.structure)
  {
    var all := subs + [sub];
    hide EntriesOnce, SubTypeStructs;
    assert all[|subs|] == sub && all[..|subs|] == subs;
    forall i | 0 <= i < |subs|
      ensures all[i] == subs[i] && all[..i] == subs[..i]
    {
    }
  }

  // Where structures are named

  predicate Includes(larger: Types, smaller: Types) {
    forall s :: s in smaller ==> s in larger && larger[s] == smaller[s]
  }

  /** Every structure that occurs for the first time inside `s`, which stands at `ctx`, is named after the
      place where it does. */
  predicate Named(naming: Naming, seen: set<Sir>, types: Types, ctx: Path, s: Sir)
    decreases Size(s), 0
  {
    match s
    case Object(entries) => EntriesNamed(naming, seen, types, ctx, entries)
    case Interface(_, subs) => SubTypesNamed(naming, seen, types, ctx, subs)
    case Array(inner) => Named(naming, seen, types, ctx, inner)
    case Tuple(items) => ItemEntriesSize(items); EntriesNamed(naming, seen, types, ctx, ItemEntries(items))
    case _ => true
  }

  predicate EntriesNamed(naming: Naming, seen: set<Sir>, types: Types, ctx: Path, entries: seq<Entry>)
    decreases EntriesSize(entries), 2
  {
    forall i :: 0 <= i < |entries| && First(seen, entries, i) ==>
      (EntrySmaller(entries, i);
       EntryNamed(naming, SeenBefore(seen, entries, i), types, ctx, entries[i].key, entries[i].field.sir))
  }

  predicate EntryNamed(naming: Naming, seen: set<Sir>, types: Types, ctx: Path, key: string, s: Sir)
    decreases Size(s), 1
  {
    var path := ctx + [InnerIdent(naming, key, s)];
    Strip(s) in types && types[Strip(s)] == path && Named(naming, seen + {Strip(s)}, types, path, s)
  }

  predicate SubTypesNamed(naming: Naming, seen: set<Sir>, types: Types, ctx: Path, subs: seq<SubType>)
    decreases SubTypesSize(subs), 1
  {
    forall i :: 0 <= i < |subs| ==>
      (SubTypeSmaller(subs, i);
       EntriesNamed(
         naming, seen + SubTypeStructs(subs[..i]), types, ctx + [naming.pascal(subs[i].name)], subs[i].structure))
  }

  lemma {:induction false} NamedGrows(
    naming: Naming, seen: set<Sir>, before: Types, after: Types, ctx: Path, s: Sir
  )
    requires Named(naming, seen, before, ctx, s) && Includes(after, before)
    ensures Named(naming, seen, after, ctx, s)
    decreases Size(s), 0
  {
    match s {
      case Object(entries) => EntriesNamedGrow(naming, seen, before, after, ctx, entries);
      case Interface(_, subs) => SubTypesNamedGrow(naming, seen, before, after, ctx, subs);
      case Array(inner) => NamedGrows(naming, seen, before, after, ctx, inner);
      case Tuple(items) =>
        ItemEntriesSize(items);
        EntriesNamedGrow(naming, seen, before, after, ctx, ItemEntries(items));
      case _ =>
    }
  }

  lemma {:induction false} EntriesNamedGrow(
    naming: Naming, seen: set<Sir>, before: Types, after: Types, ctx: Path, entries: seq<Entry>
  )
    requires EntriesNamed(naming, seen, before, ctx, entries) && Includes(after, before)
    ensures EntriesNamed(naming, seen, after, ctx, entries)
    decreases EntriesSize(entries), 2
  {
    hide First, SeenBefore, Strip, InnerIdent;
    forall i | 0 <= i < |entries| && First(seen, entries, i)
      ensures EntryNamed(naming, SeenBefore(seen, entries, i), after, ctx, entries[i].key, entries[i].field.sir)
    {
      EntrySmaller(entries, i);
      var e, now := entries[i], SeenBefore(seen, entries, i);
      assert EntryNamed(naming, now, before, ctx, e.key, e.field.sir);
      NamedGrows(naming, now + {Strip(e.field.sir)}, before, after, ctx + [EntryIdent(naming, e)], e.field.sir);
    }
  }

  lemma {:induction false} SubTypesNamedGrow(
    naming: Naming, seen: set<Sir>, before: Types, after: Types, ctx: Path, subs: seq<SubType>
  )
    requires SubTypesNamed(naming, seen, before, ctx, subs) && Includes(after, before)
    ensures SubTypesNamed(naming, seen, after, ctx, subs)
    decreases SubTypesSize(subs), 1
  {
    hide EntriesNamed, SubTypeStructs;
    forall i | 0 <= i < |subs|
      ensures EntriesNamed(
        naming, seen + SubTypeStructs(subs[..i]), after, ctx + [naming.pascal(subs[i].name)], subs[i].structure)
    {
      SubTypeSmaller(subs, i);
      EntriesNamedGrow(
        naming, seen + SubTypeStructs(subs[..i]), before, after, ctx + [naming.pascal(subs[i].name)],
        subs[i].structure);
    }
  }

  lemma NamedNext(
    naming: Naming, seen: set<Sir>, now: set<Sir>, before: Types, after: Types, ctx: Path, entries: seq<Entry>,
    e: Entry
  )
    requires EntriesNamed(naming, seen, before, ctx, entries) && Includes(after, before)
    requires now == seen + EntryStructs(entries)
    requires New(now, e.field.sir) ==> EntryNamed(naming, now, after, ctx, e.key, e.field.sir)
    ensures EntriesNamed(naming, seen, after, ctx, entries + [e])
  {
    EntriesNamedGrow(naming, seen, before, after, ctx, entries);
    FirstPrefix(seen, entries, e);
    hide First, SeenBefore, New, EntryStructs, EntryNamed;
    var all := entries + [e];
    assert all[|entries|] == e;
    forall i | 0 <= i < |entries|
      ensures all[i] == entries[i]
    {
    }
  }

  lemma NamedNextSubType(
    naming: Naming, seen: set<Sir>, now: set<Sir>, before: Types, after: Types, ctx: Path, subs: seq<SubType>,
    sub: SubType
  )
    requires SubTypesNamed(naming, seen, before, ctx, subs) && Includes(after, before)
    requires now == seen + SubTypeStructs(subs)
    requires EntriesNamed(naming, now, after, ctx + [naming.pascal(sub.name)], sub.structure)
    ensures SubTypesNamed(naming, seen, after, ctx, subs + [sub])
  {
    SubTypesNamedGrow(naming, seen, before, after, ctx, subs);
    hide EntriesNamed, SubTypeStructs;
    var all := subs + [sub];
    assert all[|subs|] == sub && all[..|subs|] == subs;
    forall i | 0 <= i < |subs|
      ensures all[i] == subs[i] && all[..i] == subs[..i]
    {
    }
  }
}
