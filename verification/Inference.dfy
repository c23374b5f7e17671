/** Inferring a structure from a document (lib/derive/json.rs, `process_array` and `test_interface` of
    lib/derive/sir.rs), and what the structure says about the document. */
module Inference {
  import opened Wrappers
  import opened Sir

  /** How a number is best represented; a wide one is an integer of 2^63 or more, which only unsigned 64-bit
      numbers hold. */
  datatype NumberKind = Unsigned | Wide | Signed | Single | DoublePrecision

  /** A parsed document; `datetime` says whether a string reads as a point in time. */
  datatype Json =
    | JNull
    | JBool(b: bool)
    | JNum(kind: NumberKind)
    | JStr(text: string, datetime: bool)
    | JArr(elems: seq<Json>)
    | JObj(entries: seq<(string, Json)>)

  /** Parsed objects never repeat a key. */
  predicate Keyed(j: Json) {
    match j
    case JArr(elems) => forall i :: 0 <= i < |elems| ==> Keyed(elems[i])
    case JObj(entries) =>
      && (forall i, k :: 0 <= i < k < |entries| ==> entries[i].0 != entries[k].0)
      && (forall i :: 0 <= i < |entries| ==> Keyed(entries[i].1))
    case _ => true
  }

  // Joining lists of structures

  function JoinAll(cs: seq<Sir>): Sir
    requires cs != []
  {
    if |cs| == 1 then cs[0] else Join(JoinAll(cs[..|cs| - 1]), cs[|cs| - 1])
  }

  predicate OneHash(cs: seq<Sir>, h: HashSir) { forall i :: 0 <= i < |cs| ==> Hash(cs[i]) == h }

  /** Structures with equal hashes can be refined in order. */
  predicate Agreeable(cs: seq<Sir>) {
    forall i, k :: 0 <= i < k < |cs| && Hash(cs[i]) == Hash(cs[k]) ==> Refinable(cs[i], cs[k])
  }

  lemma {:induction false} JoinAllHash(cs: seq<Sir>, h: HashSir)
    requires cs != [] && OneHash(cs, h)
    ensures Hash(JoinAll(cs)) == h
  {
    if |cs| > 1 {
      JoinAllHash(cs[..|cs| - 1], h);
      JoinHash(JoinAll(cs[..|cs| - 1]), cs[|cs| - 1]);
    }
  }

  lemma {:induction false} JoinAllRefinable(cs: seq<Sir>, h: HashSir, f: Sir)
    requires cs != [] && OneHash(cs, h) && Agreeable(cs) && Hash(f) == h
    ensures Refinable(JoinAll(cs), f) <==> forall i :: 0 <= i < |cs| ==> Refinable(cs[i], f)
  {
    hide Refinable, Hash, Join;
    if |cs| > 1 {
      var prefix, last := cs[..|cs| - 1], cs[|cs| - 1];
      JoinAllHash(prefix, h);
      JoinAllRefinable(prefix, h, last);
      JoinAllRefinable(prefix, h, f);
      forall i | 0 <= i < |prefix| ensures Refinable(prefix[i], last) {
        assert Refinable(cs[i], cs[|cs| - 1]);
      }
      JoinRefinable(JoinAll(prefix), last, f);
      assert forall i :: 0 <= i < |prefix| ==> prefix[i] == cs[i];
    }
  }

  /** The join of a list is its least upper bound. */
  lemma {:induction false} JoinAllAbove(cs: seq<Sir>, h: HashSir, i: nat)
    requires i < |cs| && OneHash(cs, h) && Agreeable(cs) && InterfaceFree(cs[0])
    ensures Le(cs[i], JoinAll(cs))
  {
    hide Hash, Le, Join, Refinable, InterfaceFree;
    if |cs| == 1 {
      LeReflexive(cs[0]);
    } else {
      var prefix, last := cs[..|cs| - 1], cs[|cs| - 1];
      JoinAllHash(prefix, h);
      HashInterfaceFree(cs[0], JoinAll(prefix));
      forall k | 0 <= k < |prefix| ensures Refinable(prefix[k], last) {
        assert Refinable(cs[k], cs[|cs| - 1]);
      }
      JoinAllRefinable(prefix, h, last);
      JoinAbove(JoinAll(prefix), last);
      if i < |prefix| {
        JoinAllAbove(prefix, h, i);
        LeTransitive(cs[i], JoinAll(prefix), JoinAll(cs));
      }
    }
  }

  lemma {:induction false} JoinAllLeast(cs: seq<Sir>, h: HashSir, c: Sir)
    requires cs != [] && OneHash(cs, h)
    requires forall i :: 0 <= i < |cs| ==> Le(cs[i], c)
    ensures Le(JoinAll(cs), c)
  {
    hide Hash, Le, Join;
    if |cs| > 1 {
      var prefix, last := cs[..|cs| - 1], cs[|cs| - 1];
      JoinAllHash(prefix, h);
      JoinAllLeast(prefix, h, c);
      JoinLeast(JoinAll(prefix), last, c);
    }
  }

  // What an array becomes

  function GetField(fields: seq<Entry>, key: string): (r: Option<Field>)
    ensures r.Some? ==> exists i :: 0 <= i < |fields| && fields[i] == Entry(key, r.value)
    ensures r.None? ==> forall i :: 0 <= i < |fields| ==> fields[i].key != key
  {
    if fields == [] then None
    else if fields[0].key == key then Some(fields[0].field)
    else GetField(fields[1..], key)
  }

  function GetJson(entries: seq<(string, Json)>, key: string): (r: Option<Json>)
    ensures r.Some? ==> exists i :: 0 <= i < |entries| && entries[i] == (key, r.value)
    ensures r.None? ==> forall i :: 0 <= i < |entries| ==> entries[i].0 != key
  {
    if entries == [] then None
    else if entries[0].0 == key then Some(entries[0].1)
    else GetJson(entries[1..], key)
  }

  predicate HasString(s: Sir, key: string) {
    s.Object? && GetField(s.fields, key).Some? && GetField(s.fields, key).value.sir.String?
  }

  /** Every structure is an object with a string at `key`. */
  predicate CommonKey(cs: seq<Sir>, key: string) {
    cs != [] && forall i :: 0 <= i < |cs| ==> HasString(cs[i], key)
  }

  function PickTag(cs: seq<Sir>): (r: Option<string>)
    ensures r.Some? ==> CommonKey(cs, r.value)
  {
    if CommonKey(cs, "type") then Some("type")
    else if CommonKey(cs, "@class") then Some("@class")
    else if CommonKey(cs, "kind") then Some("kind")
    else None
  }

  /** The keys that frameworks use for tags, the most usual first. */
  const TAGS := ["type", "@class", "kind"]

  /** The tag is the most usual key that is a string in every element. */
  lemma TagPriority(cs: seq<Sir>, tag: string)
    ensures PickTag(cs) == Some(tag) <==>
      exists i :: 0 <= i < |TAGS| && TAGS[i] == tag && CommonKey(cs, tag) &&
        forall k :: 0 <= k < i ==> !CommonKey(cs, TAGS[k])
  {
    assert TAGS[0] == "type" && TAGS[1] == "@class" && TAGS[2] == "kind";
    hide CommonKey;
  }

  function Without(fields: seq<Entry>, key: string): seq<Entry> {
    if fields == [] then []
    else
      var last := fields[|fields| - 1];
      Without(fields[..|fields| - 1], key) + if last.key != key then [last] else []
  }

  /** The string at `key`; the tag of an interface is always one. */
  function TagText(j: Json, key: string): string {
    if j.JObj? && GetJson(j.entries, key).Some? && GetJson(j.entries, key).value.JStr? then
      GetJson(j.entries, key).value.text
    else ""
  }

  function SubTypeOf(c: Sir, j: Json, tag: string): SubType
    requires c.Object?
  {
    SubType(TagText(j, tag), Without(c.fields, tag))
  }

  function SubTypesOf(cs: seq<Sir>, values: seq<Json>, tag: string): seq<SubType>
    requires |cs| == |values| && CommonKey(cs, tag)
  {
    seq(|cs|, i requires 0 <= i < |cs| && HasString(cs[i], tag) => SubTypeOf(cs[i], values[i], tag))
  }

  function ArraySir(cs: seq<Sir>, values: seq<Json>): Sir
    requires |cs| == |values|
  {
    if cs == [] then Array(Any)
    else if OneHash(cs, Hash(cs[0])) then Array(JoinAll(cs))
    else
      match PickTag(cs)
      case Some(tag) =>
        Interface(tag, SubTypesOf(cs, values, tag))
      case None => Tuple(seq(|cs|, i requires 0 <= i < |cs| => Field(false, cs[i])))
  }

  /** The structure of a document; none if two elements of an array are alike but cannot be refined. */
  function SirOf(j: Json): Option<Sir>
    decreases j
  {
    match j
    case JNull => Some(Any)
    case JBool(_) => Some(Boolean)
    case JNum(kind) => Some(KindSir(kind))
    case JStr(_, datetime) => Some(if datetime then DateTime else String)
    case JArr(elems) =>
      if forall i :: 0 <= i < |elems| ==> SirOf(elems[i]).Some? then
        var cs := seq(|elems|, i requires 0 <= i < |elems| && SirOf(elems[i]).Some? => SirOf(elems[i]).value);
        if Agreeable(cs) then Some(ArraySir(cs, elems)) else None
      else None
    case JObj(entries) =>
      if forall i :: 0 <= i < |entries| ==> SirOf(entries[i].1).Some? then
        Some(Object(seq(|entries|, i requires 0 <= i < |entries| && SirOf(entries[i].1).Some? =>
          EntryOf(entries[i].0, SirOf(entries[i].1).value))))
      else None
  }

  function KindSir(kind: NumberKind): Sir {
    match kind
    case Unsigned => U64
    case Wide => U64
    case Signed => I64
    case Single => Float
    case DoublePrecision => Double
  }

  function EntryOf(key: string, s: Sir): Entry { Entry(key, Field(s == Any, s)) }

  // The loops

  function WithHash(cs: seq<Sir>, h: HashSir): (r: seq<Sir>)
    ensures OneHash(r, h)
    ensures forall i :: 0 <= i < |r| ==> r[i] in cs
  {
    if cs == [] then []
    else
      var last := cs[|cs| - 1];
      WithHash(cs[..|cs| - 1], h) + if Hash(last) == h then [last] else []
  }

  /** `unique` holds the join of every group of equal hashes, once. */
  ghost predicate Grouped(cs: seq<Sir>, unique: seq<Sir>) {
    && (forall i, k :: 0 <= i < k < |unique| ==> Hash(unique[i]) != Hash(unique[k]))
    && (forall c :: c in cs ==> exists k :: 0 <= k < |unique| && Hash(unique[k]) == Hash(c))
    && (forall k :: 0 <= k < |unique| ==> IsGroup(cs, unique[k]))
  }

  /** `u` is the join of the structures with its hash. */
  predicate IsGroup(cs: seq<Sir>, u: Sir) {
    WithHash(cs, Hash(u)) != [] && u == JoinAll(WithHash(cs, Hash(u)))
  }

  lemma {:induction false} WithHashAll(cs: seq<Sir>, h: HashSir)
    requires OneHash(cs, h)
    ensures WithHash(cs, h) == cs
  {
    if cs != [] {
      WithHashAll(cs[..|cs| - 1], h);
    }
  }

  lemma {:induction false} WithHashMember(cs: seq<Sir>, h: HashSir, c: Sir)
    ensures c in WithHash(cs, h) <==> c in cs && Hash(c) == h
  {
    hide Hash;
    if cs != [] {
      WithHashMember(cs[..|cs| - 1], h, c);
      assert cs == cs[..|cs| - 1] + [cs[|cs| - 1]];
    }
  }

  lemma {:induction false} WithHashAgreeable(cs: seq<Sir>, h: HashSir)
    requires Agreeable(cs)
    ensures Agreeable(WithHash(cs, h))
  {
    hide Hash, Refinable;
    if cs != [] {
      var prefix, last := cs[..|cs| - 1], cs[|cs| - 1];
      WithHashAgreeable(prefix, h);
      if Hash(last) == h {
        forall c | c in WithHash(prefix, h) ensures Refinable(c, last) {
          WithHashMember(prefix, h, c);
          var i :| 0 <= i < |prefix| && prefix[i] == c;
          assert cs[i] == c;
        }
      }
    }
  }

  lemma WithHashSnoc(cs: seq<Sir>, f: Sir, h: HashSir)
    ensures WithHash(cs + [f], h) == if Hash(f) == h then WithHash(cs, h) + [f] else WithHash(cs, h)
  {
    assert (cs + [f])[..|cs|] == cs;
  }

  lemma AgreeableSnoc(cs: seq<Sir>, f: Sir)
    requires Agreeable(cs)
    ensures Agreeable(cs + [f]) <==> forall c :: c in WithHash(cs, Hash(f)) ==> Refinable(c, f)
  {
    hide Hash, Refinable, WithHash;
    var all := cs + [f];
    forall c ensures c in WithHash(cs, Hash(f)) <==> c in cs && Hash(c) == Hash(f) {
      WithHashMember(cs, Hash(f), c);
    }
    if Agreeable(all) {
      forall c | c in cs && Hash(c) == Hash(f) ensures Refinable(c, f) {
        var i :| 0 <= i < |cs| && cs[i] == c;
        assert all[i] == c && all[|cs|] == f;
      }
    } else {
      var i, k :| 0 <= i < k < |all| && Hash(all[i]) == Hash(all[k]) && !Refinable(all[i], all[k]);
      assert k == |cs| && cs[i] in cs;
    }
  }

  lemma JoinAllSnoc(cs: seq<Sir>, f: Sir)
    requires cs != []
    ensures JoinAll(cs + [f]) == Join(JoinAll(cs), f)
  {
    assert (cs + [f])[..|cs|] == cs;
  }

  /** Refining the group of `f` succeeds exactly when `f` agrees with everything before it. */
  lemma RefineGroup(cs: seq<Sir>, unique: seq<Sir>, k: nat, f: Sir)
    requires Agreeable(cs) && Grouped(cs, unique) && k < |unique| && Hash(unique[k]) == Hash(f)
    ensures Refinable(unique[k], f) <==> Agreeable(cs + [f])
    ensures Grouped(cs + [f], unique[k := Join(unique[k], f)])
  {
    hide Hash, Refinable, Join, JoinAll, Agreeable, OneHash;
    var h := Hash(f);
    var group := WithHash(cs, h);
    assert IsGroup(cs, unique[k]);
    WithHashAgreeable(cs, h);
    AgreeableSnoc(cs, f);
    JoinAllRefinable(group, h, f);
    JoinHash(unique[k], f);
    hide WithHash;
    GroupJoined(cs, unique, k, f);
  }

  lemma UnchangedGroup(cs: seq<Sir>, u: Sir, f: Sir)
    requires IsGroup(cs, u) && Hash(u) != Hash(f)
    ensures IsGroup(cs + [f], u)
  {
    WithHashSnoc(cs, f, Hash(u));
  }

  lemma GroupJoined(cs: seq<Sir>, unique: seq<Sir>, k: nat, f: Sir)
    requires Grouped(cs, unique) && k < |unique| && Hash(unique[k]) == Hash(f)
    requires Hash(Join(unique[k], f)) == Hash(f)
    ensures Grouped(cs + [f], unique[k := Join(unique[k], f)])
  {
    hide Hash, Join, WithHash, JoinAll;
    var unique' := unique[k := Join(unique[k], f)];
    assert forall i :: 0 <= i < |unique| ==> Hash(unique'[i]) == Hash(unique[i]);
    forall i | 0 <= i < |unique'|
      ensures IsGroup(cs + [f], unique'[i])
    {
      assert IsGroup(cs, unique[i]);
      if i == k {
        WithHashSnoc(cs, f, Hash(f));
        JoinAllSnoc(WithHash(cs, Hash(f)), f);
      } else {
        UnchangedGroup(cs, unique[i], f);
      }
    }
    forall c | c in cs + [f]
      ensures exists i :: 0 <= i < |unique'| && Hash(unique'[i]) == Hash(c)
    {
      var i :| 0 <= i < |unique| && Hash(unique[i]) == Hash(c);
      assert Hash(unique'[i]) == Hash(c);
    }
  }

  lemma SomeMember<T>(s: seq<T>)
    ensures s != [] ==> exists x :: x in s
  {
    if s != [] {
      assert s[0] in s;
    }
  }

  lemma NoOther(cs: seq<Sir>, unique: seq<Sir>, f: Sir)
    requires Grouped(cs, unique) && forall k :: 0 <= k < |unique| ==> Hash(unique[k]) != Hash(f)
    ensures WithHash(cs, Hash(f)) == []
  {
    hide Hash, WithHash;
    forall c ensures c !in WithHash(cs, Hash(f)) {
      WithHashMember(cs, Hash(f), c);
    }
    SomeMember(WithHash(cs, Hash(f)));
  }

  lemma FirstOfGroup(cs: seq<Sir>, f: Sir)
    requires WithHash(cs, Hash(f)) == []
    ensures IsGroup(cs + [f], f)
  {
    hide Hash;
    WithHashSnoc(cs, f, Hash(f));
    assert WithHash(cs + [f], Hash(f)) == [f];
  }

  lemma NewGroup(cs: seq<Sir>, unique: seq<Sir>, f: Sir)
    requires Agreeable(cs) && Grouped(cs, unique)
    requires forall k :: 0 <= k < |unique| ==> Hash(unique[k]) != Hash(f)
    ensures Agreeable(cs + [f]) && Grouped(cs + [f], unique + [f])
  {
    NoOther(cs, unique, f);
    AgreeableSnoc(cs, f);
    assert forall c :: c !in WithHash(cs, Hash(f));
    hide Hash, Refinable, WithHash, IsGroup, Agreeable, JoinAll, Join;
    NewCovers(cs, unique, f);
    NewGroups(cs, unique, f);
    NewDistinct(unique, f);
  }

  lemma NewDistinct(unique: seq<Sir>, f: Sir)
    requires forall i, k :: 0 <= i < k < |unique| ==> Hash(unique[i]) != Hash(unique[k])
    requires forall k :: 0 <= k < |unique| ==> Hash(unique[k]) != Hash(f)
    ensures forall i, k :: 0 <= i < k < |unique + [f]| ==> Hash((unique + [f])[i]) != Hash((unique + [f])[k])
  {
    hide Hash;
  }

  lemma NewGroups(cs: seq<Sir>, unique: seq<Sir>, f: Sir)
    requires WithHash(cs, Hash(f)) == [] && forall k :: 0 <= k < |unique| ==> Hash(unique[k]) != Hash(f)
    requires forall k :: 0 <= k < |unique| ==> IsGroup(cs, unique[k])
    ensures forall k :: 0 <= k < |unique + [f]| ==> IsGroup(cs + [f], (unique + [f])[k])
  {
    hide *;
    forall k | 0 <= k < |unique + [f]|
      ensures IsGroup(cs + [f], (unique + [f])[k])
    {
      if k < |unique| {
        UnchangedGroup(cs, unique[k], f);
      } else {
        FirstOfGroup(cs, f);
      }
    }
  }

  lemma NewCovers(cs: seq<Sir>, unique: seq<Sir>, f: Sir)
    requires forall c :: c in cs ==> exists k :: 0 <= k < |unique| && Hash(unique[k]) == Hash(c)
    ensures forall c :: c in cs + [f] ==> exists k :: 0 <= k < |unique + [f]| && Hash((unique + [f])[k]) == Hash(c)
  {
    hide Hash;
    var unique' := unique + [f];
    forall c | c in cs + [f]
      ensures exists i :: 0 <= i < |unique'| && Hash(unique'[i]) == Hash(c)
    {
      if c in cs {
        var i :| 0 <= i < |unique| && Hash(unique[i]) == Hash(c);
        assert Hash(unique'[i]) == Hash(c);
      } else {
        assert Hash(unique'[|unique|]) == Hash(c);
      }
    }
  }

  lemma GroupMember(cs: seq<Sir>, u: Sir) returns (c: Sir)
    requires IsGroup(cs, u)
    ensures c in cs && Hash(c) == Hash(u)
  {
    c := WithHash(cs, Hash(u))[0];
  }

  lemma OneHashMember(cs: seq<Sir>, h: HashSir, c: Sir)
    requires c in cs
    ensures OneHash(cs, h) ==> Hash(c) == h
  {
  }

  /** One group is left exactly when all hashes agree, and then it is the join of everything. */
  lemma OneGroup(cs: seq<Sir>, unique: seq<Sir>)
    requires Grouped(cs, unique) && cs != []
    ensures unique != []
    ensures |unique| == 1 <==> OneHash(cs, Hash(cs[0]))
    ensures |unique| == 1 ==> unique[0] == JoinAll(cs)
  {
    hide Hash, WithHash, JoinAll;
    assert forall i :: 0 <= i < |cs| ==> cs[i] in cs;
    assert exists k :: 0 <= k < |unique| && Hash(unique[k]) == Hash(cs[0]);
    var h := Hash(cs[0]);
    if |unique| == 1 {
      WithHashAll(cs, Hash(unique[0]));
      assert IsGroup(cs, unique[0]);
    } else if |unique| > 1 {
      var a := GroupMember(cs, unique[0]);
      var b := GroupMember(cs, unique[1]);
      OneHashMember(cs, h, a);
      OneHashMember(cs, h, b);
    }
  }

  method FindGroup(unique: seq<Sir>, h: HashSir) returns (k: nat)
    ensures k <= |unique| && (k < |unique| ==> Hash(unique[k]) == h)
    ensures forall i :: 0 <= i < k ==> Hash(unique[i]) != h
  {
    k := 0;
    while k < |unique| && Hash(unique[k]) != h
      invariant k <= |unique| && forall i :: 0 <= i < k ==> Hash(unique[i]) != h
    {
      k := k + 1;
    }
  }

  predicate Describes(cs: seq<Sir>, values: seq<Json>) {
    |cs| == |values| && forall i :: 0 <= i < |cs| ==> SirOf(values[i]) == Some(cs[i]) && Keyed(values[i])
  }

  lemma ObjectEntries(c: Sir, j: Json)
    requires SirOf(j) == Some(c) && c.Object?
    ensures j.JObj? && |j.entries| == |c.fields|
    ensures forall i :: 0 <= i < |j.entries| ==>
      c.fields[i].key == j.entries[i].0 && SirOf(j.entries[i].1) == Some(c.fields[i].field.sir)
  {
  }

  /** The value under a string field is a string. */
  lemma {:induction false} TagIsString(fields: seq<Entry>, entries: seq<(string, Json)>, key: string)
    requires |entries| == |fields| && GetField(fields, key).Some? && GetField(fields, key).value.sir.String?
    requires forall i :: 0 <= i < |entries| ==>
      fields[i].key == entries[i].0 && SirOf(entries[i].1) == Some(fields[i].field.sir)
    ensures GetJson(entries, key).Some? && GetJson(entries, key).value.JStr?
  {
    if fields[0].key == key {
      hide GetField;
    } else {
      TagIsString(fields[1..], entries[1..], key);
    }
  }

  method StringKeys(fields: seq<Entry>) returns (keys: set<string>)
    ensures forall k :: k in keys <==>
      exists i :: 0 <= i < |fields| && fields[i].key == k && fields[i].field.sir.String?
  {
    keys := {};
    for n := 0 to |fields|
      invariant forall k :: k in keys <==>
        exists i :: 0 <= i < n && fields[i].key == k && fields[i].field.sir.String?
    {
      if fields[n].field.sir.String? {
        keys := keys + {fields[n].key};
      }
    }
  }

  method WithoutKey(fields: seq<Entry>, key: string) returns (structure: seq<Entry>)
    ensures structure == Without(fields, key)
  {
    structure := [];
    for n := 0 to |fields|
      invariant structure == Without(fields[..n], key)
    {
      assert fields[..n + 1][..n] == fields[..n];
      if fields[n].key != key {
        structure := structure + [fields[n]];
      }
    }
    assert fields[..|fields|] == fields;
  }

  predicate UniqueKeys(fields: seq<Entry>) {
    forall i, k :: 0 <= i < k < |fields| ==> fields[i].key != fields[k].key
  }

  lemma StringKey(fields: seq<Entry>, key: string)
    requires UniqueKeys(fields)
    ensures HasString(Object(fields), key) <==>
      exists i :: 0 <= i < |fields| && fields[i].key == key && fields[i].field.sir.String?
  {
    var found := GetField(fields, key);
    if found.Some? {
      var p :| 0 <= p < |fields| && fields[p] == Entry(key, found.value);
    }
  }

  /** The keys that hold a string in every object. */
  method CommonKeys(cs: seq<Sir>) returns (keys: set<string>)
    requires forall i :: 0 <= i < |cs| ==> cs[i].Object? && UniqueKeys(cs[i].fields)
    ensures forall k :: k in keys <==> CommonKey(cs, k)
  {
    if cs == [] {
      return {};
    }
    keys := StringKeys(cs[0].fields);
    forall k ensures k in keys <==> HasString(cs[0], k) {
      StringKey(cs[0].fields, k);
    }
    hide HasString;
    for n := 1 to |cs|
      invariant forall k :: k in keys <==> forall i :: 0 <= i < n ==> HasString(cs[i], k)
    {
      var other := cs[n];
      keys := set k | k in keys && HasString(other, k);
    }
  }

  /** The interface that a list of objects reads as, if there is a tag; `None` on the outside is an error,
      which cannot happen for structures that describe their values. */
  method TestInterface(cs: seq<Sir>, values: seq<Json>) returns (r: Option<Option<(string, seq<SubType>)>>)
    requires Describes(cs, values)
    ensures r.Some?
    ensures r.value == match PickTag(cs)
      case None => None
      case Some(tag) => Some((tag, SubTypesOf(cs, values, tag)))
  {
    var n := 0;
    while n < |cs|
      invariant n <= |cs| && forall i :: 0 <= i < n ==> cs[i].Object?
    {
      if !cs[n].Object? {
        assert !HasString(cs[n], "type") && !HasString(cs[n], "@class") && !HasString(cs[n], "kind");
        return Some(None);
      }
      n := n + 1;
    }
    forall i | 0 <= i < |cs| ensures UniqueKeys(cs[i].fields) {
      ObjectEntries(cs[i], values[i]);
    }
    var keys := CommonKeys(cs);
    var tag;
    if "type" in keys {
      tag := "type";
    } else if "@class" in keys {
      tag := "@class";
    } else if "kind" in keys {
      tag := "kind";
    } else {
      return Some(None);
    }
    assert PickTag(cs) == Some(tag);
    var subTypes := BuildSubTypes(cs, values, tag);
    return if subTypes.Some? then Some(Some((tag, subTypes.value))) else None;
  }

  lemma SubTypeAt(cs: seq<Sir>, values: seq<Json>, tag: string, n: nat)
    requires Describes(cs, values) && CommonKey(cs, tag) && n < |cs|
    ensures cs[n].Object? && values[n].JObj?
    ensures var name := GetJson(values[n].entries, tag);
      name.Some? && name.value.JStr? &&
      SubTypesOf(cs, values, tag)[n] == SubType(name.value.text, Without(cs[n].fields, tag))
  {
    assert HasString(cs[n], tag);
    ObjectEntries(cs[n], values[n]);
    TagIsString(cs[n].fields, values[n].entries, tag);
  }

  method BuildSubTypes(cs: seq<Sir>, values: seq<Json>, tag: string) returns (r: Option<seq<SubType>>)
    requires Describes(cs, values) && CommonKey(cs, tag)
    ensures r == Some(SubTypesOf(cs, values, tag))
  {
    ghost var expected := SubTypesOf(cs, values, tag);
    assert |expected| == |cs|;
    hide Describes, CommonKey, SubTypesOf, GetJson, Without;
    var out: seq<SubType> := [];
    for n := 0 to |cs|
      invariant out == expected[..n]
    {
      SubTypeAt(cs, values, tag, n);
      var structure := WithoutKey(cs[n].fields, tag);
      var name := GetJson(values[n].entries, tag);
      if name.None? || !name.value.JStr? {
        return None;
      }
      out := out + [SubType(name.value.text, structure)];
    }
    assert expected[..|cs|] == expected;
    return Some(out);
  }

  /** Joins a child into its group, or starts a new one. */
  method AddChild(ghost children: seq<Sir>, unique: seq<Sir>, f: Sir) returns (r: Option<seq<Sir>>)
    requires Agreeable(children) && Grouped(children, unique)
    ensures r.Some? <==> Agreeable(children + [f])
    ensures r.Some? ==> Grouped(children + [f], r.value)
  {
    hide Hash, Agreeable, Grouped, Refinable, Join;
    var k := FindGroup(unique, Hash(f));
    if k < |unique| {
      var refined := Refine(unique[k], f);
      RefineGroup(children, unique, k, f);
      if refined.None? {
        return None;
      }
      return Some(unique[k := refined.value]);
    } else {
      NewGroup(children, unique, f);
      return Some(unique + [f]);
    }
  }

  /** Picks the shape of an array from its groups. */
  method Shape(children: seq<Sir>, unique: seq<Sir>, values: seq<Json>) returns (r: Option<Sir>)
    requires Describes(children, values) && Grouped(children, unique)
    ensures r == Some(ArraySir(children, values))
  {
    hide Hash, JoinAll, PickTag, SubTypesOf, Describes, Grouped, OneHash, CommonKey, HasString, SirOf;
    NoGroups(children, unique);
    if unique == [] {
      return Some(Array(Any));
    }
    OneGroup(children, unique);
    if |unique| == 1 {
      return Some(Array(unique[0]));
    }
    var tested := TestInterface(children, values);
    if tested.None? {
      return None;
    }
    if tested.value.Some? {
      var (tag, subTypes) := tested.value.value;
      return Some(Interface(tag, subTypes));
    }
    return Some(Tuple(seq(|children|, i requires 0 <= i < |children| => Field(false, children[i]))));
  }

  lemma NoGroups(cs: seq<Sir>, unique: seq<Sir>)
    requires Grouped(cs, unique)
    ensures unique == [] <==> cs == []
  {
    if cs != [] {
      assert cs[0] in cs;
    }
    if unique != [] {
      var c := GroupMember(cs, unique[0]);
    }
  }

  /** The structure of an array. */
  method ProcessArray(values: seq<Json>) returns (r: Option<Sir>)
    requires Keyed(JArr(values))
    ensures r == SirOf(JArr(values))
    decreases values, 0
  {
    hide Agreeable, Grouped, ArraySir;
    var children: seq<Sir> := [];
    var unique: seq<Sir> := [];
    Nothing();
    for n := 0 to |values|
      invariant Describes(children, values[..n]) && Agreeable(children) && Grouped(children, unique)
    {
      var f := FromJson(values[n]);
      if f.None? {
        return None;
      }
      DescribesSnoc(children, values, n, f.value);
      var added := AddChild(children, unique, f.value);
      children := children + [f.value];
      if added.None? {
        NotAgreeable(values, children);
        return None;
      }
      unique := added.value;
    }
    assert values[..|values|] == values;
    ArrayOf(values, children);
    r := Shape(children, unique, values);
  }

  lemma Nothing()
    ensures Agreeable([]) && Grouped([], [])
  {
  }

  lemma DescribesSnoc(cs: seq<Sir>, values: seq<Json>, n: nat, f: Sir)
    requires n < |values| && Describes(cs, values[..n]) && SirOf(values[n]) == Some(f) && Keyed(values[n])
    ensures Describes(cs + [f], values[..n + 1])
  {
    hide SirOf, Keyed;
    assert values[..n + 1] == values[..n] + [values[n]];
  }

  lemma NotAgreeable(values: seq<Json>, cs: seq<Sir>)
    requires |cs| <= |values| && Describes(cs, values[..|cs|]) && !Agreeable(cs)
    ensures SirOf(JArr(values)) == None
  {
    if forall i :: 0 <= i < |values| ==> SirOf(values[i]).Some? {
      var all := seq(|values|, i requires 0 <= i < |values| && SirOf(values[i]).Some? => SirOf(values[i]).value);
      DescribesPrefix(values, cs, all);
      AgreeablePrefix(all, |cs|);
    }
  }

  lemma DescribesPrefix(values: seq<Json>, cs: seq<Sir>, all: seq<Sir>)
    requires |cs| <= |values| == |all| && Describes(cs, values[..|cs|])
    requires forall i :: 0 <= i < |values| ==> SirOf(values[i]) == Some(all[i])
    ensures cs == all[..|cs|]
  {
    hide SirOf;
    forall i | 0 <= i < |cs| ensures cs[i] == all[i] {
      assert values[..|cs|][i] == values[i];
    }
  }

  lemma AgreeablePrefix(cs: seq<Sir>, n: nat)
    requires n <= |cs|
    ensures Agreeable(cs) ==> Agreeable(cs[..n])
  {
    hide Hash, Refinable;
  }

  lemma ArrayOf(values: seq<Json>, cs: seq<Sir>)
    requires Describes(cs, values)
    ensures SirOf(JArr(values)) == if Agreeable(cs) then Some(ArraySir(cs, values)) else None
  {
    assert cs == seq(|values|, i requires 0 <= i < |values| && SirOf(values[i]).Some? => SirOf(values[i]).value);
  }

  lemma ObjectOf(pairs: seq<(string, Json)>, entries: seq<Entry>)
    requires |entries| == |pairs|
    requires forall i :: 0 <= i < |pairs| ==>
      SirOf(pairs[i].1).Some? && entries[i] == EntryOf(pairs[i].0, SirOf(pairs[i].1).value)
    ensures SirOf(JObj(pairs)) == Some(Object(entries))
  {
    assert entries == seq(|pairs|, i requires 0 <= i < |pairs| && SirOf(pairs[i].1).Some? =>
      EntryOf(pairs[i].0, SirOf(pairs[i].1).value));
  }

  /** The structure of a document. */
  method FromJson(j: Json) returns (r: Option<Sir>)
    requires Keyed(j)
    ensures r == SirOf(j)
    decreases j, 1
  {
    match j {
      case JNull => return Some(Any);
      case JBool(_) => return Some(Boolean);
      case JNum(kind) => return Some(KindSir(kind));
      case JStr(_, datetime) => return Some(if datetime then DateTime else String);
      case JArr(elems) => r := ProcessArray(elems);
      case JObj(pairs) =>
        var entries: seq<Entry> := [];
        for n := 0 to |pairs|
          invariant |entries| == n
          invariant forall i :: 0 <= i < n ==>
            SirOf(pairs[i].1).Some? && entries[i] == EntryOf(pairs[i].0, SirOf(pairs[i].1).value)
        {
          var value := FromJson(pairs[n].1);
          if value.None? {
            return None;
          }
          entries := entries + [Entry(pairs[n].0, Field(value.value == Any, value.value))];
        }
        ObjectOf(pairs, entries);
        return Some(Object(entries));
    }
  }
}
