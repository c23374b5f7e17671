/** What an inferred structure says about the document it was inferred from. */
module Fitting {
  import opened Wrappers
  import opened Sir
  import opened Inference

  /** `j` is described by `s`; nulls may stand for any scalar. */
  predicate Fits(s: Sir, j: Json)
    decreases j, 2
  {
    match j
    case JNull => Scalar(s)
    case JBool(_) => s.Boolean?
    case JNum(kind) => Numeric(s) && Rank(KindSir(kind)) <= Rank(s)
    case JStr(_, datetime) => if datetime then s.DateTime? else s.String?
    case JObj(entries) =>
      s.Object? && |s.fields| == |entries| && forall i :: 0 <= i < |entries| ==> FitsEntry(s.fields[i], j, i)
    case JArr(elems) =>
      || (s.Array? && forall i :: 0 <= i < |elems| ==> Fits(s.inner, elems[i]))
      || (s.Tuple? && |s.items| == |elems| && forall i :: 0 <= i < |elems| ==> Fits(s.items[i].sir, elems[i]))
      || (s.Interface? && |s.subTypes| == |elems| &&
          forall i :: 0 <= i < |elems| ==> FitsSubType(s.tag, s.subTypes[i], elems[i]))
  }

  /** The field is the entry, and optional if the entry is null. */
  predicate FitsEntry(e: Entry, j: Json, i: nat)
    requires j.JObj? && i < |j.entries|
    decreases j, 0
  {
    && e.key == j.entries[i].0
    && (j.entries[i].1.JNull? ==> e.field.optional)
    && Fits(e.field.sir, j.entries[i].1)
  }

  /** The entries of `j` are those of the sub-type, and the tag with the sub-type's name. */
  predicate FitsSubType(tag: string, sub: SubType, j: Json)
    decreases j, 2
  {
    j.JObj? && exists p :: 0 <= p < |j.entries| && TaggedAt(tag, sub, j, p)
  }

  predicate TaggedAt(tag: string, sub: SubType, j: Json, p: nat)
    requires j.JObj? && p < |j.entries|
    decreases j, 1
  {
    && j.entries[p] == (tag, JStr(sub.name, false))
    && |sub.structure| == |j.entries| - 1
    && (forall i :: 0 <= i < |sub.structure| ==> FitsEntry(sub.structure[i], j, Shift(p, i)))
  }

  /** Where the i-th entry other than the one at `p` is. */
  function Shift(p: nat, i: nat): nat { if i < p then i else i + 1 }

  /** Larger structures describe more. */
  lemma {:induction false} FitsUpward(a: Sir, b: Sir, j: Json)
    requires Le(a, b) && Fits(a, j)
    ensures Fits(b, j)
    decreases j, 2
  {
    match j {
      case JObj(entries) =>
        forall i | 0 <= i < |entries| ensures FitsEntry(b.fields[i], j, i) {
          assert FitsEntry(a.fields[i], j, i);
          FitsUpward(a.fields[i].field.sir, b.fields[i].field.sir, entries[i].1);
        }
      case JArr(elems) =>
        if a.Array? {
          forall i | 0 <= i < |elems| ensures Fits(b.inner, elems[i]) {
            FitsUpward(a.inner, b.inner, elems[i]);
          }
        } else if a.Tuple? {
          forall i | 0 <= i < |elems| ensures Fits(b.items[i].sir, elems[i]) {
            FitsUpward(a.items[i].sir, b.items[i].sir, elems[i]);
          }
        } else {
          forall i | 0 <= i < |elems| ensures FitsSubType(b.tag, b.subTypes[i], elems[i]) {
            assert FitsSubType(a.tag, a.subTypes[i], elems[i]);
            SubTypeUpward(a.tag, a.subTypes[i], b.subTypes[i], elems[i]);
          }
        }
      case _ =>
    }
  }

  lemma {:induction false} SubTypeUpward(tag: string, a: SubType, b: SubType, j: Json)
    requires a.name == b.name && LeEntries(a.structure, b.structure) && FitsSubType(tag, a, j)
    ensures FitsSubType(tag, b, j)
    decreases j, 1
  {
    var p :| 0 <= p < |j.entries| && TaggedAt(tag, a, j, p);
    forall i | 0 <= i < |a.structure|
      ensures FitsEntry(b.structure[i], j, Shift(p, i))
    {
      var k := Shift(p, i);
      assert FitsEntry(a.structure[i], j, k);
      FitsUpward(a.structure[i].field.sir, b.structure[i].field.sir, j.entries[k].1);
    }
    assert TaggedAt(tag, b, j, p);
  }

  // The shape of an array

  /** The result is an array exactly when all hashes agree; its element type is below every upper bound of
      the elements, and without interfaces it is one. */
  lemma ArrayIsLub(cs: seq<Sir>, values: seq<Json>)
    requires |cs| == |values| && cs != [] && Agreeable(cs)
    ensures ArraySir(cs, values).Array? <==> OneHash(cs, Hash(cs[0]))
    ensures ArraySir(cs, values).Array? ==>
      && (InterfaceFree(cs[0]) ==> forall i :: 0 <= i < |cs| ==> Le(cs[i], ArraySir(cs, values).inner))
      && (forall c :: (forall i :: 0 <= i < |cs| ==> Le(cs[i], c)) ==> Le(ArraySir(cs, values).inner, c))
  {
    var h := Hash(cs[0]);
    if OneHash(cs, h) {
      hide Hash, Le, Agreeable;
      if InterfaceFree(cs[0]) {
        forall i | 0 <= i < |cs| ensures Le(cs[i], JoinAll(cs)) {
          JoinAllAbove(cs, h, i);
        }
      }
      forall c | forall i :: 0 <= i < |cs| ==> Le(cs[i], c) ensures Le(JoinAll(cs), c) {
        JoinAllLeast(cs, h, c);
      }
    }
  }

  lemma {:induction false} WithoutAbsent(fields: seq<Entry>, key: string)
    requires forall i :: 0 <= i < |fields| ==> fields[i].key != key
    ensures Without(fields, key) == fields
  {
    if fields != [] {
      WithoutAbsent(fields[..|fields| - 1], key);
    }
  }

  lemma {:induction false} WithoutOne(fields: seq<Entry>, key: string, p: nat)
    requires UniqueKeys(fields) && p < |fields| && fields[p].key == key
    ensures Without(fields, key) == fields[..p] + fields[p + 1..]
    decreases fields
  {
    var n := |fields| - 1;
    if p == n {
      WithoutAbsent(fields[..n], key);
    } else {
      WithoutOne(fields[..n], key, p);
      assert fields[p + 1..] == fields[..n][p + 1..] + [fields[n]];
    }
  }

  lemma TagPosition(c: Sir, j: Json, tag: string) returns (p: nat)
    requires SirOf(j) == Some(c) && Keyed(j) && HasString(c, tag)
    ensures j.JObj? && p < |c.fields| == |j.entries| && UniqueKeys(c.fields)
    ensures j.entries[p] == (tag, JStr(TagText(j, tag), false))
    ensures c.fields[p] == Entry(tag, Field(false, String))
  {
    ObjectEntries(c, j);
    KeysUnique(c, j);
    TagIsString(c.fields, j.entries, tag);
    var field := GetField(c.fields, tag).value;
    assert field.sir.String? && TagText(j, tag) == GetJson(j.entries, tag).value.text;
    hide *;
    p :| 0 <= p < |c.fields| && c.fields[p] == Entry(tag, field);
    FieldOf(c, j, p);
    var text := GetJson(j.entries, tag).value;
    var q :| 0 <= q < |j.entries| && j.entries[q] == (tag, text);
    assert p == q;
    StringEntry(tag, text);
  }

  lemma StringEntry(key: string, j: Json)
    requires SirOf(j) == Some(String)
    ensures j == JStr(j.text, false) && EntryOf(key, String) == Entry(key, Field(false, String))
  {
  }

  lemma KeysUnique(c: Sir, j: Json)
    requires SirOf(j) == Some(c) && Keyed(j) && c.Object?
    ensures UniqueKeys(c.fields) && j.JObj?
    ensures forall i, k :: 0 <= i < k < |j.entries| ==> j.entries[i].0 != j.entries[k].0
  {
    ObjectEntries(c, j);
  }

  /** The i-th sub-type of an interface, with the tag put back where it was, is the i-th element. */
  lemma SubTypeRestores(c: Sir, j: Json, tag: string) returns (p: nat)
    requires SirOf(j) == Some(c) && Keyed(j) && HasString(c, tag)
    ensures j.JObj? && p < |c.fields| == |j.entries|
    ensures var sub := SubTypeOf(c, j, tag);
      && j.entries[p] == (tag, JStr(sub.name, false))
      && sub.structure == c.fields[..p] + c.fields[p + 1..]
      && c.fields == sub.structure[..p] + [Entry(tag, Field(false, String))] + sub.structure[p..]
  {
    p := TagPosition(c, j, tag);
    assert c.Object? && SubTypeOf(c, j, tag) == SubType(TagText(j, tag), Without(c.fields, tag));
    hide *;
    WithoutOne(c.fields, tag, p);
    TakenOut(c.fields, p);
  }

  lemma TakenOut(fields: seq<Entry>, p: nat)
    requires p < |fields|
    ensures var rest := fields[..p] + fields[p + 1..]; fields == rest[..p] + [fields[p]] + rest[p..]
  {
  }

  lemma FieldOf(c: Sir, j: Json, p: nat)
    requires SirOf(j) == Some(c) && j.JObj? && c.Object? && p < |c.fields| == |j.entries|
    ensures SirOf(j.entries[p].1).Some? && c.fields[p] == EntryOf(j.entries[p].0, SirOf(j.entries[p].1).value)
  {
  }

  // Interfaces inside elements

  /** Like `Le`, but without a condition on interfaces. */
  predicate LeOutside(a: Sir, b: Sir)
    decreases a
  {
    match a
    case Object(fields) =>
      b.Object? && |fields| == |b.fields| &&
      forall i :: 0 <= i < |fields| ==>
        && fields[i].key == b.fields[i].key
        && (fields[i].field.optional ==> b.fields[i].field.optional)
        && LeOutside(fields[i].field.sir, b.fields[i].field.sir)
    case Interface(_, _) => b.Interface?
    case Array(inner) => b.Array? && LeOutside(inner, b.inner)
    case Tuple(items) =>
      b.Tuple? && |items| == |b.items| &&
      forall i :: 0 <= i < |items| ==>
        && (items[i].optional ==> b.items[i].optional)
        && LeOutside(items[i].sir, b.items[i].sir)
    case _ => Scalar(b) && ScalarLe(a, b)
  }

  /** Every interface that some part of `j` is inferred to have is below the one at its place in `s`. */
  predicate Below(s: Sir, j: Json)
    decreases j, 1
  {
    match j
    case JObj(entries) =>
      s.Object? && |s.fields| == |entries| &&
      forall i :: 0 <= i < |entries| ==> Below(s.fields[i].field.sir, entries[i].1)
    case JArr(elems) =>
      || (s.Array? && forall i :: 0 <= i < |elems| ==> Below(s.inner, elems[i]))
      || (s.Tuple? && |s.items| == |elems| && forall i :: 0 <= i < |elems| ==> Below(s.items[i].sir, elems[i]))
      || (s.Interface? && SirOf(j).Some? && Le(SirOf(j).value, s) && |s.subTypes| == |elems| &&
          forall i :: 0 <= i < |elems| ==> EntriesBelow(s.subTypes[i].structure, elems[i]))
    case _ => true
  }

  /** The same for the entries of one element of an interface. */
  predicate EntriesBelow(fields: seq<Entry>, j: Json)
    decreases j, 0
  {
    j.JObj? && forall i, k :: 0 <= i < |fields| && 0 <= k < |j.entries| && fields[i].key == j.entries[k].0 ==>
      Below(fields[i].field.sir, j.entries[k].1)
  }

  /** In every array whose elements are alike, the interfaces of all elements are below those of the first
      one. Arrays inside such an array need no condition of their own. */
  predicate FirstsCover(j: Json)
    requires SirOf(j).Some?
  {
    match j
    case JObj(entries) => forall i :: 0 <= i < |entries| ==> SirOf(entries[i].1).Some? && FirstsCover(entries[i].1)
    case JArr(elems) =>
      if Alike(elems) && elems != [] then forall i :: 0 <= i < |elems| ==> Below(SirOf(elems[0]).value, elems[i])
      else forall i :: 0 <= i < |elems| ==> SirOf(elems[i]).Some? && FirstsCover(elems[i])
    case _ => true
  }

  /** Structures with equal hashes. */
  predicate Alike(elems: seq<Json>) {
    && (forall i :: 0 <= i < |elems| ==> SirOf(elems[i]).Some?)
    && (forall i :: 0 <= i < |elems| ==> Hash(SirOf(elems[i]).value) == Hash(SirOf(elems[0]).value))
  }

  // Structures and documents, one level at a time

  /** The entry is what is inferred for the pair. */
  predicate Describing(e: Entry, pair: (string, Json)) {
    && e.key == pair.0
    && SirOf(pair.1) == Some(e.field.sir)
    && (e.field.optional <==> pair.1.JNull?)
    && Keyed(pair.1)
  }

  lemma EntryDescribes(key: string, j: Json)
    requires SirOf(j).Some? && Keyed(j)
    ensures Describing(EntryOf(key, SirOf(j).value), (key, j))
  {
  }

  lemma ObjectParts(c: Sir, j: Json)
    requires SirOf(j) == Some(c) && c.Object? && Keyed(j)
    ensures j.JObj? && |j.entries| == |c.fields|
    ensures forall i :: 0 <= i < |j.entries| ==> Describing(c.fields[i], j.entries[i])
    ensures forall i, k :: 0 <= i < k < |j.entries| ==> j.entries[i].0 != j.entries[k].0
  {
    ObjectEntries(c, j);
    forall i | 0 <= i < |j.entries|
      ensures Describing(c.fields[i], j.entries[i])
    {
      FieldOf(c, j, i);
      EntryDescribes(j.entries[i].0, j.entries[i].1);
    }
  }

  lemma ArrayParts(j: Json) returns (cs: seq<Sir>)
    requires j.JArr? && Keyed(j) && SirOf(j).Some?
    ensures Describes(cs, j.elems) && Agreeable(cs) && SirOf(j).value == ArraySir(cs, j.elems)
    ensures Alike(j.elems) <==> cs == [] || OneHash(cs, Hash(cs[0]))
  {
    var elems := j.elems;
    cs := seq(|elems|, i requires 0 <= i < |elems| && SirOf(elems[i]).Some? => SirOf(elems[i]).value);
    ArrayOf(elems, cs);
    hide ArraySir, Agreeable, Hash;
    assert forall i :: 0 <= i < |elems| ==> SirOf(elems[i]).value == cs[i];
  }

  lemma ShiftedEntries(fields: seq<Entry>, structure: seq<Entry>, p: nat)
    requires p < |fields| && structure == fields[..p] + fields[p + 1..]
    ensures |structure| == |fields| - 1
    ensures forall i :: 0 <= i < |structure| ==> 0 <= Shift(p, i) < |fields| && structure[i] == fields[Shift(p, i)]
  {
  }

  /** The entries of an element of an interface: its tag at `p`, and those of its sub-type. */
  lemma Element(c: Sir, j: Json, tag: string) returns (p: nat)
    requires SirOf(j) == Some(c) && Keyed(j) && HasString(c, tag)
    ensures j.JObj? && p < |j.entries| == |SubTypeOf(c, j, tag).structure| + 1
    ensures j.entries[p] == (tag, JStr(SubTypeOf(c, j, tag).name, false))
    ensures forall i :: 0 <= i < |j.entries| - 1 ==>
      Describing(SubTypeOf(c, j, tag).structure[i], j.entries[Shift(p, i)])
    ensures forall i, k :: 0 <= i < k < |j.entries| ==> j.entries[i].0 != j.entries[k].0
  {
    p := SubTypeRestores(c, j, tag);
    assert c.Object?;
    hide *;
    ObjectParts(c, j);
    ShiftedEntries(c.fields, SubTypeOf(c, j, tag).structure, p);
    forall i | 0 <= i < |j.entries| - 1
      ensures Describing(SubTypeOf(c, j, tag).structure[i], j.entries[Shift(p, i)])
    {
      assert SubTypeOf(c, j, tag).structure[i] == c.fields[Shift(p, i)];
    }
  }

  // The inferred structure is the least that describes

  lemma ScalarHashed(s: Sir)
    requires Hash(s) == ScalarHash
    ensures Scalar(s)
  {
  }

  /** Whatever describes a document, among the structures with its hash, is above the inferred one. */
  lemma {:induction false} InferredLeast(s: Sir, j: Json)
    requires Keyed(j) && SirOf(j).Some? && Hash(s) == Hash(SirOf(j).value) && Fits(s, j)
    ensures Le(SirOf(j).value, s)
    decreases j, 2
  {
    var c := SirOf(j).value;
    match j {
      case JObj(entries) => ObjectLeast(s, j);
      case JArr(elems) => ArrayLeast(s, j);
      case _ => ScalarHashed(s);
    }
  }

  lemma {:induction false} ObjectLeast(s: Sir, j: Json)
    requires j.JObj? && Keyed(j) && SirOf(j).Some? && Hash(s) == Hash(SirOf(j).value) && Fits(s, j)
    ensures Le(SirOf(j).value, s)
    decreases j, 1
  {
    var c := SirOf(j).value;
    ObjectParts(c, j);
    SameHash(c, s);
    hide Hash, SirOf, Keyed;
    forall i | 0 <= i < |j.entries|
      ensures c.fields[i].field.optional ==> s.fields[i].field.optional
      ensures Le(c.fields[i].field.sir, s.fields[i].field.sir)
    {
      assert FitsEntry(s.fields[i], j, i) && Describing(c.fields[i], j.entries[i]);
      InferredLeast(s.fields[i].field.sir, j.entries[i].1);
    }
  }

  /** What an array's elements become, case by case. */
  lemma ArrayCases(cs: seq<Sir>, elems: seq<Json>)
    requires |cs| == |elems|
    ensures var c := ArraySir(cs, elems);
      && (cs == [] ==> c == Array(Any))
      && (cs != [] && OneHash(cs, Hash(cs[0])) ==> c == Array(JoinAll(cs)))
      && (cs != [] && !OneHash(cs, Hash(cs[0])) && PickTag(cs).None? ==>
            && c.Tuple? && |c.items| == |cs|
            && forall i :: 0 <= i < |cs| ==> c.items[i] == Field(false, cs[i]))
      && (cs != [] && !OneHash(cs, Hash(cs[0])) && PickTag(cs).Some? ==>
            c == Interface(PickTag(cs).value, SubTypesOf(cs, elems, PickTag(cs).value)))
  {
    hide Hash, PickTag, JoinAll, SubTypesOf;
  }

  lemma FitsArray(s: Sir, elems: seq<Json>)
    ensures Fits(s, JArr(elems)) ==> s.Array? || s.Tuple? || s.Interface?
    ensures s.Array? ==> (Fits(s, JArr(elems)) <==> forall i :: 0 <= i < |elems| ==> Fits(s.inner, elems[i]))
    ensures s.Tuple? ==>
      (Fits(s, JArr(elems)) <==>
       |s.items| == |elems| && forall i :: 0 <= i < |elems| ==> Fits(s.items[i].sir, elems[i]))
    ensures s.Interface? ==>
      (Fits(s, JArr(elems)) <==>
       |s.subTypes| == |elems| && forall i :: 0 <= i < |elems| ==> FitsSubType(s.tag, s.subTypes[i], elems[i]))
  {
  }

  lemma {:induction false} ArrayLeast(s: Sir, j: Json)
    requires j.JArr? && Keyed(j) && SirOf(j).Some? && Hash(s) == Hash(SirOf(j).value) && Fits(s, j)
    ensures Le(SirOf(j).value, s)
    decreases j, 1
  {
    var c, elems := SirOf(j).value, j.elems;
    var cs := ArrayParts(j);
    SameHash(c, s);
    hide *;
    ArrayCases(cs, elems);
    FitsArray(s, elems);
    if cs == [] {
      EmptyLeast(s);
    } else if OneHash(cs, Hash(cs[0])) {
      JoinAllHash(cs, Hash(cs[0]));
      UniformLeast(cs, elems, s.inner);
      LeArray(JoinAll(cs), s.inner);
    } else if PickTag(cs).None? {
      TupleLeast(cs, elems, c, s);
    } else {
      SameInterfaceHash(c, s);
      SubTypesLeast(cs, elems, PickTag(cs).value, c.subTypes, s.subTypes);
      LeInterface(c, s);
    }
  }

  lemma EmptyLeast(s: Sir)
    requires s.Array? && Hash(s.inner) == Hash(Any)
    ensures Le(Array(Any), s)
  {
    ScalarHashed(s.inner);
  }

  lemma LeInterface(a: Sir, b: Sir)
    requires a.Interface? && b.Interface? && a.tag == b.tag && |a.subTypes| == |b.subTypes|
    requires forall i :: 0 <= i < |a.subTypes| ==>
      a.subTypes[i].name == b.subTypes[i].name && LeEntries(a.subTypes[i].structure, b.subTypes[i].structure)
    ensures Le(a, b)
  {
  }

  lemma {:induction false} UniformLeast(cs: seq<Sir>, elems: seq<Json>, s: Sir)
    requires Describes(cs, elems) && cs != [] && OneHash(cs, Hash(s))
    requires forall i :: 0 <= i < |elems| ==> Fits(s, elems[i])
    ensures Le(JoinAll(cs), s)
    decreases elems, 3
  {
    hide SirOf, Keyed, Le, Hash;
    forall i | 0 <= i < |elems| ensures Le(cs[i], s) {
      InferredLeast(s, elems[i]);
    }
    JoinAllLeast(cs, Hash(s), s);
  }

  lemma {:induction false} TupleLeast(cs: seq<Sir>, elems: seq<Json>, c: Sir, s: Sir)
    requires Describes(cs, elems) && c.Tuple? && s.Tuple? && |c.items| == |s.items| == |cs|
    requires forall i :: 0 <= i < |cs| ==> c.items[i] == Field(false, cs[i])
    requires SameItemHashes(c.items, s.items) && forall i :: 0 <= i < |elems| ==> Fits(s.items[i].sir, elems[i])
    ensures Le(c, s)
    decreases elems, 3
  {
    hide SirOf, Keyed, Hash, Fits;
    forall i | 0 <= i < |elems| ensures Le(cs[i], s.items[i].sir) {
      assert Hash(c.items[i].sir) == Hash(s.items[i].sir);
      InferredLeast(s.items[i].sir, elems[i]);
    }
  }

  lemma {:induction false} SubTypesLeast(
    cs: seq<Sir>, elems: seq<Json>, tag: string, least: seq<SubType>, subs: seq<SubType>
  )
    requires Describes(cs, elems) && CommonKey(cs, tag) && least == SubTypesOf(cs, elems, tag) && |subs| == |cs|
    requires forall i :: 0 <= i < |elems| ==>
      SameEntryHashes(least[i].structure, subs[i].structure) && FitsSubType(tag, subs[i], elems[i])
    ensures forall i :: 0 <= i < |elems| ==> LeEntries(least[i].structure, subs[i].structure)
    decreases elems, 3
  {
    hide SirOf, Keyed, SubTypeOf, FitsSubType, LeEntries, SameEntryHashes, GetField;
    forall i | 0 <= i < |elems| ensures LeEntries(least[i].structure, subs[i].structure) {
      assert HasString(cs[i], tag) && SirOf(elems[i]) == Some(cs[i]) && Keyed(elems[i]);
      assert least[i] == SubTypeOf(cs[i], elems[i], tag);
      SubTypeLeast(cs[i], elems[i], tag, subs[i]);
    }
  }

  lemma LeArray(a: Sir, b: Sir)
    requires Le(a, b)
    ensures Le(Array(a), Array(b))
  {
  }

  lemma {:induction false} SubTypeLeast(c: Sir, j: Json, tag: string, sub: SubType)
    requires SirOf(j) == Some(c) && Keyed(j) && HasString(c, tag) && FitsSubType(tag, sub, j)
    requires SameEntryHashes(SubTypeOf(c, j, tag).structure, sub.structure)
    ensures LeEntries(SubTypeOf(c, j, tag).structure, sub.structure)
    decreases j, 1
  {
    var p := Element(c, j, tag);
    var q :| 0 <= q < |j.entries| && TaggedAt(tag, sub, j, q);
    assert p == q;
    var least := SubTypeOf(c, j, tag).structure;
    hide SirOf, Keyed, HasString, SubTypeOf, Le, Hash;
    forall i | 0 <= i < |least|
      ensures least[i].field.optional ==> sub.structure[i].field.optional
      ensures Le(least[i].field.sir, sub.structure[i].field.sir)
    {
      var k := Shift(p, i);
      assert Describing(least[i], j.entries[k]) && FitsEntry(sub.structure[i], j, k);
      InferredLeast(sub.structure[i].field.sir, j.entries[k].1);
    }
  }

  // A document fits where it is covered

  lemma {:induction false} LeIsOutside(a: Sir, b: Sir)
    requires Le(a, b)
    ensures LeOutside(a, b)
    decreases a
  {
    match a {
      case Object(fields) =>
        forall i | 0 <= i < |fields| ensures LeOutside(fields[i].field.sir, b.fields[i].field.sir) {
          LeIsOutside(fields[i].field.sir, b.fields[i].field.sir);
        }
      case Array(inner) => LeIsOutside(inner, b.inner);
      case Tuple(items) =>
        forall i | 0 <= i < |items| ensures LeOutside(items[i].sir, b.items[i].sir) {
          LeIsOutside(items[i].sir, b.items[i].sir);
        }
      case _ =>
    }
  }

  lemma {:induction false} OutsideTransitive(a: Sir, b: Sir, c: Sir)
    requires LeOutside(a, b) && LeOutside(b, c)
    ensures LeOutside(a, c)
    decreases a
  {
    match a {
      case Object(fields) =>
        forall i | 0 <= i < |fields| ensures LeOutside(fields[i].field.sir, c.fields[i].field.sir) {
          OutsideTransitive(fields[i].field.sir, b.fields[i].field.sir, c.fields[i].field.sir);
        }
      case Array(inner) => OutsideTransitive(inner, b.inner, c.inner);
      case Tuple(items) =>
        forall i | 0 <= i < |items| ensures LeOutside(items[i].sir, c.items[i].sir) {
          OutsideTransitive(items[i].sir, b.items[i].sir, c.items[i].sir);
        }
      case _ =>
    }
  }

  lemma ScalarOutside(a: Sir, b: Sir)
    requires Scalar(a) && Scalar(b) && Refinable(a, b)
    ensures LeOutside(a, Join(a, b)) && LeOutside(b, Join(a, b))
  {
    if b.Any? {
      assert Join(a, b) == a;
    } else {
      assert Join(a, b) == b;
    }
  }

  /** Outside of interfaces a join is an upper bound. */
  lemma {:induction false} JoinOutside(a: Sir, b: Sir)
    requires Hash(a) == Hash(b) && Refinable(a, b)
    ensures LeOutside(a, Join(a, b)) && LeOutside(b, Join(a, b))
    decreases a, 1
  {
    SameHash(a, b);
    JoinParts(a, b);
    hide Hash;
    match a {
      case Object(fields) =>
        hide Join;
        FieldsOutside(fields, b.fields, Join(a, b).fields);
      case Array(inner) => JoinOutside(inner, b.inner);
      case Tuple(items) =>
        hide Join;
        forall i | 0 <= i < |items|
          ensures LeOutside(items[i].sir, Join(a, b).items[i].sir)
          ensures LeOutside(b.items[i].sir, Join(a, b).items[i].sir)
        {
          JoinOutside(items[i].sir, b.items[i].sir);
        }
      case Interface(_, _) =>
      case _ => ScalarOutside(a, b);
    }
  }

  lemma {:induction false} FieldsOutside(fs: seq<Entry>, gs: seq<Entry>, hs: seq<Entry>)
    requires SameEntryHashes(fs, gs) && |hs| == |fs|
    requires forall i :: 0 <= i < |fs| ==>
      Refinable(fs[i].field.sir, gs[i].field.sir) && hs[i].field.sir == Join(fs[i].field.sir, gs[i].field.sir)
    ensures forall i :: 0 <= i < |fs| ==>
      LeOutside(fs[i].field.sir, hs[i].field.sir) && LeOutside(gs[i].field.sir, hs[i].field.sir)
    decreases fs, 0
  {
    hide Hash, Join, Refinable, LeOutside;
    forall i | 0 <= i < |fs|
      ensures LeOutside(fs[i].field.sir, hs[i].field.sir) && LeOutside(gs[i].field.sir, hs[i].field.sir)
    {
      JoinOutside(fs[i].field.sir, gs[i].field.sir);
    }
  }

  /** At an interface it is the first structure. */
  lemma {:induction false} JoinSame(a: Sir, b: Sir)
    requires Hash(a) == Hash(b)
    ensures SameInterfaces(a, Join(a, b))
    decreases a
  {
    SameHash(a, b);
    JoinParts(a, b);
    hide Hash;
    match a {
      case Object(fields) =>
        hide Join;
        forall i | 0 <= i < |fields|
          ensures SameInterfaces(fields[i].field.sir, Join(a, b).fields[i].field.sir)
        {
          JoinSame(fields[i].field.sir, b.fields[i].field.sir);
        }
      case Array(inner) => JoinSame(inner, b.inner);
      case Tuple(items) =>
        hide Join;
        forall i | 0 <= i < |items|
          ensures SameInterfaces(items[i].sir, Join(a, b).items[i].sir)
        {
          JoinSame(items[i].sir, b.items[i].sir);
        }
      case _ =>
    }
  }

  /** The same structure but for scalars. */
  predicate SameInterfaces(a: Sir, b: Sir)
    decreases a
  {
    match a
    case Object(fields) =>
      b.Object? && |fields| == |b.fields| &&
      forall i :: 0 <= i < |fields| ==> SameInterfaces(fields[i].field.sir, b.fields[i].field.sir)
    case Interface(_, _) => a == b
    case Array(inner) => b.Array? && SameInterfaces(inner, b.inner)
    case Tuple(items) =>
      b.Tuple? && |items| == |b.items| &&
      forall i :: 0 <= i < |items| ==> SameInterfaces(items[i].sir, b.items[i].sir)
    case _ => Scalar(b)
  }

  lemma {:induction false} SameTransitive(a: Sir, b: Sir, c: Sir)
    requires SameInterfaces(a, b) && SameInterfaces(b, c)
    ensures SameInterfaces(a, c)
    decreases a
  {
    match a {
      case Object(fields) =>
        forall i | 0 <= i < |fields| ensures SameInterfaces(fields[i].field.sir, c.fields[i].field.sir) {
          SameTransitive(fields[i].field.sir, b.fields[i].field.sir, c.fields[i].field.sir);
        }
      case Array(inner) => SameTransitive(inner, b.inner, c.inner);
      case Tuple(items) =>
        forall i | 0 <= i < |items| ensures SameInterfaces(items[i].sir, c.items[i].sir) {
          SameTransitive(items[i].sir, b.items[i].sir, c.items[i].sir);
        }
      case _ =>
    }
  }

  lemma {:induction false} SameReflexive(a: Sir)
    ensures SameInterfaces(a, a)
  {
    match a {
      case Object(fields) => forall i | 0 <= i < |fields| { SameReflexive(fields[i].field.sir); }
      case Array(inner) => SameReflexive(inner);
      case Tuple(items) => forall i | 0 <= i < |items| { SameReflexive(items[i].sir); }
      case _ =>
    }
  }

  lemma {:induction false} JoinAllOutside(cs: seq<Sir>, h: HashSir)
    requires cs != [] && OneHash(cs, h) && Agreeable(cs)
    ensures forall i :: 0 <= i < |cs| ==> LeOutside(cs[i], JoinAll(cs))
    ensures SameInterfaces(cs[0], JoinAll(cs))
  {
    hide Hash, LeOutside, SameInterfaces, Join, Refinable;
    if |cs| == 1 {
      LeReflexive(cs[0]);
      LeIsOutside(cs[0], cs[0]);
      SameReflexive(cs[0]);
    } else {
      var prefix, last := cs[..|cs| - 1], cs[|cs| - 1];
      JoinAllHash(prefix, h);
      JoinAllOutside(prefix, h);
      forall k | 0 <= k < |prefix| ensures Refinable(prefix[k], last) {
        assert Refinable(cs[k], cs[|cs| - 1]);
      }
      JoinAllRefinable(prefix, h, last);
      JoinOutside(JoinAll(prefix), last);
      JoinSame(JoinAll(prefix), last);
      forall i | 0 <= i < |cs| ensures LeOutside(cs[i], JoinAll(cs)) {
        if i < |prefix| {
          assert prefix[i] == cs[i];
          OutsideTransitive(cs[i], JoinAll(prefix), JoinAll(cs));
        }
      }
      SameTransitive(cs[0], JoinAll(prefix), JoinAll(cs));
    }
  }

  lemma BelowArray(s: Sir, j: Json)
    requires j.JArr?
    ensures Below(s, j) ==> s.Array? || s.Tuple? || s.Interface?
    ensures s.Array? ==> (Below(s, j) <==> forall i :: 0 <= i < |j.elems| ==> Below(s.inner, j.elems[i]))
    ensures s.Tuple? ==>
      (Below(s, j) <==>
       |s.items| == |j.elems| && forall i :: 0 <= i < |j.elems| ==> Below(s.items[i].sir, j.elems[i]))
    ensures s.Interface? ==>
      (Below(s, j) <==>
       && SirOf(j).Some? && Le(SirOf(j).value, s) && |s.subTypes| == |j.elems|
       && forall i :: 0 <= i < |j.elems| ==> EntriesBelow(s.subTypes[i].structure, j.elems[i]))
  {
  }

  lemma SameArray(a: Sir, b: Sir)
    requires SameInterfaces(a, b)
    ensures a.Array? <==> b.Array?
    ensures a.Tuple? <==> b.Tuple?
    ensures a.Interface? <==> b.Interface?
    ensures a.Array? ==> SameInterfaces(a.inner, b.inner)
    ensures a.Interface? ==> a == b
    ensures a.Tuple? ==>
      |a.items| == |b.items| && forall i :: 0 <= i < |a.items| ==> SameInterfaces(a.items[i].sir, b.items[i].sir)
  {
  }

  lemma BelowObject(s: Sir, j: Json)
    requires j.JObj?
    ensures Below(s, j) <==>
      && s.Object? && |s.fields| == |j.entries|
      && forall i :: 0 <= i < |j.entries| ==> Below(s.fields[i].field.sir, j.entries[i].1)
  {
  }

  lemma SameObject(a: Sir, b: Sir)
    requires SameInterfaces(a, b)
    ensures a.Object? <==> b.Object?
    ensures a.Object? ==>
      && |a.fields| == |b.fields|
      && forall i :: 0 <= i < |a.fields| ==> SameInterfaces(a.fields[i].field.sir, b.fields[i].field.sir)
  {
  }

  lemma ScalarBelow(s: Sir, j: Json)
    requires !j.JArr? && !j.JObj?
    ensures Below(s, j)
  {
  }

  /** What is below depends on the interfaces only. */
  lemma {:induction false} BelowAgree(a: Sir, b: Sir, j: Json)
    requires SameInterfaces(a, b)
    ensures Below(a, j) <==> Below(b, j)
    decreases j, 1
  {
    hide *;
    if j.JArr? {
      ArrayAgree(a, b, j);
    } else if j.JObj? {
      SameObject(a, b);
      BelowObject(a, j);
      BelowObject(b, j);
      if a.Object? && |a.fields| == |j.entries| {
        forall i | 0 <= i < |j.entries|
          ensures Below(a.fields[i].field.sir, j.entries[i].1) <==> Below(b.fields[i].field.sir, j.entries[i].1)
        {
          BelowAgree(a.fields[i].field.sir, b.fields[i].field.sir, j.entries[i].1);
        }
      }
    } else {
      ScalarBelow(a, j);
      ScalarBelow(b, j);
    }
  }

  lemma {:induction false} ArrayAgree(a: Sir, b: Sir, j: Json)
    requires j.JArr? && SameInterfaces(a, b)
    ensures Below(a, j) <==> Below(b, j)
    decreases j, 0
  {
    hide *;
    SameArray(a, b);
    BelowArray(a, j);
    BelowArray(b, j);
    if a.Array? {
      forall i | 0 <= i < |j.elems| ensures Below(a.inner, j.elems[i]) <==> Below(b.inner, j.elems[i]) {
        BelowAgree(a.inner, b.inner, j.elems[i]);
      }
    } else if a.Tuple? && |a.items| == |j.elems| {
      forall i | 0 <= i < |j.elems|
        ensures Below(a.items[i].sir, j.elems[i]) <==> Below(b.items[i].sir, j.elems[i])
      {
        BelowAgree(a.items[i].sir, b.items[i].sir, j.elems[i]);
      }
    }
  }

  lemma LeOutsideArray(a: Sir, b: Sir)
    requires LeOutside(a, b)
    ensures a.Array? ==> b.Array? && LeOutside(a.inner, b.inner)
    ensures a.Tuple? ==>
      b.Tuple? && |a.items| == |b.items| && forall i :: 0 <= i < |a.items| ==> LeOutside(a.items[i].sir, b.items[i].sir)
  {
  }

  lemma {:induction false} BelowFits(s: Sir, j: Json)
    requires Keyed(j) && SirOf(j).Some? && Hash(s) == Hash(SirOf(j).value)
    requires LeOutside(SirOf(j).value, s) && Below(s, j)
    ensures Fits(s, j)
    decreases j, 2
  {
    match j {
      case JObj(entries) => ObjectFits(s, j);
      case JArr(elems) => ArrayFits(s, j);
      case _ => ScalarHashed(s);
    }
  }

  lemma {:induction false} ObjectFits(s: Sir, j: Json)
    requires j.JObj? && Keyed(j) && SirOf(j).Some? && Hash(s) == Hash(SirOf(j).value)
    requires LeOutside(SirOf(j).value, s) && Below(s, j)
    ensures Fits(s, j)
    decreases j, 1
  {
    var c := SirOf(j).value;
    ObjectParts(c, j);
    SameHash(c, s);
    hide Hash, SirOf, Keyed;
    forall i | 0 <= i < |j.entries|
      ensures FitsEntry(s.fields[i], j, i)
    {
      assert Describing(c.fields[i], j.entries[i]);
      BelowFits(s.fields[i].field.sir, j.entries[i].1);
    }
  }

  lemma {:induction false} ArrayFits(s: Sir, j: Json)
    requires j.JArr? && Keyed(j) && SirOf(j).Some? && Hash(s) == Hash(SirOf(j).value)
    requires LeOutside(SirOf(j).value, s) && Below(s, j)
    ensures Fits(s, j)
    decreases j, 1
  {
    var c, elems := SirOf(j).value, j.elems;
    var cs := ArrayParts(j);
    SameHash(c, s);
    hide *;
    ArrayCases(cs, elems);
    LeOutsideArray(c, s);
    BelowArray(s, j);
    FitsArray(s, elems);
    if cs == [] {
      NoElements(cs, elems);
    } else if OneHash(cs, Hash(cs[0])) {
      JoinAllHash(cs, Hash(cs[0]));
      JoinAllOutside(cs, Hash(cs[0]));
      forall i | 0 <= i < |cs| ensures LeOutside(cs[i], s.inner) {
        OutsideTransitive(cs[i], JoinAll(cs), s.inner);
      }
      UniformFits(cs, elems, s.inner);
    } else if PickTag(cs).None? {
      TupleFits(cs, elems, c, s);
    } else {
      SameInterfaceHash(c, s);
      LeSubTypes(c, s);
      SubTypesFit(cs, elems, PickTag(cs).value, c.subTypes, s.subTypes);
    }
  }

  lemma NoElements(cs: seq<Sir>, elems: seq<Json>)
    requires Describes(cs, elems) && cs == []
    ensures elems == []
  {
  }

  lemma LeSubTypes(a: Sir, b: Sir)
    requires Le(a, b) && a.Interface?
    ensures b.Interface? && a.tag == b.tag && |a.subTypes| == |b.subTypes|
    ensures forall i :: 0 <= i < |a.subTypes| ==>
      a.subTypes[i].name == b.subTypes[i].name && LeEntries(a.subTypes[i].structure, b.subTypes[i].structure)
  {
  }

  lemma {:induction false} UniformFits(cs: seq<Sir>, elems: seq<Json>, s: Sir)
    requires Describes(cs, elems) && OneHash(cs, Hash(s))
    requires forall i :: 0 <= i < |elems| ==> LeOutside(cs[i], s) && Below(s, elems[i])
    ensures forall i :: 0 <= i < |elems| ==> Fits(s, elems[i])
    decreases elems, 3
  {
    hide SirOf, Keyed, Hash, Fits, Below, LeOutside;
    forall i | 0 <= i < |elems| ensures Fits(s, elems[i]) {
      BelowFits(s, elems[i]);
    }
  }

  lemma {:induction false} TupleFits(cs: seq<Sir>, elems: seq<Json>, c: Sir, s: Sir)
    requires Describes(cs, elems) && c.Tuple? && s.Tuple? && |c.items| == |s.items| == |cs|
    requires forall i :: 0 <= i < |cs| ==> c.items[i] == Field(false, cs[i])
    requires SameItemHashes(c.items, s.items)
    requires forall i :: 0 <= i < |elems| ==>
      LeOutside(c.items[i].sir, s.items[i].sir) && Below(s.items[i].sir, elems[i])
    ensures forall i :: 0 <= i < |elems| ==> Fits(s.items[i].sir, elems[i])
    decreases elems, 3
  {
    hide SirOf, Keyed, Hash, Fits, Below, LeOutside;
    forall i | 0 <= i < |elems| ensures Fits(s.items[i].sir, elems[i]) {
      assert Hash(c.items[i].sir) == Hash(s.items[i].sir);
      BelowFits(s.items[i].sir, elems[i]);
    }
  }

  lemma {:induction false} SubTypesFit(
    cs: seq<Sir>, elems: seq<Json>, tag: string, least: seq<SubType>, subs: seq<SubType>
  )
    requires Describes(cs, elems) && CommonKey(cs, tag) && least == SubTypesOf(cs, elems, tag) && |subs| == |cs|
    requires forall i :: 0 <= i < |elems| ==>
      && SameEntryHashes(least[i].structure, subs[i].structure)
      && least[i].name == subs[i].name && LeEntries(least[i].structure, subs[i].structure)
      && EntriesBelow(subs[i].structure, elems[i])
    ensures forall i :: 0 <= i < |elems| ==> FitsSubType(tag, subs[i], elems[i])
    decreases elems, 3
  {
    hide SirOf, Keyed, SubTypeOf, FitsSubType, LeEntries, SameEntryHashes, GetField, EntriesBelow;
    forall i | 0 <= i < |elems| ensures FitsSubType(tag, subs[i], elems[i]) {
      assert HasString(cs[i], tag) && SirOf(elems[i]) == Some(cs[i]) && Keyed(elems[i]);
      assert least[i] == SubTypeOf(cs[i], elems[i], tag);
      SubTypeFits(cs[i], elems[i], tag, subs[i]);
    }
  }

  lemma {:induction false} SubTypeFits(c: Sir, j: Json, tag: string, sub: SubType)
    requires SirOf(j) == Some(c) && Keyed(j) && HasString(c, tag) && sub.name == SubTypeOf(c, j, tag).name
    requires SameEntryHashes(SubTypeOf(c, j, tag).structure, sub.structure)
    requires LeEntries(SubTypeOf(c, j, tag).structure, sub.structure) && EntriesBelow(sub.structure, j)
    ensures FitsSubType(tag, sub, j)
    decreases j, 1
  {
    var p := Element(c, j, tag);
    var least := SubTypeOf(c, j, tag).structure;
    hide SirOf, Keyed, HasString, SubTypeOf, Hash, Le, LeOutside, Fits, Below;
    forall i | 0 <= i < |least|
      ensures FitsEntry(sub.structure[i], j, Shift(p, i))
    {
      var k := Shift(p, i);
      assert Describing(least[i], j.entries[k]);
      LeIsOutside(least[i].field.sir, sub.structure[i].field.sir);
      assert Below(sub.structure[i].field.sir, j.entries[k].1);
      BelowFits(sub.structure[i].field.sir, j.entries[k].1);
    }
    assert TaggedAt(tag, sub, j, p);
  }

  // A document that fits is covered

  lemma {:induction false} FitsBelow(s: Sir, j: Json)
    requires Keyed(j) && SirOf(j).Some? && Hash(s) == Hash(SirOf(j).value) && Fits(s, j)
    ensures Below(s, j)
    decreases j, 2
  {
    match j {
      case JObj(entries) =>
        var c := SirOf(j).value;
        ObjectParts(c, j);
        SameHash(c, s);
        hide Hash, SirOf, Keyed;
        forall i | 0 <= i < |entries|
          ensures Below(s.fields[i].field.sir, entries[i].1)
        {
          assert FitsEntry(s.fields[i], j, i) && Describing(c.fields[i], j.entries[i]);
          FitsBelow(s.fields[i].field.sir, entries[i].1);
        }
      case JArr(elems) => ArrayBelow(s, j);
      case _ =>
    }
  }

  lemma {:induction false} ArrayBelow(s: Sir, j: Json)
    requires j.JArr? && Keyed(j) && SirOf(j).Some? && Hash(s) == Hash(SirOf(j).value) && Fits(s, j)
    ensures Below(s, j)
    decreases j, 1
  {
    var c, elems := SirOf(j).value, j.elems;
    InferredLeast(s, j);
    var cs := ArrayParts(j);
    SameHash(c, s);
    hide *;
    ArrayCases(cs, elems);
    BelowArray(s, j);
    FitsArray(s, elems);
    if cs == [] {
      NoElements(cs, elems);
    } else if OneHash(cs, Hash(cs[0])) {
      JoinAllHash(cs, Hash(cs[0]));
      UniformBelow(cs, elems, s.inner);
    } else if PickTag(cs).None? {
      TupleBelow(cs, elems, c, s);
    } else {
      SameInterfaceHash(c, s);
      SubTypesBelow(cs, elems, PickTag(cs).value, c.subTypes, s.subTypes);
    }
  }

  lemma {:induction false} UniformBelow(cs: seq<Sir>, elems: seq<Json>, s: Sir)
    requires Describes(cs, elems) && OneHash(cs, Hash(s)) && forall i :: 0 <= i < |elems| ==> Fits(s, elems[i])
    ensures forall i :: 0 <= i < |elems| ==> Below(s, elems[i])
    decreases elems, 3
  {
    hide SirOf, Keyed, Hash, Fits, Below;
    forall i | 0 <= i < |elems| ensures Below(s, elems[i]) {
      FitsBelow(s, elems[i]);
    }
  }

  lemma {:induction false} TupleBelow(cs: seq<Sir>, elems: seq<Json>, c: Sir, s: Sir)
    requires Describes(cs, elems) && c.Tuple? && s.Tuple? && |c.items| == |s.items| == |cs|
    requires forall i :: 0 <= i < |cs| ==> c.items[i] == Field(false, cs[i])
    requires SameItemHashes(c.items, s.items) && forall i :: 0 <= i < |elems| ==> Fits(s.items[i].sir, elems[i])
    ensures forall i :: 0 <= i < |elems| ==> Below(s.items[i].sir, elems[i])
    decreases elems, 3
  {
    hide SirOf, Keyed, Hash, Fits, Below;
    forall i | 0 <= i < |elems| ensures Below(s.items[i].sir, elems[i]) {
      assert Hash(c.items[i].sir) == Hash(s.items[i].sir);
      FitsBelow(s.items[i].sir, elems[i]);
    }
  }

  lemma {:induction false} SubTypesBelow(
    cs: seq<Sir>, elems: seq<Json>, tag: string, least: seq<SubType>, subs: seq<SubType>
  )
    requires Describes(cs, elems) && CommonKey(cs, tag) && least == SubTypesOf(cs, elems, tag) && |subs| == |cs|
    requires forall i :: 0 <= i < |elems| ==>
      SameEntryHashes(least[i].structure, subs[i].structure) && FitsSubType(tag, subs[i], elems[i])
    ensures forall i :: 0 <= i < |elems| ==> EntriesBelow(subs[i].structure, elems[i])
    decreases elems, 3
  {
    hide SirOf, Keyed, SubTypeOf, FitsSubType, SameEntryHashes, GetField, EntriesBelow;
    forall i | 0 <= i < |elems| ensures EntriesBelow(subs[i].structure, elems[i]) {
      assert HasString(cs[i], tag) && SirOf(elems[i]) == Some(cs[i]) && Keyed(elems[i]);
      assert least[i] == SubTypeOf(cs[i], elems[i], tag);
      SubTypeBelow(cs[i], elems[i], tag, subs[i]);
    }
  }

  lemma {:induction false} SubTypeBelow(c: Sir, j: Json, tag: string, sub: SubType)
    requires SirOf(j) == Some(c) && Keyed(j) && HasString(c, tag) && FitsSubType(tag, sub, j)
    requires SameEntryHashes(SubTypeOf(c, j, tag).structure, sub.structure)
    ensures EntriesBelow(sub.structure, j)
    decreases j, 1
  {
    var p := Element(c, j, tag);
    var q :| 0 <= q < |j.entries| && TaggedAt(tag, sub, j, q);
    assert p == q;
    var least := SubTypeOf(c, j, tag).structure;
    hide SirOf, Keyed, HasString, SubTypeOf, Hash, Fits, Below;
    forall i, k | 0 <= i < |sub.structure| && 0 <= k < |j.entries| && sub.structure[i].key == j.entries[k].0
      ensures Below(sub.structure[i].field.sir, j.entries[k].1)
    {
      var m := Shift(p, i);
      assert Describing(least[i], j.entries[m]) && FitsEntry(sub.structure[i], j, m);
      assert m == k;
      FitsBelow(sub.structure[i].field.sir, j.entries[k].1);
    }
  }

  // The condition on the document

  lemma CoverArray(j: Json)
    requires j.JArr? && SirOf(j).Some?
    ensures FirstsCover(j) <==>
      if Alike(j.elems) && j.elems != [] then
        forall i :: 0 <= i < |j.elems| ==> Below(SirOf(j.elems[0]).value, j.elems[i])
      else forall i :: 0 <= i < |j.elems| ==> SirOf(j.elems[i]).Some? && FirstsCover(j.elems[i])
  {
    hide SirOf, Below, Alike;
  }

  lemma {:induction false} Covered(j: Json)
    requires Keyed(j) && SirOf(j).Some?
    ensures Below(SirOf(j).value, j) <==> FirstsCover(j)
    decreases j, 2
  {
    match j {
      case JObj(entries) => ObjectCovered(j);
      case JArr(elems) => ArrayCovered(j);
      case _ =>
    }
  }

  lemma {:induction false} ObjectCovered(j: Json)
    requires j.JObj? && Keyed(j) && SirOf(j).Some?
    ensures Below(SirOf(j).value, j) <==> FirstsCover(j)
    decreases j, 1
  {
    var c := SirOf(j).value;
    ObjectParts(c, j);
    hide SirOf, Keyed;
    forall i | 0 <= i < |j.entries|
      ensures SirOf(j.entries[i].1).Some?
      ensures Below(c.fields[i].field.sir, j.entries[i].1) <==> FirstsCover(j.entries[i].1)
    {
      assert Describing(c.fields[i], j.entries[i]);
      Covered(j.entries[i].1);
    }
  }

  lemma {:induction false} ArrayCovered(j: Json)
    requires j.JArr? && Keyed(j) && SirOf(j).Some?
    ensures Below(SirOf(j).value, j) <==> FirstsCover(j)
    decreases j, 1
  {
    var c, elems := SirOf(j).value, j.elems;
    var cs := ArrayParts(j);
    hide *;
    ArrayCases(cs, elems);
    BelowArray(c, j);
    CoverArray(j);
    DescribedSome(cs, elems);
    if cs == [] {
    } else if OneHash(cs, Hash(cs[0])) {
      JoinAllOutside(cs, Hash(cs[0]));
      forall i | 0 <= i < |elems| ensures Below(JoinAll(cs), elems[i]) <==> Below(cs[0], elems[i]) {
        BelowAgree(cs[0], JoinAll(cs), elems[i]);
      }
    } else if PickTag(cs).None? {
      forall i | 0 <= i < |elems| ensures Below(c.items[i].sir, elems[i]) <==> FirstsCover(elems[i]) {
        Covered(elems[i]);
      }
    } else {
      LeReflexive(c);
      SubTypesCovered(cs, elems, PickTag(cs).value, c.subTypes);
    }
  }

  lemma DescribedSome(cs: seq<Sir>, elems: seq<Json>)
    requires Describes(cs, elems)
    ensures |cs| == |elems| && forall i :: 0 <= i < |cs| ==> SirOf(elems[i]) == Some(cs[i]) && Keyed(elems[i])
  {
  }

  lemma {:induction false} SubTypesCovered(cs: seq<Sir>, elems: seq<Json>, tag: string, least: seq<SubType>)
    requires Describes(cs, elems) && CommonKey(cs, tag) && least == SubTypesOf(cs, elems, tag)
    ensures |least| == |elems|
    ensures forall i :: 0 <= i < |elems| ==>
      SirOf(elems[i]).Some? && (EntriesBelow(least[i].structure, elems[i]) <==> FirstsCover(elems[i]))
    decreases elems, 3
  {
    hide SirOf, Keyed, SubTypeOf, GetField, EntriesBelow, FirstsCover;
    forall i | 0 <= i < |elems| ensures EntriesBelow(least[i].structure, elems[i]) <==> FirstsCover(elems[i]) {
      assert HasString(cs[i], tag) && SirOf(elems[i]) == Some(cs[i]) && Keyed(elems[i]);
      assert least[i] == SubTypeOf(cs[i], elems[i], tag);
      ElementCovered(cs[i], elems[i], tag);
    }
  }

  lemma {:induction false} ElementCovered(c: Sir, j: Json, tag: string)
    requires SirOf(j) == Some(c) && Keyed(j) && HasString(c, tag)
    ensures EntriesBelow(SubTypeOf(c, j, tag).structure, j) <==> FirstsCover(j)
    decreases j, 1
  {
    var p := Element(c, j, tag);
    var least := SubTypeOf(c, j, tag).structure;
    assert FirstsCover(j.entries[p].1);
    EntriesSome(c, j);
    hide SirOf, Keyed, HasString, SubTypeOf, Below;
    forall i | 0 <= i < |least|
      ensures Below(least[i].field.sir, j.entries[Shift(p, i)].1) <==> FirstsCover(j.entries[Shift(p, i)].1)
    {
      assert Describing(least[i], j.entries[Shift(p, i)]);
      Covered(j.entries[Shift(p, i)].1);
    }
    ElementEntries(j, least, p);
  }

  lemma EntriesSome(c: Sir, j: Json)
    requires SirOf(j) == Some(c) && j.JObj?
    ensures forall i :: 0 <= i < |j.entries| ==> SirOf(j.entries[i].1).Some?
  {
  }

  lemma ElementEntries(j: Json, least: seq<Entry>, p: nat)
    requires j.JObj? && SirOf(j).Some? && |least| == |j.entries| - 1 && p < |j.entries|
    requires forall i :: 0 <= i < |j.entries| ==> SirOf(j.entries[i].1).Some?
    requires forall i, k :: 0 <= i < k < |j.entries| ==> j.entries[i].0 != j.entries[k].0
    requires FirstsCover(j.entries[p].1)
    requires forall i :: 0 <= i < |least| ==>
      && least[i].key == j.entries[Shift(p, i)].0
      && (Below(least[i].field.sir, j.entries[Shift(p, i)].1) <==> FirstsCover(j.entries[Shift(p, i)].1))
    ensures EntriesBelow(least, j) <==> FirstsCover(j)
  {
    hide SirOf, Below;
    if EntriesBelow(least, j) {
      forall k | 0 <= k < |j.entries|
        ensures FirstsCover(j.entries[k].1)
      {
        if k != p {
          var i := if k < p then k else k - 1;
          assert Shift(p, i) == k && least[i].key == j.entries[k].0;
        }
      }
    }
    if FirstsCover(j) {
      forall i, k | 0 <= i < |least| && 0 <= k < |j.entries| && least[i].key == j.entries[k].0
        ensures Below(least[i].field.sir, j.entries[k].1)
      {
        assert Shift(p, i) == k;
      }
    }
  }

  // The main theorem

  /** The inferred structure describes its document if and only if, in every array of alike elements, the
      interfaces of all elements are below those of the first. */
  lemma InferredFits(j: Json)
    requires Keyed(j) && SirOf(j).Some?
    ensures Fits(SirOf(j).value, j) <==> FirstsCover(j)
  {
    hide *;
    var c := SirOf(j).value;
    Covered(j);
    LeReflexive(c);
    LeIsOutside(c, c);
    if Fits(c, j) {
      FitsBelow(c, j);
    }
    if Below(c, j) {
      BelowFits(c, j);
    }
  }

  // A condition array by array

  /** Interfaces of `a` are below those at the same place in `b`. */
  predicate InterfacesLe(a: Sir, b: Sir)
    decreases a
  {
    match a
    case Object(fields) =>
      b.Object? && |fields| == |b.fields| &&
      forall i :: 0 <= i < |fields| ==> InterfacesLe(fields[i].field.sir, b.fields[i].field.sir)
    case Interface(_, _) => Le(a, b)
    case Array(inner) => b.Array? && InterfacesLe(inner, b.inner)
    case Tuple(items) =>
      b.Tuple? && |items| == |b.items| &&
      forall i :: 0 <= i < |items| ==> InterfacesLe(items[i].sir, b.items[i].sir)
    case _ => true
  }

  /** In every array of alike elements, at every depth, each element's interfaces are below those of the
      first. */
  predicate Stepwise(j: Json) {
    match j
    case JObj(entries) => forall i :: 0 <= i < |entries| ==> Stepwise(entries[i].1)
    case JArr(elems) =>
      && (forall i :: 0 <= i < |elems| ==> Stepwise(elems[i]))
      && (Alike(elems) ==>
            forall i :: 0 <= i < |elems| ==> InterfacesLe(SirOf(elems[i]).value, SirOf(elems[0]).value))
    case _ => true
  }

  lemma {:induction false} BothLe(a: Sir, b: Sir, c: Sir)
    requires LeOutside(a, c) && InterfacesLe(a, b) && SameInterfaces(b, c)
    ensures Le(a, c)
    decreases a
  {
    match a {
      case Object(fields) =>
        forall i | 0 <= i < |fields| ensures Le(fields[i].field.sir, c.fields[i].field.sir) {
          BothLe(fields[i].field.sir, b.fields[i].field.sir, c.fields[i].field.sir);
        }
      case Array(inner) => BothLe(inner, b.inner, c.inner);
      case Tuple(items) =>
        forall i | 0 <= i < |items| ensures Le(items[i].sir, c.items[i].sir) {
          BothLe(items[i].sir, b.items[i].sir, c.items[i].sir);
        }
      case _ =>
    }
  }

  /** That condition is enough. (It is more than is needed: a wide interface in the first element also covers
      an array in a later one that does not describe itself.) */
  lemma {:induction false} StepwiseFits(j: Json)
    requires Keyed(j) && SirOf(j).Some? && Stepwise(j)
    ensures Fits(SirOf(j).value, j)
    decreases j, 1
  {
    match j {
      case JObj(entries) =>
        var c := SirOf(j).value;
        ObjectParts(c, j);
        hide SirOf, Keyed;
        forall i | 0 <= i < |entries|
          ensures FitsEntry(c.fields[i], j, i)
        {
          assert Describing(c.fields[i], entries[i]);
          StepwiseFits(entries[i].1);
        }
      case JArr(elems) => StepwiseArray(j);
      case _ =>
    }
  }

  lemma {:induction false} StepwiseArray(j: Json)
    requires j.JArr? && Keyed(j) && SirOf(j).Some? && Stepwise(j)
    ensures FirstsCover(j) && Fits(SirOf(j).value, j)
    decreases j, 0
  {
    var elems := j.elems;
    var cs := ArrayParts(j);
    assert forall i :: 0 <= i < |elems| ==> Stepwise(elems[i]);
    assert Alike(elems) ==>
      forall i :: 0 <= i < |elems| ==> InterfacesLe(SirOf(elems[i]).value, SirOf(elems[0]).value);
    hide *;
    DescribedSome(cs, elems);
    forall i | 0 <= i < |elems|
      ensures Fits(cs[i], elems[i]) && FirstsCover(elems[i])
    {
      StepwiseFits(elems[i]);
      InferredFits(elems[i]);
    }
    CoverArray(j);
    if Alike(elems) && elems != [] {
      JoinAllOutside(cs, Hash(cs[0]));
      forall i | 0 <= i < |elems|
        ensures Below(cs[0], elems[i])
      {
        StepBelow(cs, elems[i], i);
      }
    }
    InferredFits(j);
  }

  lemma StepBelow(cs: seq<Sir>, j: Json, i: nat)
    requires i < |cs| && OneHash(cs, Hash(cs[0])) && SirOf(j) == Some(cs[i]) && Keyed(j) && Fits(cs[i], j)
    requires LeOutside(cs[i], JoinAll(cs)) && InterfacesLe(cs[i], cs[0]) && SameInterfaces(cs[0], JoinAll(cs))
    ensures Below(cs[0], j)
  {
    hide *;
    BothLe(cs[i], cs[0], JoinAll(cs));
    FitsUpward(cs[i], JoinAll(cs), j);
    JoinAllHash(cs, Hash(cs[0]));
    SameHashAt(cs, i);
    FitsBelow(JoinAll(cs), j);
    BelowAgree(cs[0], JoinAll(cs), j);
  }

  lemma SameHashAt(cs: seq<Sir>, i: nat)
    requires i < |cs| && OneHash(cs, Hash(cs[0]))
    ensures Hash(cs[i]) == Hash(cs[0])
  {
  }

  // Where inference depends on order

  lemma {:induction false} RefinableReflexive(a: Sir)
    ensures Refinable(a, a)
  {
    match a {
      case Object(fields) => forall i | 0 <= i < |fields| { RefinableReflexive(fields[i].field.sir); }
      case Array(inner) => RefinableReflexive(inner);
      case Tuple(items) => forall i | 0 <= i < |items| { RefinableReflexive(items[i].sir); }
      case _ =>
    }
  }

  /** Elements that are alike can be refined both ways. */
  ghost predicate EitherWay(elems: seq<Json>) {
    && (forall a :: a in elems ==> SirOf(a).Some?)
    && (forall a, b :: a in elems && b in elems ==> RefinesTo(a, b))
  }

  predicate RefinesTo(a: Json, b: Json) {
    SirOf(a).Some? && SirOf(b).Some? && Hash(SirOf(a).value) == Hash(SirOf(b).value) ==>
      Refinable(SirOf(a).value, SirOf(b).value)
  }

  lemma ArrayInferable(elems: seq<Json>)
    ensures SirOf(JArr(elems)).Some? <==>
      && (forall i :: 0 <= i < |elems| ==> SirOf(elems[i]).Some?)
      && (forall i, k :: 0 <= i < k < |elems| ==> RefinesTo(elems[i], elems[k]))
  {
    hide Hash, Refinable, ArraySir;
    if forall i :: 0 <= i < |elems| ==> SirOf(elems[i]).Some? {
      var cs := seq(|elems|, i requires 0 <= i < |elems| && SirOf(elems[i]).Some? => SirOf(elems[i]).value);
      assert forall i :: 0 <= i < |elems| ==> SirOf(elems[i]) == Some(cs[i]);
      if Agreeable(cs) {
        forall i, k | 0 <= i < k < |elems|
          ensures RefinesTo(elems[i], elems[k])
        {
          assert Hash(cs[i]) == Hash(cs[k]) ==> Refinable(cs[i], cs[k]);
        }
      }
      if forall i, k :: 0 <= i < k < |elems| ==> RefinesTo(elems[i], elems[k]) {
        forall i, k | 0 <= i < k < |elems| && Hash(cs[i]) == Hash(cs[k])
          ensures Refinable(cs[i], cs[k])
        {
          assert RefinesTo(elems[i], elems[k]);
        }
      }
    }
  }

  /** An array has a structure in every order of its elements if and only if those that are alike can be
      refined both ways. */
  lemma EveryOrder(elems: seq<Json>)
    ensures EitherWay(elems) <==> forall order :: multiset(order) == multiset(elems) ==> SirOf(JArr(order)).Some?
  {
    hide SirOf, RefinesTo;
    if EitherWay(elems) {
      forall order | multiset(order) == multiset(elems)
        ensures SirOf(JArr(order)).Some?
      {
        forall i | 0 <= i < |order| ensures order[i] in elems {
          assert order[i] in multiset(order);
        }
        ArrayInferable(order);
      }
    }
    if forall order :: multiset(order) == multiset(elems) ==> SirOf(JArr(order)).Some? {
      ArrayInferable(elems);
      forall a, b | a in elems && b in elems
        ensures RefinesTo(a, b)
      {
        var i :| 0 <= i < |elems| && elems[i] == a;
        var k :| 0 <= k < |elems| && elems[k] == b;
        if i > k {
          var swapped := elems[k := a][i := b];
          Swapped(elems, k, i);
          ArrayInferable(swapped);
          assert swapped[k] == a && swapped[i] == b;
        } else if i == k {
          RefinesToSelf(a);
        }
      }
    }
  }

  lemma RefinesToSelf(a: Json)
    ensures RefinesTo(a, a)
  {
    if SirOf(a).Some? {
      RefinableReflexive(SirOf(a).value);
    }
  }

  lemma Swapped<T>(s: seq<T>, i: nat, k: nat)
    requires i < k < |s|
    ensures multiset(s[i := s[k]][k := s[i]]) == multiset(s)
  {
  }

  /** Numbers can be widened but not narrowed: two of them may have a structure in one order only. */
  lemma WideningIsOrdered()
    ensures SirOf(JArr([JNum(Unsigned), JNum(Signed)])).Some?
    ensures SirOf(JArr([JNum(Signed), JNum(Unsigned)])) == None
    ensures !EitherWay([JNum(Unsigned), JNum(Signed)])
  {
    var up, down := [JNum(Unsigned), JNum(Signed)], [JNum(Signed), JNum(Unsigned)];
    assert SirOf(JNum(Unsigned)).Some? && SirOf(JNum(Signed)).Some?;
    NumbersAscend();
    hide SirOf, RefinesTo;
    ArrayInferable(up);
    ArrayInferable(down);
    assert !RefinesTo(down[0], down[1]) && RefinesTo(up[0], up[1]);
    assert down[0] in up && down[1] in up;
  }

  lemma NumbersAscend()
    ensures RefinesTo(JNum(Unsigned), JNum(Signed)) && !RefinesTo(JNum(Signed), JNum(Unsigned))
  {
  }

  function TaggedObject(kind: NumberKind): Json {
    JObj([("type", JStr("a", false)), ("x", JNum(kind))])
  }

  /** Interfaces are not refined, so an array of arrays can be given a structure that its second element
      does not have. */
  lemma UnrefinedInterface()
    ensures var empty := JObj([("type", JStr("b", false))]);
      var j := JArr([JArr([TaggedObject(Unsigned), empty]), JArr([TaggedObject(Signed), empty])]);
      Keyed(j) && SirOf(j).Some? && !Fits(SirOf(j).value, j)
  {
    var empty := JObj([("type", JStr("b", false))]);
    var first, second := [TaggedObject(Unsigned), empty], [TaggedObject(Signed), empty];
    var low, high := TaggedArray(Unsigned), TaggedArray(Signed);
    UnrefinedPart(Unsigned);
    UnrefinedPart(Signed);
    SameTaggedHash();
    hide SirOf, Hash, Keyed, Fits, TaggedObject;
    ArrayOf([JArr(first), JArr(second)], [low, high]);
    assert Keyed(JArr([JArr(first), JArr(second)])) by {
      KeyedPair(JArr(first), JArr(second));
    }
    assert [low, high][..1] == [low] && JoinAll([low, high]) == low;
    assert OneHash([low, high], Hash(low));
    assert Agreeable([low, high]);
    NarrowDoesNotFit();
    SecondMustFit(low, JArr(first), JArr(second));
  }

  lemma KeyedPair(a: Json, b: Json)
    requires Keyed(a) && Keyed(b)
    ensures Keyed(JArr([a, b]))
  {
  }

  lemma SecondMustFit(inner: Sir, a: Json, b: Json)
    ensures Fits(Array(inner), JArr([a, b])) ==> Fits(inner, b)
  {
    assert [a, b][1] == b;
  }

  function TaggedArray(kind: NumberKind): Sir {
    Interface("type", [SubType("a", [Entry("x", Field(false, KindSir(kind)))]), SubType("b", [])])
  }

  lemma SameTaggedHash()
    ensures Hash(TaggedArray(Unsigned)) == Hash(TaggedArray(Signed))
  {
    var low, high := TaggedArray(Unsigned), TaggedArray(Signed);
    assert HashEntries(low.subTypes[0].structure) == HashEntries(high.subTypes[0].structure) == [("x", ScalarHash)];
  }

  function TaggedFields(kind: NumberKind): seq<Entry> {
    [Entry("type", Field(false, String)), Entry("x", Field(false, KindSir(kind)))]
  }

  lemma TaggedElement(kind: NumberKind)
    ensures Keyed(TaggedObject(kind)) && SirOf(TaggedObject(kind)) == Some(Object(TaggedFields(kind)))
  {
    assert "type" != "x" by {
      assert |"type"| != |"x"|;
    }
    ObjectOf(TaggedObject(kind).entries, TaggedFields(kind));
  }

  lemma TaggedWithout(kind: NumberKind)
    ensures Without(TaggedFields(kind), "type") == [Entry("x", Field(false, KindSir(kind)))]
  {
    var fields := TaggedFields(kind);
    assert "type" != "x" by {
      assert |"type"| != |"x"|;
    }
    WithoutOne(fields, "type", 0);
    assert fields[..0] + fields[1..] == [Entry("x", Field(false, KindSir(kind)))];
  }

  lemma TaggedSubType(kind: NumberKind)
    ensures HasString(Object(TaggedFields(kind)), "type")
    ensures SubTypeOf(Object(TaggedFields(kind)), TaggedObject(kind), "type") ==
      SubType("a", [Entry("x", Field(false, KindSir(kind)))])
  {
    TaggedWithout(kind);
    hide Without, KindSir;
    assert GetField(TaggedFields(kind), "type") == Some(Field(false, String));
    assert GetJson(TaggedObject(kind).entries, "type") == Some(JStr("a", false));
  }

  lemma TaggedHash(kind: NumberKind)
    ensures Hash(Object(TaggedFields(kind))).ObjectHash? && |Hash(Object(TaggedFields(kind))).fields| == 2
  {
  }

  lemma EmptyElement()
    ensures var j, c := JObj([("type", JStr("b", false))]), Object([Entry("type", Field(false, String))]);
      && Keyed(j) && SirOf(j) == Some(c) && HasString(c, "type")
      && SubTypeOf(c, j, "type") == SubType("b", [])
      && Hash(c).ObjectHash? && |Hash(c).fields| == 1
  {
    var j, c := JObj([("type", JStr("b", false))]), Object([Entry("type", Field(false, String))]);
    ObjectOf(j.entries, c.fields);
    WithoutOne(c.fields, "type", 0);
  }

  lemma UnrefinedPart(kind: NumberKind)
    ensures var j := JArr([TaggedObject(kind), JObj([("type", JStr("b", false))])]);
      Keyed(j) && SirOf(j) == Some(TaggedArray(kind))
  {
    var a, b := TaggedObject(kind), JObj([("type", JStr("b", false))]);
    var c, d := Object(TaggedFields(kind)), Object([Entry("type", Field(false, String))]);
    TaggedElement(kind);
    TaggedSubType(kind);
    TaggedHash(kind);
    EmptyElement();
    hide SirOf, Hash, HasString, SubTypeOf, TaggedObject, TaggedFields, JoinAll, GetField, GetJson, Without;
    assert Describes([c, d], [a, b]);
    assert Hash([c, d][0]) != Hash([c, d][1]);
    ArrayOf([a, b], [c, d]);
    assert PickTag([c, d]) == Some("type");
    assert SubTypesOf([c, d], [a, b], "type") == TaggedArray(kind).subTypes;
    assert Keyed(JArr([a, b])) by {
      assert forall i :: 0 <= i < 2 ==> Keyed([a, b][i]);
    }
  }

  lemma NarrowDoesNotFit()
    ensures !Fits(TaggedArray(Unsigned), JArr([TaggedObject(Signed), JObj([("type", JStr("b", false))])]))
  {
    var a, s := TaggedObject(Signed), TaggedArray(Unsigned);
    assert "type" != "x" by {
      assert |"type"| != |"x"|;
    }
    assert !FitsEntry(s.subTypes[0].structure[0], a, 1);
    assert !TaggedAt("type", s.subTypes[0], a, 0) && !TaggedAt("type", s.subTypes[0], a, 1);
    assert !FitsSubType("type", s.subTypes[0], a);
  }
}
