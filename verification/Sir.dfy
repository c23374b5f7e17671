/** Structures inferred from documents (lib/derive/sir.rs): their order, and `refine`, which joins two of
    them. Examples are left out: they never influence equality or hashing. */
module Sir {
  import opened Wrappers

  datatype Sir =
    | U64
    | I64
    | Float
    | Double
    | Boolean
    | String
    | DateTime
    | Any
    | Object(fields: seq<Entry>)
    | Interface(tag: string, subTypes: seq<SubType>)
    | Array(inner: Sir)
    | Tuple(items: seq<Field>)

  datatype Field = Field(optional: bool, sir: Sir)

  datatype Entry = Entry(key: string, field: Field)

  /** A sub-type, without its tag. */
  datatype SubType = SubType(name: string, structure: seq<Entry>)

  // Hashes

  datatype HashSir =
    | ScalarHash
    | ObjectHash(fields: seq<(string, HashSir)>)
    | InterfaceHash(tag: string, subTypes: seq<(string, seq<(string, HashSir)>)>)
    | ArrayHash(inner: HashSir)
    | TupleHash(items: seq<HashSir>)

  predicate Scalar(s: Sir) { !s.Object? && !s.Interface? && !s.Array? && !s.Tuple? }

  function Hash(s: Sir): HashSir
    decreases s, 0
  {
    match s
    case Object(fields) => ObjectHash(HashEntries(fields))
    case Interface(tag, subs) =>
      InterfaceHash(tag, seq(|subs|, i requires 0 <= i < |subs| => (subs[i].name, HashEntries(subs[i].structure))))
    case Array(inner) => ArrayHash(Hash(inner))
    case Tuple(items) => TupleHash(seq(|items|, i requires 0 <= i < |items| => Hash(items[i].sir)))
    case _ => ScalarHash
  }

  function HashEntries(fields: seq<Entry>): seq<(string, HashSir)>
    decreases fields, 1
  {
    seq(|fields|, i requires 0 <= i < |fields| => (fields[i].key, Hash(fields[i].field.sir)))
  }

  predicate SameEntryHashes(fs: seq<Entry>, gs: seq<Entry>) {
    && |fs| == |gs|
    && forall i :: 0 <= i < |fs| ==> fs[i].key == gs[i].key && Hash(fs[i].field.sir) == Hash(gs[i].field.sir)
  }

  predicate SameItemHashes(fs: seq<Field>, gs: seq<Field>) {
    |fs| == |gs| && forall i :: 0 <= i < |fs| ==> Hash(fs[i].sir) == Hash(gs[i].sir)
  }

  /** Equal hashes, spelled out one level. */
  lemma SameHash(a: Sir, b: Sir)
    requires Hash(a) == Hash(b)
    ensures a.Object? ==> b.Object? && SameEntryHashes(a.fields, b.fields)
    ensures a.Array? ==> b.Array? && Hash(a.inner) == Hash(b.inner)
    ensures a.Tuple? ==> b.Tuple? && SameItemHashes(a.items, b.items)
    ensures (Scalar(a) <==> Scalar(b)) && (a.Interface? <==> b.Interface?)
  {
    if a.Object? {
      var hs, gs := HashEntries(a.fields), HashEntries(b.fields);
      assert hs == gs && |hs| == |a.fields| && |gs| == |b.fields|;
      forall i | 0 <= i < |a.fields|
        ensures a.fields[i].key == b.fields[i].key && Hash(a.fields[i].field.sir) == Hash(b.fields[i].field.sir)
      {
        assert hs[i] == gs[i];
      }
    }
    if a.Tuple? {
      assert |Hash(a).items| == |a.items| && |Hash(b).items| == |b.items|;
      forall i | 0 <= i < |a.items|
        ensures Hash(a.items[i].sir) == Hash(b.items[i].sir)
      {
        assert Hash(a).items[i] == Hash(b).items[i];
      }
    }
  }

  /** The same for interfaces. */
  lemma SameInterfaceHash(a: Sir, b: Sir)
    requires Hash(a) == Hash(b) && a.Interface?
    ensures b.Interface? && a.tag == b.tag && |a.subTypes| == |b.subTypes|
    ensures forall i :: 0 <= i < |a.subTypes| ==>
      && a.subTypes[i].name == b.subTypes[i].name
      && SameEntryHashes(a.subTypes[i].structure, b.subTypes[i].structure)
  {
    assert |Hash(a).subTypes| == |a.subTypes| && |Hash(b).subTypes| == |b.subTypes|;
    forall i | 0 <= i < |a.subTypes|
      ensures a.subTypes[i].name == b.subTypes[i].name
      ensures HashEntries(a.subTypes[i].structure) == HashEntries(b.subTypes[i].structure)
    {
      assert Hash(a).subTypes[i] == Hash(b).subTypes[i];
    }
    forall i | 0 <= i < |a.subTypes|
      ensures SameEntryHashes(a.subTypes[i].structure, b.subTypes[i].structure)
    {
      EntryHashes(a.subTypes[i].structure, b.subTypes[i].structure);
    }
  }

  lemma EntryHashes(fs: seq<Entry>, gs: seq<Entry>)
    requires HashEntries(fs) == HashEntries(gs)
    ensures SameEntryHashes(fs, gs)
  {
    var hs, ks := HashEntries(fs), HashEntries(gs);
    assert |hs| == |fs| && |ks| == |gs|;
    forall i | 0 <= i < |fs|
      ensures fs[i].key == gs[i].key && Hash(fs[i].field.sir) == Hash(gs[i].field.sir)
    {
      assert hs[i] == ks[i];
    }
  }

  predicate InterfaceFree(s: Sir) {
    match s
    case Object(fields) => forall i :: 0 <= i < |fields| ==> InterfaceFree(fields[i].field.sir)
    case Interface(_, _) => false
    case Array(inner) => InterfaceFree(inner)
    case Tuple(items) => forall i :: 0 <= i < |items| ==> InterfaceFree(items[i].sir)
    case _ => true
  }

  lemma {:induction false} HashInterfaceFree(a: Sir, b: Sir)
    requires Hash(a) == Hash(b) && InterfaceFree(a)
    ensures InterfaceFree(b)
    decreases a
  {
    SameHash(a, b);
    match a {
      case Object(fields) =>
        forall i | 0 <= i < |fields| ensures InterfaceFree(b.fields[i].field.sir) {
          HashInterfaceFree(fields[i].field.sir, b.fields[i].field.sir);
        }
      case Array(inner) => HashInterfaceFree(inner, b.inner);
      case Tuple(items) =>
        forall i | 0 <= i < |items| ensures InterfaceFree(b.items[i].sir) {
          HashInterfaceFree(items[i].sir, b.items[i].sir);
        }
      case _ =>
    }
  }

  // The order

  predicate Numeric(s: Sir) { s.U64? || s.I64? || s.Float? || s.Double? }

  function Rank(s: Sir): nat
    requires Numeric(s)
  {
    match s
    case U64 => 0
    case I64 => 1
    case Float => 2
    case Double => 3
  }

  predicate ScalarLe(a: Sir, b: Sir) {
    a.Any? || a == b || (Numeric(a) && Numeric(b) && Rank(a) <= Rank(b))
  }

  /** `b` describes at least what `a` describes. */
  predicate Le(a: Sir, b: Sir)
    decreases a, 0
  {
    match a
    case Object(fields) => b.Object? && LeEntries(fields, b.fields)
    case Interface(tag, subs) =>
      b.Interface? && tag == b.tag && |subs| == |b.subTypes| &&
      forall i :: 0 <= i < |subs| ==>
        subs[i].name == b.subTypes[i].name && LeEntries(subs[i].structure, b.subTypes[i].structure)
    case Array(inner) => b.Array? && Le(inner, b.inner)
    case Tuple(items) =>
      b.Tuple? && |items| == |b.items| &&
      forall i :: 0 <= i < |items| ==>
        && (items[i].optional ==> b.items[i].optional)
        && Le(items[i].sir, b.items[i].sir)
    case _ => Scalar(b) && ScalarLe(a, b)
  }

  predicate LeEntries(fs: seq<Entry>, gs: seq<Entry>)
    decreases fs, 1
  {
    && |fs| == |gs|
    && forall i :: 0 <= i < |fs| ==>
         && fs[i].key == gs[i].key
         && (fs[i].field.optional ==> gs[i].field.optional)
         && Le(fs[i].field.sir, gs[i].field.sir)
  }

  /** A partial order. */
  lemma {:induction false} LeReflexive(a: Sir)
    ensures Le(a, a)
    decreases a, 0
  {
    match a {
      case Object(fields) => EntriesReflexive(fields);
      case Interface(_, subs) => forall i | 0 <= i < |subs| { EntriesReflexive(subs[i].structure); }
      case Array(inner) => LeReflexive(inner);
      case Tuple(items) => forall i | 0 <= i < |items| { LeReflexive(items[i].sir); }
      case _ =>
    }
  }

  lemma {:induction false} EntriesReflexive(fs: seq<Entry>)
    ensures LeEntries(fs, fs)
    decreases fs, 1
  {
    forall i | 0 <= i < |fs| { LeReflexive(fs[i].field.sir); }
  }

  lemma {:induction false} LeTransitive(a: Sir, b: Sir, c: Sir)
    requires Le(a, b) && Le(b, c)
    ensures Le(a, c)
    decreases a, 0
  {
    match a {
      case Object(fields) => EntriesTransitive(fields, b.fields, c.fields);
      case Interface(_, subs) =>
        forall i | 0 <= i < |subs| ensures LeEntries(subs[i].structure, c.subTypes[i].structure) {
          EntriesTransitive(subs[i].structure, b.subTypes[i].structure, c.subTypes[i].structure);
        }
      case Array(inner) => LeTransitive(inner, b.inner, c.inner);
      case Tuple(items) =>
        forall i | 0 <= i < |items| ensures Le(items[i].sir, c.items[i].sir) {
          LeTransitive(items[i].sir, b.items[i].sir, c.items[i].sir);
        }
      case _ =>
    }
  }

  lemma {:induction false} EntriesTransitive(fs: seq<Entry>, gs: seq<Entry>, hs: seq<Entry>)
    requires LeEntries(fs, gs) && LeEntries(gs, hs)
    ensures LeEntries(fs, hs)
    decreases fs, 1
  {
    forall i | 0 <= i < |fs| ensures Le(fs[i].field.sir, hs[i].field.sir) {
      LeTransitive(fs[i].field.sir, gs[i].field.sir, hs[i].field.sir);
    }
  }

  lemma {:induction false} LeAntisymmetric(a: Sir, b: Sir)
    requires Le(a, b) && Le(b, a)
    ensures a == b
    decreases a, 0
  {
    match a {
      case Object(fields) => EntriesAntisymmetric(fields, b.fields);
      case Interface(_, subs) =>
        forall i | 0 <= i < |subs| ensures subs[i] == b.subTypes[i] {
          EntriesAntisymmetric(subs[i].structure, b.subTypes[i].structure);
        }
      case Array(inner) => LeAntisymmetric(inner, b.inner);
      case Tuple(items) =>
        forall i | 0 <= i < |items| ensures items[i] == b.items[i] {
          LeAntisymmetric(items[i].sir, b.items[i].sir);
        }
      case _ =>
    }
  }

  lemma {:induction false} EntriesAntisymmetric(fs: seq<Entry>, gs: seq<Entry>)
    requires LeEntries(fs, gs) && LeEntries(gs, fs)
    ensures fs == gs
    decreases fs, 1
  {
    forall i | 0 <= i < |fs| ensures fs[i] == gs[i] {
      LeAntisymmetric(fs[i].field.sir, gs[i].field.sir);
    }
  }

  // Joining

  /** Every scalar position is unknown on one side, equal in kind, or ascends. */
  predicate Refinable(a: Sir, b: Sir) {
    match a
    case Object(fields) =>
      b.Object? && |fields| == |b.fields| &&
      forall i :: 0 <= i < |fields| ==> Refinable(fields[i].field.sir, b.fields[i].field.sir)
    case Interface(_, _) => true
    case Array(inner) => b.Array? && Refinable(inner, b.inner)
    case Tuple(items) =>
      b.Tuple? && |items| == |b.items| &&
      forall i :: 0 <= i < |items| ==> Refinable(items[i].sir, b.items[i].sir)
    case _ => b.Any? || ScalarLe(a, b)
  }

  /** The join, position by position; interfaces are left as they are. */
  function Join(a: Sir, b: Sir): Sir
    decreases a, 0
  {
    match a
    case Object(fields) =>
      if b.Object? && |fields| == |b.fields| then
        Object(seq(|fields|, i requires 0 <= i < |fields| =>
          Entry(fields[i].key, JoinField(fields[i].field, b.fields[i].field))))
      else a
    case Interface(_, _) => a
    case Array(inner) => if b.Array? then Array(Join(inner, b.inner)) else a
    case Tuple(items) =>
      if b.Tuple? && |items| == |b.items| then
        Tuple(seq(|items|, i requires 0 <= i < |items| => JoinField(items[i], b.items[i])))
      else a
    case _ => if b.Any? then a else b
  }

  function JoinField(f: Field, g: Field): Field
    decreases f, 1
  {
    Field(f.optional || g.optional, Join(f.sir, g.sir))
  }

  /** Joining keeps the hash. */
  lemma {:induction false} JoinHash(a: Sir, b: Sir)
    requires Hash(a) == Hash(b)
    ensures Hash(Join(a, b)) == Hash(a)
    decreases a
  {
    SameHash(a, b);
    match a {
      case Object(fields) =>
        forall i | 0 <= i < |fields| {
          JoinHash(fields[i].field.sir, b.fields[i].field.sir);
        }
        assert HashEntries(Join(a, b).fields) == HashEntries(fields);
      case Array(inner) => JoinHash(inner, b.inner);
      case Tuple(items) =>
        forall i | 0 <= i < |items| {
          JoinHash(items[i].sir, b.items[i].sir);
        }
        assert Hash(Join(a, b)).items == Hash(a).items;
      case _ =>
    }
  }

  /** A join, spelled out one level. */
  lemma JoinParts(a: Sir, b: Sir)
    requires Hash(a) == Hash(b)
    ensures a.Object? ==>
      && Join(a, b).Object? && |Join(a, b).fields| == |a.fields| == |b.fields|
      && forall i :: 0 <= i < |a.fields| ==>
           && Join(a, b).fields[i].key == a.fields[i].key
           && Join(a, b).fields[i].field.optional == (a.fields[i].field.optional || b.fields[i].field.optional)
           && Join(a, b).fields[i].field.sir == Join(a.fields[i].field.sir, b.fields[i].field.sir)
    ensures a.Tuple? ==>
      && Join(a, b).Tuple? && |Join(a, b).items| == |a.items| == |b.items|
      && forall i :: 0 <= i < |a.items| ==>
           && Join(a, b).items[i].optional == (a.items[i].optional || b.items[i].optional)
           && Join(a, b).items[i].sir == Join(a.items[i].sir, b.items[i].sir)
  {
    SameHash(a, b);
  }

  /** A join of compatible structures is an upper bound of both. */
  lemma {:induction false} JoinAbove(a: Sir, b: Sir)
    requires Hash(a) == Hash(b) && InterfaceFree(a) && Refinable(a, b)
    ensures Le(a, Join(a, b)) && Le(b, Join(a, b))
    decreases a, 1
  {
    SameHash(a, b);
    JoinParts(a, b);
    hide Hash;
    match a {
      case Object(fields) =>
        hide Join;
        FieldsAbove(fields, b.fields, Join(a, b).fields);
      case Array(inner) => JoinAbove(inner, b.inner);
      case Tuple(items) =>
        hide Join;
        forall i | 0 <= i < |items|
          ensures Le(items[i].sir, Join(a, b).items[i].sir) && Le(b.items[i].sir, Join(a, b).items[i].sir)
        {
          JoinAbove(items[i].sir, b.items[i].sir);
        }
      case _ =>
    }
  }

  lemma {:induction false} FieldsAbove(fs: seq<Entry>, gs: seq<Entry>, hs: seq<Entry>)
    requires SameEntryHashes(fs, gs) && |hs| == |fs|
    requires forall i :: 0 <= i < |fs| ==>
      && InterfaceFree(fs[i].field.sir) && Refinable(fs[i].field.sir, gs[i].field.sir)
      && hs[i].key == fs[i].key
      && hs[i].field.optional == (fs[i].field.optional || gs[i].field.optional)
      && hs[i].field.sir == Join(fs[i].field.sir, gs[i].field.sir)
    ensures LeEntries(fs, hs) && LeEntries(gs, hs)
    decreases fs, 0
  {
    hide Hash, Join, Refinable, InterfaceFree, Le;
    forall i | 0 <= i < |fs|
      ensures Le(fs[i].field.sir, hs[i].field.sir) && Le(gs[i].field.sir, hs[i].field.sir)
    {
      JoinAbove(fs[i].field.sir, gs[i].field.sir);
    }
  }

  /** And it is below every other upper bound. */
  lemma {:induction false} JoinLeast(a: Sir, b: Sir, c: Sir)
    requires Hash(a) == Hash(b) && Le(a, c) && Le(b, c)
    ensures Le(Join(a, b), c)
    decreases a
  {
    SameHash(a, b);
    JoinParts(a, b);
    hide Hash;
    match a {
      case Object(fields) =>
        hide Join;
        forall i | 0 <= i < |fields|
          ensures Le(Join(a, b).fields[i].field.sir, c.fields[i].field.sir)
        {
          JoinLeast(fields[i].field.sir, b.fields[i].field.sir, c.fields[i].field.sir);
        }
      case Array(inner) => JoinLeast(inner, b.inner, c.inner);
      case Tuple(items) =>
        hide Join;
        forall i | 0 <= i < |items| {
          JoinLeast(items[i].sir, b.items[i].sir, c.items[i].sir);
        }
      case _ =>
    }
  }

  lemma ScalarJoinRefinable(a: Sir, b: Sir, c: Sir)
    requires Scalar(a) && Scalar(b) && Scalar(c) && Refinable(a, b)
    ensures Refinable(Join(a, b), c) <==> Refinable(a, c) && Refinable(b, c)
  {
    if b.Any? {
      assert Join(a, b) == a;
    } else {
      assert Join(a, b) == b && ScalarLe(a, b);
    }
  }

  /** What a join can be refined with is what both sides can be refined with. */
  lemma {:induction false} JoinRefinable(a: Sir, b: Sir, c: Sir)
    requires Hash(a) == Hash(b) == Hash(c) && Refinable(a, b)
    ensures Refinable(Join(a, b), c) <==> Refinable(a, c) && Refinable(b, c)
    decreases a
  {
    SameHash(a, b);
    SameHash(a, c);
    JoinParts(a, b);
    hide Hash;
    match a {
      case Object(fields) =>
        hide Join;
        forall i | 0 <= i < |fields| {
          JoinRefinable(fields[i].field.sir, b.fields[i].field.sir, c.fields[i].field.sir);
        }
      case Array(inner) => JoinRefinable(inner, b.inner, c.inner);
      case Tuple(items) =>
        hide Join;
        forall i | 0 <= i < |items| {
          JoinRefinable(items[i].sir, b.items[i].sir, c.items[i].sir);
        }
      case Interface(_, _) =>
      case _ => ScalarJoinRefinable(a, b, c);
    }
  }

  // `refine`

  method RefineField(current: Field, other: Field) returns (r: Option<Field>)
    ensures Hash(current.sir) == Hash(other.sir) ==>
      r == if Refinable(current.sir, other.sir) then Some(JoinField(current, other)) else None
    decreases current, 1
  {
    var optional := current.optional;
    if !optional && other.optional {
      optional := true;
    }
    var sir := Refine(current.sir, other.sir);
    if sir.None? {
      return None;
    }
    return Some(Field(optional, sir.value));
  }

  /** Refines `current` with `other`; on equal hashes this succeeds exactly when the two are refinable,
      with their join. */
  method Refine(current: Sir, other: Sir) returns (r: Option<Sir>)
    ensures Hash(current) == Hash(other) ==>
      r == if Refinable(current, other) then Some(Join(current, other)) else None
    decreases current, 0
  {
    if Hash(current) == Hash(other) {
      SameHash(current, other);
    }
    match (current, other) {
      case (U64, I64) => return Some(I64);
      case (Float, Double) => return Some(Double);
      case (U64, Float) => return Some(Float);
      case (I64, Float) => return Some(Float);
      case (U64, Double) => return Some(Double);
      case (I64, Double) => return Some(Double);
      case (Any, _) => return Some(other);
      case (U64, U64) => return Some(current);
      case (I64, I64) => return Some(current);
      case (Float, Float) => return Some(current);
      case (Double, Double) => return Some(current);
      case (Boolean, Boolean) => return Some(current);
      case (String, String) => return Some(current);
      case (DateTime, DateTime) => return Some(current);
      case (Object(_), Object(_)) => r := RefineObject(current, other);
      case (Interface(_, _), Interface(_, _)) => return Some(current);
      case (Array(inner), Array(otherInner)) =>
        var refined := Refine(inner, otherInner);
        return if refined.Some? then Some(Array(refined.value)) else None;
      case (Tuple(_), Tuple(_)) => r := RefineTuple(current, other);
      case (_, Any) => return Some(current);
      case (_, _) => return None;
    }
  }

  /** Refines the fields of an object pairwise, as far as both go. */
  method RefineObject(current: Sir, other: Sir) returns (r: Option<Sir>)
    requires current.Object? && other.Object?
    ensures Hash(current) == Hash(other) ==>
      r == if Refinable(current, other) then Some(Join(current, other)) else None
    decreases current, -1
  {
    ghost var same := Hash(current) == Hash(other);
    if same {
      SameHash(current, other);
    }
    var entries := current.fields;
    var k := 0;
    while k < |current.fields| && k < |other.fields|
      invariant k <= |current.fields| == |entries| && k <= |other.fields|
      invariant forall i :: k <= i < |entries| ==> entries[i] == current.fields[i]
      invariant same ==> forall i :: 0 <= i < k ==>
        && Refinable(current.fields[i].field.sir, other.fields[i].field.sir)
        && entries[i] == Entry(current.fields[i].key, JoinField(current.fields[i].field, other.fields[i].field))
    {
      if entries[k].key != other.fields[k].key {
        return None;
      }
      var field := RefineField(entries[k].field, other.fields[k].field);
      if field.None? {
        return None;
      }
      entries := entries[k := Entry(entries[k].key, field.value)];
      k := k + 1;
    }
    assert same ==> entries == Join(current, other).fields;
    return Some(Object(entries));
  }

  method RefineTuple(current: Sir, other: Sir) returns (r: Option<Sir>)
    requires current.Tuple? && other.Tuple?
    ensures Hash(current) == Hash(other) ==>
      r == if Refinable(current, other) then Some(Join(current, other)) else None
    decreases current, -1
  {
    ghost var same := Hash(current) == Hash(other);
    if same {
      SameHash(current, other);
    }
    var items := current.items;
    var k := 0;
    while k < |current.items| && k < |other.items|
      invariant k <= |current.items| == |items| && k <= |other.items|
      invariant forall i :: k <= i < |items| ==> items[i] == current.items[i]
      invariant same ==> forall i :: 0 <= i < k ==>
        && Refinable(current.items[i].sir, other.items[i].sir)
        && items[i] == JoinField(current.items[i], other.items[i])
    {
      var item := RefineField(items[k], other.items[k]);
      if item.None? {
        return None;
      }
      items := items[k := item.value];
      k := k + 1;
    }
    assert same ==> items == Join(current, other).items;
    return Some(Tuple(items));
  }
}
