/** When the names of a file register without conflict. */
module RegistryNames {
  import opened Wrappers
  import opened Schema
  import opened SchemaRules
  import opened Registry

  // The condition on declarations

  /** The sub-types of an interface and the variants of an enum: registered with their declaration. */
  function SubNames(d: Decl): seq<string> {
    match d
    case InterfaceDecl(_, _, _, subs, _) => seq(|subs|, i requires 0 <= i < |subs| => subs[i].ident)
    case EnumDecl(_, vs) => seq(|vs|, i requires 0 <= i < |vs| => vs[i].ident)
    case TypeDecl(_, _, _) => []
    case TupleDecl(_, _, _) => []
  }

  /** No two things directly inside `d` have the same name in the same place. */
  predicate PlacesApart(d: Decl) {
    var inner := InnerDecls(d);
    && Distinct(SubNames(d))
    && (forall i, k :: 0 <= i < k < |inner| ==> inner[i].0 != inner[k].0)
    && (forall k :: 0 <= k < |inner| ==> forall n :: n in SubNames(d) ==> inner[k].0 != [n])
  }

  predicate DeclApart(d: Decl) {
    PlacesApart(d) && forall k :: 0 <= k < |InnerDecls(d)| ==> DeclApart(InnerDecls(d)[k].1)
  }

  // Sequences

  lemma DistinctConcat<T>(s: seq<T>, t: seq<T>)
    ensures Distinct(s + t) <==> Distinct(s) && Distinct(t) && forall x :: x in s ==> x !in t
  {
    var all := s + t;
    assert forall i :: 0 <= i < |s| ==> all[i] == s[i];
    assert forall i :: 0 <= i < |t| ==> all[|s| + i] == t[i];
    if Distinct(s) && Distinct(t) && forall x :: x in s ==> x !in t {
      forall i, j | 0 <= i < j < |all|
        ensures all[i] != all[j]
      {
        if i < |s| <= j {
          assert s[i] in s && t[j - |s|] in t;
        }
      }
    }
  }

  lemma {:induction false} AllNamesConcat(a: seq<Entry>, b: seq<Entry>)
    ensures AllNames(a + b) == AllNames(a) + AllNames(b)
  {
    hide RegNames;
    if b == [] {
      assert a + b == a;
    } else {
      var prefix, last := b[..|b| - 1], b[|b| - 1];
      AllNamesConcat(a, prefix);
      assert (a + b)[..|a + b| - 1] == a + prefix && (a + b)[|a + b| - 1] == last;
    }
  }

  // Names of one declaration

  function Names(path: Path, d: Decl): seq<Path> { AllNames(Flatten(path, d)) }

  function InnerNames(path: Path, d: Decl, n: nat): seq<Path>
    requires n <= |InnerDecls(d)|
  {
    AllNames(FlattenInner(path, d, n))
  }

  lemma NamesSplit(path: Path, d: Decl)
    ensures Names(path, d) == RegNames((path, d)) + InnerNames(path, d, |InnerDecls(d)|)
  {
    hide RegNames, FlattenInner;
    var self, inner := [(path, d)], FlattenInner(path, d, |InnerDecls(d)|);
    AllNamesConcat(self, inner);
    assert self[..0] == [] && AllNames(self) == RegNames((path, d));
  }

  lemma InnerStep(path: Path, d: Decl, n: nat)
    requires n < |InnerDecls(d)|
    ensures var (where_, inner) := InnerDecls(d)[n];
      InnerNames(path, d, n + 1) == InnerNames(path, d, n) + Names(path + where_, inner)
  {
    hide RegNames, Flatten;
    var (where_, inner) := InnerDecls(d)[n];
    AllNamesConcat(FlattenInner(path, d, n), Flatten(path + where_, inner));
  }

  function Below(path: Path, names: seq<string>): seq<Path> {
    seq(|names|, i requires 0 <= i < |names| => path + [names[i]])
  }

  lemma BelowDistinct(path: Path, names: seq<string>)
    ensures Distinct(Below(path, names)) <==> Distinct(names)
    ensures forall n :: n in Below(path, names) <==> exists s :: s in names && n == path + [s]
  {
    var below := Below(path, names);
    assert forall i :: 0 <= i < |names| ==> below[i] == path + [names[i]] && below[i][|path|] == names[i];
    forall s | s in names
      ensures path + [s] in below
    {
      var i :| 0 <= i < |names| && names[i] == s;
      assert below[i] == path + [s];
    }
    if Distinct(below) {
      forall i, j | 0 <= i < j < |names| ensures names[i] != names[j] {
        assert below[i] != below[j];
      }
    }
  }

  lemma RegNamesAre(path: Path, d: Decl)
    ensures RegNames((path, d)) == Below(path, SubNames(d)) + [path]
  {
  }

  lemma RegNamesOf(path: Path, d: Decl)
    ensures forall n :: n in RegNames((path, d)) <==> n == path || exists s :: s in SubNames(d) && n == path + [s]
    ensures Distinct(RegNames((path, d))) <==> Distinct(SubNames(d))
  {
    hide *;
    RegNamesAre(path, d);
    BelowDistinct(path, SubNames(d));
    DistinctConcat(Below(path, SubNames(d)), [path]);
    Singleton(path);
  }

  lemma Singleton(path: Path)
    ensures Distinct([path])
  {
  }

  /** All names of a declaration start with its path, which is one of them. */
  lemma {:induction false} NamesUnder(path: Path, d: Decl, n: Path)
    requires n in Names(path, d)
    ensures path <= n
    decreases d, 1, 0
  {
    NamesSplit(path, d);
    RegNamesOf(path, d);
    if n !in RegNames((path, d)) {
      var k := InnerUnder(path, d, |InnerDecls(d)|, n);
    }
  }

  lemma {:induction false} InnerUnder(path: Path, d: Decl, m: nat, n: Path) returns (k: nat)
    requires m <= |InnerDecls(d)| && n in InnerNames(path, d, m)
    ensures k < m && n in Names(path + InnerDecls(d)[k].0, InnerDecls(d)[k].1)
    ensures path + InnerDecls(d)[k].0 <= n && path <= n
    decreases d, 0, m
  {
    hide RegNames;
    InnerStep(path, d, m - 1);
    var (where_, inner) := InnerDecls(d)[m - 1];
    if n in Names(path + where_, inner) {
      k := m - 1;
      NamesUnder(path + where_, inner, n);
    } else {
      k := InnerUnder(path, d, m - 1, n);
    }
  }

  lemma OwnPath(path: Path, d: Decl)
    ensures path in Names(path, d)
  {
    NamesSplit(path, d);
    RegNamesOf(path, d);
  }

  lemma {:induction false} InnerPath(path: Path, d: Decl, m: nat, k: nat)
    requires k < m <= |InnerDecls(d)|
    ensures path + InnerDecls(d)[k].0 in InnerNames(path, d, m)
    decreases m
  {
    hide *;
    InnerStep(path, d, m - 1);
    if k == m - 1 {
      OwnPath(path + InnerDecls(d)[k].0, InnerDecls(d)[k].1);
    } else {
      InnerPath(path, d, m - 1, k);
    }
  }

  // Distinct names

  /** Where a declaration inside `d` stands: right below it, or below one of its sub-types. */
  lemma InnerPlace(d: Decl, k: nat)
    requires k < |InnerDecls(d)|
    ensures var w := InnerDecls(d)[k].0;
      |w| == 1 || (|w| == 2 && w[0] in SubNames(d))
  {
    if d.InterfaceDecl? && k >= |d.decls| {
      var inner := SubTypeDecls(d.subTypes)[k - |d.decls|];
      assert InnerDecls(d)[k] == inner && InSubType(d.subTypes, inner);
      var i :| 0 <= i < |d.subTypes| && d.subTypes[i].ident == inner.0[0];
      assert SubNames(d)[i] == inner.0[0];
    }
  }

  lemma SameStart(path: Path, v: Path, w: Path, n: Path)
    requires path + v <= n && path + w <= n && |v| <= |w|
    ensures v <= w
  {
    forall i | 0 <= i < |v| ensures v[i] == w[i] {
      assert (path + v)[|path| + i] == n[|path| + i] == (path + w)[|path| + i];
    }
  }

  lemma SinglePrefix(v: Path, w: Path)
    ensures v <= w ==> |v| <= |w| && (|v| == |w| ==> v == w) && (|v| == 1 ==> v == [w[0]])
  {
  }

  predicate Unrelated(v: Path, w: Path) { !(v <= w) && !(w <= v) }

  /** Different places inside `d` are not inside one another. */
  lemma PlacesUnrelated(d: Decl, i: nat, k: nat)
    requires PlacesApart(d) && i < k < |InnerDecls(d)|
    ensures Unrelated(InnerDecls(d)[i].0, InnerDecls(d)[k].0)
  {
    var v, w := InnerDecls(d)[i].0, InnerDecls(d)[k].0;
    InnerPlace(d, i);
    InnerPlace(d, k);
    SinglePrefix(v, w);
    SinglePrefix(w, v);
  }

  lemma NothingBelowBoth(path: Path, v: Path, w: Path, n: Path)
    requires Unrelated(v, w) && path + v <= n
    ensures !(path + w <= n)
  {
    if path + w <= n {
      if |v| <= |w| {
        SameStart(path, v, w, n);
      } else {
        SameStart(path, w, v, n);
      }
    }
  }

  lemma {:induction false} InnerApart(path: Path, d: Decl, m: nat)
    requires m <= |InnerDecls(d)| && PlacesApart(d)
    requires forall k :: 0 <= k < m ==> Distinct(Names(path + InnerDecls(d)[k].0, InnerDecls(d)[k].1))
    ensures Distinct(InnerNames(path, d, m))
    decreases m
  {
    hide PlacesApart, Flatten, FlattenInner, AllNames;
    if m == 0 {
      NoInner(path, d);
    } else {
      InnerApart(path, d, m - 1);
      InnerStep(path, d, m - 1);
      var (where_, inner) := InnerDecls(d)[m - 1];
      forall n | n in InnerNames(path, d, m - 1)
        ensures n !in Names(path + where_, inner)
      {
        if n in Names(path + where_, inner) {
          var k := InnerUnder(path, d, m - 1, n);
          NamesUnder(path + where_, inner, n);
          PlacesUnrelated(d, k, m - 1);
          NothingBelowBoth(path, InnerDecls(d)[k].0, where_, n);
        }
      }
      DistinctConcat(InnerNames(path, d, m - 1), Names(path + where_, inner));
    }
  }

  lemma NoInner(path: Path, d: Decl)
    ensures InnerNames(path, d, 0) == []
  {
  }

  lemma {:induction false} InnerDistinct(path: Path, d: Decl, m: nat)
    requires m <= |InnerDecls(d)| && Distinct(InnerNames(path, d, m))
    ensures forall k :: 0 <= k < m ==> Distinct(Names(path + InnerDecls(d)[k].0, InnerDecls(d)[k].1))
    ensures forall i, k :: 0 <= i < k < m ==> InnerDecls(d)[i].0 != InnerDecls(d)[k].0
    decreases m
  {
    hide Flatten, FlattenInner, AllNames, InnerDecls;
    if m > 0 {
      InnerStep(path, d, m - 1);
      var (where_, inner) := InnerDecls(d)[m - 1];
      DistinctConcat(InnerNames(path, d, m - 1), Names(path + where_, inner));
      InnerDistinct(path, d, m - 1);
      forall i | 0 <= i < m - 1
        ensures InnerDecls(d)[i].0 != where_
      {
        InnerPath(path, d, m - 1, i);
        OwnPath(path + where_, inner);
      }
    }
  }

  lemma DeclApartParts(d: Decl)
    ensures DeclApart(d) <==> PlacesApart(d) && forall k :: 0 <= k < |InnerDecls(d)| ==> DeclApart(InnerDecls(d)[k].1)
  {
  }

  lemma PlacesApartParts(d: Decl)
    ensures PlacesApart(d) <==>
      && Distinct(SubNames(d))
      && (forall i, k :: 0 <= i < k < |InnerDecls(d)| ==> InnerDecls(d)[i].0 != InnerDecls(d)[k].0)
      && (forall k, n :: 0 <= k < |InnerDecls(d)| && n in SubNames(d) ==> InnerDecls(d)[k].0 != [n])
  {
    hide InnerDecls, SubNames, Distinct;
  }

  lemma ClashingPlaces(path: Path, d: Decl)
    requires Distinct(Names(path, d))
    ensures PlacesApart(d)
  {
    hide *;
    var m := |InnerDecls(d)|;
    NamesSplit(path, d);
    RegNamesOf(path, d);
    DistinctConcat(RegNames((path, d)), InnerNames(path, d, m));
    InnerDistinct(path, d, m);
    forall k, n | 0 <= k < m && n in SubNames(d)
      ensures InnerDecls(d)[k].0 != [n]
    {
      InnerPath(path, d, m, k);
      assert path + [n] in RegNames((path, d));
    }
    PlacesApartParts(d);
  }

  lemma ApartNames(path: Path, d: Decl)
    requires PlacesApart(d)
    requires forall k :: 0 <= k < |InnerDecls(d)| ==> Distinct(Names(path + InnerDecls(d)[k].0, InnerDecls(d)[k].1))
    ensures Distinct(Names(path, d))
  {
    hide *;
    var m := |InnerDecls(d)|;
    NamesSplit(path, d);
    RegNamesOf(path, d);
    PlacesApartParts(d);
    InnerApart(path, d, m);
    forall n | n in RegNames((path, d))
      ensures n !in InnerNames(path, d, m)
    {
      if n in InnerNames(path, d, m) {
        var k := InnerUnder(path, d, m, n);
        SelfApart(path, d, k, n);
      }
    }
    DistinctConcat(RegNames((path, d)), InnerNames(path, d, m));
  }

  /** The names of a declaration are distinct exactly if no two things in one place have the same name. */
  lemma {:induction false} NamesIff(path: Path, d: Decl)
    ensures Distinct(Names(path, d)) <==> DeclApart(d)
    decreases d
  {
    hide *;
    var m := |InnerDecls(d)|;
    forall k | 0 <= k < m
      ensures Distinct(Names(path + InnerDecls(d)[k].0, InnerDecls(d)[k].1)) <==> DeclApart(InnerDecls(d)[k].1)
    {
      NamesIff(path + InnerDecls(d)[k].0, InnerDecls(d)[k].1);
    }
    DeclApartParts(d);
    if Distinct(Names(path, d)) {
      ClashingPlaces(path, d);
      NamesSplit(path, d);
      DistinctConcat(RegNames((path, d)), InnerNames(path, d, m));
      InnerDistinct(path, d, m);
    }
    if DeclApart(d) {
      ApartNames(path, d);
    }
  }

  lemma SelfApart(path: Path, d: Decl, k: nat, n: Path)
    requires PlacesApart(d) && k < |InnerDecls(d)|
    requires n == path || exists s :: s in SubNames(d) && n == path + [s]
    ensures !(path + InnerDecls(d)[k].0 <= n)
  {
    InnerPlace(d, k);
    var w := InnerDecls(d)[k].0;
    if n != path && path + w <= n {
      var s :| s in SubNames(d) && n == path + [s];
      SameStart(path, w, [s], n);
      SinglePrefix(w, [s]);
    }
  }

  // Files

  function DeclIdents(decls: seq<Decl>): seq<string> {
    seq(|decls|, i requires 0 <= i < |decls| => decls[i].ident)
  }

  lemma {:induction false} FileUnder(package: Path, decls: seq<Decl>, n: Path) returns (i: nat)
    requires n in AllNames(FlattenAll(package, decls))
    ensures i < |decls| && package + [decls[i].ident] <= n
  {
    var prefix, last := decls[..|decls| - 1], decls[|decls| - 1];
    AllNamesConcat(FlattenAll(package, prefix), Flatten(package + [last.ident], last));
    if n in AllNames(FlattenAll(package, prefix)) {
      i := FileUnder(package, prefix, n);
    } else {
      i := |decls| - 1;
      NamesUnder(package + [last.ident], last, n);
    }
  }

  lemma {:induction false} FilePath(package: Path, decls: seq<Decl>, i: nat)
    requires i < |decls|
    ensures package + [decls[i].ident] in AllNames(FlattenAll(package, decls))
  {
    var prefix, last := decls[..|decls| - 1], decls[|decls| - 1];
    AllNamesConcat(FlattenAll(package, prefix), Flatten(package + [last.ident], last));
    if i == |decls| - 1 {
      OwnPath(package + [last.ident], last);
    } else {
      FilePath(package, prefix, i);
    }
  }

  /** A file registers without conflict exactly if its declarations have different names and no two things
      in one place of any of them have the same name. */
  lemma {:induction false} FileIff(package: Path, decls: seq<Decl>)
    ensures Distinct(AllNames(FlattenAll(package, decls))) <==>
      Distinct(DeclIdents(decls)) && forall i :: 0 <= i < |decls| ==> DeclApart(decls[i])
  {
    hide DeclApart, Flatten, Names;
    if decls != [] {
      var prefix, last := decls[..|decls| - 1], decls[|decls| - 1];
      var before, own := AllNames(FlattenAll(package, prefix)), Names(package + [last.ident], last);
      FileIff(package, prefix);
      NamesIff(package + [last.ident], last);
      FileSnoc(package, decls);
      assert DeclIdents(decls) == DeclIdents(prefix) + [last.ident];
      DistinctConcat(before, own);
      DistinctConcat(DeclIdents(prefix), [last.ident]);
      if Distinct(before + own) && last.ident in DeclIdents(prefix) {
        var i :| 0 <= i < |prefix| && DeclIdents(prefix)[i] == last.ident;
        FilePath(package, prefix, i);
        OwnPath(package + [last.ident], last);
        assert false;
      }
      if last.ident !in DeclIdents(prefix) {
        forall n | n in before ensures n !in own {
          if n in own {
            var i := FileUnder(package, prefix, n);
            NamesUnder(package + [last.ident], last, n);
            SameStart(package, [prefix[i].ident], [last.ident], n);
            assert prefix[i].ident == DeclIdents(prefix)[i] != last.ident;
            SinglePrefix([prefix[i].ident], [last.ident]);
          }
        }
      }
      assert forall i :: 0 <= i < |prefix| ==> prefix[i] == decls[i];
    }
  }

  lemma FileSnoc(package: Path, decls: seq<Decl>)
    requires decls != []
    ensures var prefix, last := decls[..|decls| - 1], decls[|decls| - 1];
      AllNames(FlattenAll(package, decls)) ==
        AllNames(FlattenAll(package, prefix)) + Names(package + [last.ident], last)
  {
    var prefix, last := decls[..|decls| - 1], decls[|decls| - 1];
    AllNamesConcat(FlattenAll(package, prefix), Flatten(package + [last.ident], last));
  }

  // What the checker leaves open

  /** No interface declares something under the name of one of its sub-types. */
  predicate NoHomonyms(d: AstDecl)
    decreases d, 3
  {
    match d
    case TypeAst(_, _, ms) => MembersFree(ms)
    case TupleAst(_, ms) => MembersFree(ms)
    case InterfaceAst(_, _, _, ms, subs) =>
      && (forall i :: 0 <= i < |subs| ==> subs[i].name !in InnerIdents(ms) && SubTypeFree(subs[i]))
      && MembersFree(ms)
    case EnumAst(_, _, _) => true
  }

  predicate SubTypeFree(s: AstSubType)
    decreases s, 2
  {
    MembersFree(s.members)
  }

  predicate MembersFree(ms: seq<AstMember>)
    decreases ms, 1
  {
    forall i :: 0 <= i < |ms| ==> MemberFree(ms[i])
  }

  predicate MemberFree(m: AstMember)
    decreases m, 4
  {
    m.InnerDecl? ==> NoHomonyms(m.decl)
  }

  lemma OwnIdent(scope: Scope, m: AstMember)
    ensures DeclIdents(InnerModel(scope, m)) == if m.InnerDecl? then [m.decl.name] else []
  {
    if m.InnerDecl? {
      assert InnerModel(scope, m) == [DeclModel(scope, m.decl)];
      assert DeclModel(scope, m.decl).ident == m.decl.name;
    }
  }

  lemma {:induction false} DeclsOfIdents(scope: Scope, ms: seq<AstMember>)
    ensures DeclIdents(DeclsOf(scope, ms)) == InnerIdents(ms)
  {
    if ms != [] {
      var prefix, last := ms[..|ms| - 1], ms[|ms| - 1];
      DeclsOfIdents(scope, prefix);
      var own := InnerModel(scope, last);
      assert DeclsOf(scope, ms) == DeclsOf(scope, prefix) + own;
      OwnIdent(scope, last);
      assert DeclIdents(DeclsOf(scope, prefix) + own) == DeclIdents(DeclsOf(scope, prefix)) + DeclIdents(own);
    }
  }

  predicate AllApart(decls: seq<Decl>) { forall i :: 0 <= i < |decls| ==> DeclApart(decls[i]) }

  lemma AllApartConcat(a: seq<Decl>, b: seq<Decl>)
    ensures AllApart(a + b) <==> AllApart(a) && AllApart(b)
  {
    hide DeclApart;
    var all := a + b;
    assert forall i :: 0 <= i < |a| ==> all[i] == a[i];
    assert forall i :: 0 <= i < |b| ==> all[|a| + i] == b[i];
  }

  lemma {:induction false} MembersIff(scope: Scope, ms: seq<AstMember>)
    requires MembersFine(scope, ms)
    ensures AllApart(DeclsOf(scope, ms)) <==> MembersFree(ms)
    decreases ms, 1
  {
    if ms != [] {
      var prefix, last := ms[..|ms| - 1], ms[|ms| - 1];
      MembersIff(scope, prefix);
      assert MemberFine(scope, last);
      MemberIff(scope, last);
      AllApartConcat(DeclsOf(scope, prefix), InnerModel(scope, last));
      hide AllApart, MemberFree;
      assert forall i :: 0 <= i < |prefix| ==> prefix[i] == ms[i];
    }
  }

  lemma {:induction false} MemberIff(scope: Scope, m: AstMember)
    requires MemberFine(scope, m)
    ensures AllApart(InnerModel(scope, m)) <==> MemberFree(m)
    decreases m, 4
  {
    if m.InnerDecl? {
      CheckedIff(scope, m.decl);
      assert InnerModel(scope, m)[0] == DeclModel(scope, m.decl);
    }
  }

  lemma PlacedApart(prefix: Path, decls: seq<Decl>)
    ensures Distinct(DeclIdents(decls)) <==>
      forall i, k :: 0 <= i < k < |decls| ==> Placed(prefix, decls)[i].0 != Placed(prefix, decls)[k].0
  {
    var placed := Placed(prefix, decls);
    forall i | 0 <= i < |decls|
      ensures placed[i].0 == prefix + [decls[i].ident] && placed[i].0[|prefix|] == DeclIdents(decls)[i]
    {
    }
    if forall i, k :: 0 <= i < k < |decls| ==> placed[i].0 != placed[k].0 {
      forall i, k | 0 <= i < k < |decls| ensures DeclIdents(decls)[i] != DeclIdents(decls)[k] {
        assert placed[i].0 != placed[k].0;
      }
    }
  }

  /** A type or a tuple: only the identifiers of its declarations matter. */
  lemma PlainApart(d: Decl)
    requires d.TypeDecl? || d.TupleDecl?
    ensures DeclApart(d) <==> Distinct(DeclIdents(d.decls)) && AllApart(d.decls)
  {
    PlacedApart([], d.decls);
  }

  predicate InnerAllApart(inner: seq<Inner>) { forall k :: 0 <= k < |inner| ==> DeclApart(inner[k].1) }

  lemma InnerAllConcat(a: seq<Inner>, b: seq<Inner>)
    ensures InnerAllApart(a + b) <==> InnerAllApart(a) && InnerAllApart(b)
  {
    hide DeclApart;
    var all := a + b;
    assert forall i :: 0 <= i < |a| ==> all[i] == a[i];
    assert forall i :: 0 <= i < |b| ==> all[|a| + i] == b[i];
  }

  lemma InnerAllPlaced(prefix: Path, decls: seq<Decl>)
    ensures InnerAllApart(Placed(prefix, decls)) <==> AllApart(decls)
  {
    hide DeclApart;
    var placed := Placed(prefix, decls);
    assert forall i :: 0 <= i < |decls| ==> placed[i].1 == decls[i];
  }

  predicate SubsAllApart(subs: seq<SubType>) { forall i :: 0 <= i < |subs| ==> AllApart(subs[i].decls) }

  lemma {:induction false} SubDeclsAll(subs: seq<SubType>)
    ensures InnerAllApart(SubTypeDecls(subs)) <==> SubsAllApart(subs)
  {
    hide AllApart, DeclApart;
    if subs != [] {
      var prefix, last := subs[..|subs| - 1], subs[|subs| - 1];
      SubDeclsAll(prefix);
      InnerAllPlaced([last.ident], last.decls);
      InnerAllConcat(SubTypeDecls(prefix), Placed([last.ident], last.decls));
      hide InnerAllApart;
      assert forall i :: 0 <= i < |prefix| ==> prefix[i] == subs[i];
    }
  }

  predicate PlacesDiffer(inner: seq<Inner>) {
    forall i, k :: 0 <= i < k < |inner| ==> inner[i].0 != inner[k].0
  }

  lemma PlacesConcat(a: seq<Inner>, b: seq<Inner>)
    requires PlacesDiffer(a) && PlacesDiffer(b)
    requires forall i, k :: 0 <= i < |a| && 0 <= k < |b| ==> a[i].0 != b[k].0
    ensures PlacesDiffer(a + b)
  {
  }

  lemma {:induction false} SubDeclsApart(subs: seq<SubType>)
    requires forall i, k :: 0 <= i < k < |subs| ==> subs[i].ident != subs[k].ident
    requires forall i :: 0 <= i < |subs| ==> Distinct(DeclIdents(subs[i].decls))
    ensures PlacesDiffer(SubTypeDecls(subs))
  {
    if subs != [] {
      var prefix, last := subs[..|subs| - 1], subs[|subs| - 1];
      SubDeclsApart(prefix);
      PlacedApart([last.ident], last.decls);
      var before, own := SubTypeDecls(prefix), Placed([last.ident], last.decls);
      forall i, k | 0 <= i < |before| && 0 <= k < |own|
        ensures before[i].0 != own[k].0
      {
        assert InSubType(prefix, before[i]);
        assert own[k].0[0] == last.ident;
      }
      hide SubTypeDecls, Placed, Distinct, DeclIdents;
      PlacesConcat(before, own);
    }
  }

  /** What the checker establishes for an interface leaves one thing open. */
  lemma InterfaceApart(d: Decl)
    requires d.InterfaceDecl? && Distinct(DeclIdents(d.decls))
    requires forall i, k :: 0 <= i < k < |d.subTypes| ==> d.subTypes[i].ident != d.subTypes[k].ident
    requires forall i :: 0 <= i < |d.subTypes| ==> Distinct(DeclIdents(d.subTypes[i].decls))
    ensures DeclApart(d) <==>
      && (forall i :: 0 <= i < |d.subTypes| ==> d.subTypes[i].ident !in DeclIdents(d.decls))
      && AllApart(d.decls)
      && SubsAllApart(d.subTypes)
  {
    var own, below := Placed([], d.decls), SubTypeDecls(d.subTypes);
    assert InnerDecls(d) == own + below;
    assert DeclApart(d) <==> PlacesApart(d) && InnerAllApart(InnerDecls(d));
    hide *;
    SubDeclsApart(d.subTypes);
    InterfacePlaces(d);
    InnerAllConcat(own, below);
    InnerAllPlaced([], d.decls);
    SubDeclsAll(d.subTypes);
  }

  lemma InterfacePlaces(d: Decl)
    requires d.InterfaceDecl? && Distinct(DeclIdents(d.decls))
    requires forall i, k :: 0 <= i < k < |d.subTypes| ==> d.subTypes[i].ident != d.subTypes[k].ident
    requires PlacesDiffer(SubTypeDecls(d.subTypes))
    ensures PlacesApart(d) <==> forall i :: 0 <= i < |d.subTypes| ==> d.subTypes[i].ident !in DeclIdents(d.decls)
  {
    var own, below, names := Placed([], d.decls), SubTypeDecls(d.subTypes), SubNames(d);
    assert InnerDecls(d) == own + below;
    assert |own| == |DeclIdents(d.decls)| && forall i :: 0 <= i < |own| ==> own[i].0 == [DeclIdents(d.decls)[i]];
    forall i | 0 <= i < |below|
      ensures |below[i].0| == 2
    {
      assert InSubType(d.subTypes, below[i]);
    }
    assert |names| == |d.subTypes| && forall i :: 0 <= i < |names| ==> names[i] == d.subTypes[i].ident;
    assert Distinct(names);
    hide *;
    PlacesApartParts(d);
    PlacesMeet(own, below, names, DeclIdents(d.decls));
    SeqMembers(names, DeclIdents(d.decls));
  }

  lemma SeqMembers(names: seq<string>, idents: seq<string>)
    ensures (forall n :: n in names ==> n !in idents) <==> forall i :: 0 <= i < |names| ==> names[i] !in idents
  {
  }

  /** Declarations right below and declarations below sub-types. */
  lemma PlacesMeet(own: seq<Inner>, below: seq<Inner>, names: seq<string>, idents: seq<string>)
    requires |own| == |idents| && forall i :: 0 <= i < |own| ==> own[i].0 == [idents[i]]
    requires Distinct(idents) && PlacesDiffer(below) && forall i :: 0 <= i < |below| ==> |below[i].0| == 2
    ensures PlacesDiffer(own + below)
    ensures (forall k, n :: 0 <= k < |own + below| && n in names ==> (own + below)[k].0 != [n]) <==>
      forall n :: n in names ==> n !in idents
  {
    var all := own + below;
    forall i, k | 0 <= i < k < |own| ensures own[i].0 != own[k].0 {
      assert [idents[i]][0] != [idents[k]][0];
    }
    PlacesConcat(own, below);
    forall k | 0 <= k < |own| ensures all[k].0 == [idents[k]] {
    }
    forall k | |own| <= k < |all| ensures |all[k].0| == 2 {
      assert all[k] == below[k - |own|];
    }
    hide PlacesDiffer, Distinct;
    if forall k, n :: 0 <= k < |all| && n in names ==> all[k].0 != [n] {
      forall n, k | n in names && 0 <= k < |idents|
        ensures idents[k] != n
      {
        assert all[k].0 != [n];
      }
    }
    if forall n :: n in names ==> n !in idents {
      forall k, n | 0 <= k < |all| && n in names
        ensures all[k].0 != [n]
      {
        if k < |own| {
          assert idents[k] in idents;
          assert [idents[k]][0] != [n][0];
        }
      }
    }
  }

  /** For a declaration that passes the checker, names clash exactly where an interface declares something
      under the name of one of its sub-types. */
  lemma {:induction false} CheckedIff(scope: Scope, d: AstDecl)
    requires DeclOk(scope, d)
    ensures DeclApart(DeclModel(scope, d)) <==> NoHomonyms(d)
    decreases d, 3
  {
    match d {
      case TypeAst(_, _, ms) =>
        DeclsOfIdents(scope, ms);
        MembersIff(scope, ms);
        PlainApart(DeclModel(scope, d));
      case TupleAst(_, ms) =>
        DeclsOfIdents(scope, ms);
        MembersIff(scope, ms);
        PlainApart(DeclModel(scope, d));
      case InterfaceAst(_, _, _, _, _) => CheckedInterface(scope, d);
      case EnumAst(_, ty, vs) => EnumApart(scope, d);
    }
  }

  lemma EnumApart(scope: Scope, d: AstDecl)
    requires d.EnumAst? && DeclOk(scope, d)
    ensures DeclApart(DeclModel(scope, d))
  {
    var model := DeclModel(scope, d);
    assert Distinct(VariantNames(d.variants));
    assert forall i :: 0 <= i < |d.variants| ==> SubNames(model)[i] == VariantNames(d.variants)[i];
  }

  lemma {:induction false} CheckedInterface(scope: Scope, d: AstDecl)
    requires d.InterfaceAst? && DeclOk(scope, d)
    ensures DeclApart(DeclModel(scope, d)) <==> NoHomonyms(d)
    decreases d, 2
  {
    var model := DeclModel(scope, d);
    var strategy, base, subs := StrategyOf(d.info).value, FieldsOf(scope, d.members), SubTypeModels(scope, d.subTypes);
    DeclsOfIdents(scope, d.members);
    MembersIff(scope, d.members);
    forall i | 0 <= i < |subs|
      ensures subs[i].ident == d.subTypes[i].name && Distinct(DeclIdents(subs[i].decls))
      ensures AllApart(subs[i].decls) <==> SubTypeFree(d.subTypes[i])
    {
      assert SubTypeOk(scope, d.subTypes[i], base, strategy, d.reserved);
      SubTypeIff(scope, d.subTypes[i]);
    }
    assert SubTypeNamesOk(subs);
    hide MembersFree, AllApart, DeclApart, SubTypeFree, DeclsOf, FieldsOf, SubTypeOk;
    InterfaceApart(model);
  }

  lemma {:induction false} SubTypeIff(scope: Scope, s: AstSubType)
    requires MembersFine(scope, s.members)
    ensures DeclIdents(SubTypeModel(scope, s).decls) == InnerIdents(s.members)
    ensures AllApart(SubTypeModel(scope, s).decls) <==> SubTypeFree(s)
    decreases s, 2
  {
    DeclsOfIdents(scope, s.members);
    MembersIff(scope, s.members);
  }

  /** A checked file registers without conflict if and only if its declarations have different names and no
      interface in it declares something under the name of one of its sub-types. */
  lemma CheckedFileIff(scope: Scope, package: Path, asts: seq<AstDecl>)
    requires forall i :: 0 <= i < |asts| ==> DeclOk(scope, asts[i])
    ensures Distinct(AllNames(FlattenAll(package, FileModel(scope, asts)))) <==>
      && (forall i, k :: 0 <= i < k < |asts| ==> asts[i].name != asts[k].name)
      && (forall i :: 0 <= i < |asts| ==> NoHomonyms(asts[i]))
  {
    var decls := FileModel(scope, asts);
    FileIff(package, decls);
    forall i | 0 <= i < |asts|
      ensures DeclIdents(decls)[i] == asts[i].name
      ensures DeclApart(decls[i]) <==> NoHomonyms(asts[i])
    {
      CheckedIff(scope, asts[i]);
    }
    hide DeclApart, NoHomonyms, DeclOk, AllNames, FlattenAll, FileModel;
    if forall i, k :: 0 <= i < k < |asts| ==> asts[i].name != asts[k].name {
      forall i, k | 0 <= i < k < |decls| ensures DeclIdents(decls)[i] != DeclIdents(decls)[k] {
      }
    }
    if Distinct(DeclIdents(decls)) {
      forall i, k | 0 <= i < k < |asts| ensures asts[i].name != asts[k].name {
        assert DeclIdents(decls)[i] != DeclIdents(decls)[k];
      }
    }
  }
}
