/** Distinct names for versioned packages (lib/trans/session.rs): a queue of packages is named in rounds,
    each round spelling out more of the version for the packages whose names still collide. */
module PackageNames {
  import opened Wrappers
  import Decimal
  import opened SemverVersion
  import SemverSyntax
  import SemverRoundTrip
  import opened Joined

  type Package = seq<string>

  datatype Versioned = Versioned(package: Package, version: Option<Version>)

  // The name of a version at a level

  function SafeChar(c: char): char { if c == '.' || c == '-' || c == '~' then '_' else c }

  function Sanitize(s: string): string { seq(|s|, i requires 0 <= i < |s| => SafeChar(s[i])) }

  function SanitizeAll(ids: seq<Identifier>): seq<string> {
    seq(|ids|, i requires 0 <= i < |ids| => Sanitize(SemverSyntax.PrintIdentifier(ids[i])))
  }

  /** The parts of a version that a level spells out. */
  function Segments(v: Version, level: nat, random: string): (r: seq<string>)
    ensures r != []
  {
    ["v" + Decimal.Digits(v.major)]
    + (if level > 0 then [Decimal.Digits(v.minor)] else [])
    + (if level > 1 then [Decimal.Digits(v.patch)] else [])
    + (if level > 2 then SanitizeAll(v.pre) else [])
    + (if level > 3 then SanitizeAll(v.build) else [])
    + (if level > 4 then [random] else [])
  }

  method VersionPackage(v: Version, level: nat, random: string) returns (parts: string)
    ensures parts == Join(Segments(v, level, random))
  {
    ghost var done := ["v" + Decimal.Digits(v.major)];
    parts := "v" + Decimal.Digits(v.major);
    if level > 0 {
      JoinSnoc(done, Decimal.Digits(v.minor));
      done := done + [Decimal.Digits(v.minor)];
      parts := parts + "_" + Decimal.Digits(v.minor);
    }
    if level > 1 {
      JoinSnoc(done, Decimal.Digits(v.patch));
      done := done + [Decimal.Digits(v.patch)];
      parts := parts + "_" + Decimal.Digits(v.patch);
    }
    if level > 2 {
      parts := AppendAll(parts, v.pre, done);
      done := done + SanitizeAll(v.pre);
    }
    if level > 3 {
      parts := AppendAll(parts, v.build, done);
      done := done + SanitizeAll(v.build);
    }
    if level > 4 {
      JoinSnoc(done, random);
      done := done + [random];
      parts := parts + "_" + random;
    }
    assert done == Segments(v, level, random);
  }

  method AppendAll(start: string, ids: seq<Identifier>, ghost done: seq<string>) returns (parts: string)
    requires done != [] && start == Join(done)
    ensures parts == Join(done + SanitizeAll(ids))
  {
    parts := start;
    assert done + SanitizeAll(ids)[..0] == done;
    for i := 0 to |ids|
      invariant parts == Join(done + SanitizeAll(ids)[..i])
    {
      var segment := Sanitize(SemverSyntax.PrintIdentifier(ids[i]));
      JoinSnoc(done + SanitizeAll(ids)[..i], segment);
      assert done + SanitizeAll(ids)[..i + 1] == (done + SanitizeAll(ids)[..i]) + [segment];
      parts := parts + "_" + segment;
    }
    assert SanitizeAll(ids)[..|ids|] == SanitizeAll(ids);
  }

  // Properties of joined names

  lemma DigitsNoMark(n: nat)
    ensures NoMark(Decimal.Digits(n)) && NoMark("v" + Decimal.Digits(n))
  {
  }

  // Names of packages

  /** Keys of the file table are distinct as packages and versions without build metadata. */
  predicate SameKey(p: Versioned, q: Versioned) {
    && p.package == q.package
    && p.version.Some? == q.version.Some?
    && (p.version.Some? ==> SameVersion(p.version.value, q.version.value))
  }

  predicate DistinctKeys(packages: set<Versioned>) {
    forall p, q :: p in packages && q in packages && SameKey(p, q) ==> p == q
  }

  function Name(p: Versioned, level: nat, random: string): Package {
    match p.version
    case None => p.package
    case Some(v) => p.package + [Join(Segments(v, level, random))]
  }

  method PackageWithLevel(p: Versioned, level: nat, random: string) returns (name: Package)
    ensures name == Name(p, level, random)
  {
    name := p.package;
    if p.version.Some? {
      var part := VersionPackage(p.version.value, level, random);
      name := name + [part];
    }
  }

  /** The last part of a name has an underscore: true of every versioned name above level 0. */
  predicate Marked(name: Package) { name != [] && '_' in name[|name| - 1] }

  lemma VersionedName(p: Versioned, level: nat, random: string)
    requires p.version.Some?
    ensures Marked(Name(p, level, random)) <==> level > 0
  {
    var segments := Segments(p.version.value, level, random);
    if level > 0 {
      JoinMarked(segments);
    } else {
      DigitsNoMark(p.version.value.major);
    }
  }

  /** Two different packages can only share a name at level 0 if one of them is versioned; an
      unversioned package and a versioned one never share a name above level 0 once they have shared
      one at level 0. */
  lemma UnversionedNames(p: Versioned, q: Versioned, level: nat, random: string, random': string)
    requires p.version.None? && !SameKey(p, q) && Name(p, level, random) == Name(q, level, random')
    ensures q.version.Some? && (Marked(p.package) <==> level > 0)
  {
    if q.version.Some? {
      VersionedName(q, level, random');
    }
  }

  lemma RandomNames(p: Versioned, q: Versioned, i: nat, j: nat)
    requires p.version.Some? && q.version.Some? && i != j
    ensures Name(p, 5, Decimal.Digits(i)) != Name(q, 5, Decimal.Digits(j))
  {
    var x, y := Decimal.Digits(i), Decimal.Digits(j);
    var a := RandomName(p, x);
    var b := RandomName(q, y);
    DigitsNoMark(i);
    DigitsNoMark(j);
    var m, n := Name(p, 5, x), Name(q, 5, y);
    if m == n {
      assert m[|m| - 1] == n[|n| - 1];
      LastSegment(a, b, x, y);
      Decimal.DigitsInjective(i, j);
    }
  }

  lemma RandomName(p: Versioned, random: string) returns (rest: string)
    requires p.version.Some?
    ensures Name(p, 5, random) == p.package + [rest + "_" + random]
  {
    var segments := Segments(p.version.value, 4, random);
    rest := Join(segments);
    assert Segments(p.version.value, 5, random) == segments + [random];
    JoinSnoc(segments, random);
  }

  // Versions that the parser produces

  predicate CanonicalPackage(p: Versioned) {
    p.version.Some? ==> SemverRoundTrip.CanonicalVersion(p.version.value)
  }

  predicate AllCanonical(packages: set<Versioned>) { forall p :: p in packages ==> CanonicalPackage(p) }

  lemma AlnumText(s: string)
    requires SemverRoundTrip.AllAlnum(s)
    ensures Sanitize(s) == s && NoMark(s)
  {
  }

  lemma IdentifierText(id: Identifier)
    requires SemverRoundTrip.CanonicalIdentifier(id)
    ensures Sanitize(SemverSyntax.PrintIdentifier(id)) == SemverSyntax.PrintIdentifier(id)
    ensures NoMark(SemverSyntax.PrintIdentifier(id))
  {
    SemverRoundTrip.IdentifierPiece(id);
    AlnumText(SemverSyntax.PrintIdentifier(id));
  }

  lemma SegmentsNoMarks(v: Version, level: nat, random: string)
    requires SemverRoundTrip.CanonicalVersion(v) && level <= 3
    ensures NoMarks(Segments(v, level, random))
  {
    DigitsNoMark(v.major);
    DigitsNoMark(v.minor);
    DigitsNoMark(v.patch);
    forall i | 0 <= i < |v.pre| ensures NoMark(SanitizeAll(v.pre)[i]) {
      IdentifierText(v.pre[i]);
    }
  }

  /** Names of versioned packages are equal exactly when package and spelled-out parts are. */
  lemma NamesEqual(p: Versioned, q: Versioned, level: nat, random: string)
    requires p.version.Some? && q.version.Some? && CanonicalPackage(p) && CanonicalPackage(q) && level <= 3
    ensures Name(p, level, random) == Name(q, level, random) <==>
      p.package == q.package && Segments(p.version.value, level, random) == Segments(q.version.value, level, random)
  {
    var m, n := Name(p, level, random), Name(q, level, random);
    if m == n {
      assert m[|m| - 1] == n[|n| - 1] && m[..|m| - 1] == p.package && n[..|n| - 1] == q.package;
      SegmentsNoMarks(p.version.value, level, random);
      SegmentsNoMarks(q.version.value, level, random);
      JoinInjective(Segments(p.version.value, level, random), Segments(q.version.value, level, random));
    }
  }

  lemma SegmentsAt(v: Version, level: nat, random: string)
    requires level <= 3
    ensures var s := Segments(v, level, random);
      && |s| == level + 1 + (if level == 3 then |v.pre| - 1 else 0)
      && s[0] == "v" + Decimal.Digits(v.major)
      && (level > 0 ==> s[1] == Decimal.Digits(v.minor))
      && (level > 1 ==> s[2] == Decimal.Digits(v.patch))
      && (level == 3 ==> s[3..] == SanitizeAll(v.pre))
  {
    var s := Segments(v, level, random);
    if level == 3 {
      assert s[3..] == SanitizeAll(v.pre);
    }
  }

  /** Names that are equal at a level are equal at every lower one. */
  lemma EqualBelow(p: Versioned, q: Versioned, level: nat, lower: nat)
    requires p.version.Some? && q.version.Some? && CanonicalPackage(p) && CanonicalPackage(q)
    requires lower <= level <= 3 && Name(p, level, "") == Name(q, level, "")
    ensures Name(p, lower, "") == Name(q, lower, "")
  {
    NamesEqual(p, q, level, "");
    SegmentsAt(p.version.value, level, "");
    SegmentsAt(q.version.value, level, "");
    SegmentsAt(p.version.value, lower, "");
    SegmentsAt(q.version.value, lower, "");
    if lower < 3 {
      assert Segments(p.version.value, lower, "") == Segments(q.version.value, lower, "");
    }
  }

  lemma PrintedIdentifiersInjective(a: Identifier, b: Identifier)
    requires SemverRoundTrip.CanonicalIdentifier(a) && SemverRoundTrip.CanonicalIdentifier(b)
    requires SemverSyntax.PrintIdentifier(a) == SemverSyntax.PrintIdentifier(b)
    ensures a == b
  {
    SemverRoundTrip.IdentifierPiece(a);
    SemverRoundTrip.IdentifierPiece(b);
  }

  /** At level 3 the name says everything that tells keys apart. */
  lemma LevelThreeInjective(p: Versioned, q: Versioned)
    requires p.version.Some? && q.version.Some? && CanonicalPackage(p) && CanonicalPackage(q)
    requires Name(p, 3, "") == Name(q, 3, "")
    ensures SameKey(p, q)
  {
    var v, w := p.version.value, q.version.value;
    NamesEqual(p, q, 3, "");
    SegmentsAt(v, 3, "");
    SegmentsAt(w, 3, "");
    assert ("v" + Decimal.Digits(v.major))[1..] == Decimal.Digits(v.major);
    assert ("v" + Decimal.Digits(w.major))[1..] == Decimal.Digits(w.major);
    Decimal.DigitsInjective(v.major, w.major);
    Decimal.DigitsInjective(v.minor, w.minor);
    Decimal.DigitsInjective(v.patch, w.patch);
    var a, b := SanitizeAll(v.pre), SanitizeAll(w.pre);
    assert |a| == |v.pre| && |b| == |w.pre|;
    forall i | 0 <= i < |v.pre|
      ensures v.pre[i] == w.pre[i]
    {
      assert a[i] == b[i];
      IdentifierText(v.pre[i]);
      IdentifierText(w.pre[i]);
      PrintedIdentifiersInjective(v.pre[i], w.pre[i]);
    }
  }

  // The names the rounds arrive at

  /** Another package has the same name at this level. */
  predicate Clash(packages: set<Versioned>, p: Versioned, level: nat) {
    exists q :: q in packages && q != p && Name(q, level, "") == Name(p, level, "") &&
      (level == 0 || (p.version.Some? && q.version.Some?))
  }

  /** The first level without a clash. */
  function FinalLevel(packages: set<Versioned>, p: Versioned, level: nat): (r: nat)
    requires level <= 3
    ensures level <= r <= 3
    ensures forall k :: level <= k < r ==> Clash(packages, p, k)
    ensures r < 3 ==> !Clash(packages, p, r)
    decreases 3 - level
  {
    if level == 3 || !Clash(packages, p, level) then level else FinalLevel(packages, p, level + 1)
  }

  function FinalName(packages: set<Versioned>, p: Versioned): Package {
    Name(p, FinalLevel(packages, p, 0), "")
  }

  predicate Pending(packages: set<Versioned>, p: Versioned, level: nat) {
    forall k :: 0 <= k < level ==> Clash(packages, p, k)
  }

  lemma ClashBelow(packages: set<Versioned>, p: Versioned, q: Versioned, level: nat)
    requires AllCanonical(packages) && p in packages && q in packages && p != q && level <= 3
    requires p.version.Some? && q.version.Some? && Name(p, level, "") == Name(q, level, "")
    ensures Pending(packages, p, level + 1) && Pending(packages, q, level + 1)
  {
    forall k | 0 <= k < level + 1
      ensures Clash(packages, p, k) && Clash(packages, q, k)
    {
      EqualBelow(p, q, level, k);
    }
  }

  /** Among the packages still pending, sharing a name is the same as clashing. */
  lemma SharedIsClash(packages: set<Versioned>, p: Versioned, level: nat)
    requires DistinctKeys(packages) && AllCanonical(packages) && level <= 3
    requires p in packages && Pending(packages, p, level)
    ensures Clash(packages, p, level) <==>
      exists q :: q in packages && q != p && Pending(packages, q, level) && Name(q, level, "") == Name(p, level, "")
  {
    if q :| q in packages && q != p && Pending(packages, q, level) && Name(q, level, "") == Name(p, level, "") {
      if level > 0 && (p.version.None? || q.version.None?) {
        var u, w := if p.version.None? then p else q, if p.version.None? then q else p;
        UnversionedNames(u, w, level, "", "");
        assert Clash(packages, u, 0);
        var x :| x in packages && x != u && Name(x, 0, "") == Name(u, 0, "");
        UnversionedNames(u, x, 0, "", "");
        assert false;
      }
    }
    if Clash(packages, p, level) {
      var q :| q in packages && q != p && Name(q, level, "") == Name(p, level, "") &&
        (level == 0 || (p.version.Some? && q.version.Some?));
      if level > 0 {
        ClashBelow(packages, p, q, level);
      }
      assert Pending(packages, q, level);
    }
  }

  lemma NoClashAtThree(packages: set<Versioned>, p: Versioned)
    requires DistinctKeys(packages) && AllCanonical(packages) && p in packages
    ensures !Clash(packages, p, 3)
  {
    if Clash(packages, p, 3) {
      var q :| q in packages && q != p && Name(q, 3, "") == Name(p, 3, "") && p.version.Some? && q.version.Some?;
      LevelThreeInjective(p, q);
    }
  }
}
