/** Versions and their order (lib/semver/version.rs). Numeric components are unbounded here; the
    lexer's 64-bit limit is part of `SemverSyntax`. */
module SemverVersion {
  import opened Wrappers

  datatype Identifier = Numeric(n: nat) | AlphaNumeric(s: string)

  datatype Version = Version(major: nat, minor: nat, patch: nat, pre: seq<Identifier>, build: seq<Identifier>)

  datatype Ordering = Less | Equal | Greater {
    function Reverse(): Ordering {
      match this
      case Less => Greater
      case Equal => Equal
      case Greater => Less
    }
  }

  function CompareNat(a: nat, b: nat): Ordering {
    if a < b then Less else if a == b then Equal else Greater
  }

  /** Strings compare by code point, a proper prefix first. */
  function CompareString(a: string, b: string): Ordering {
    if a == [] && b == [] then Equal
    else if a == [] then Less
    else if b == [] then Greater
    else if a[0] < b[0] then Less
    else if a[0] > b[0] then Greater
    else CompareString(a[1..], b[1..])
  }

  /** The derived order of the enum: all numeric identifiers before all alphanumeric ones. */
  function CompareIdentifier(a: Identifier, b: Identifier): Ordering {
    match (a, b)
    case (Numeric(m), Numeric(n)) => CompareNat(m, n)
    case (Numeric(_), AlphaNumeric(_)) => Less
    case (AlphaNumeric(_), Numeric(_)) => Greater
    case (AlphaNumeric(s), AlphaNumeric(t)) => CompareString(s, t)
  }

  /** Vectors compare element by element, a proper prefix first. */
  function ComparePre(a: seq<Identifier>, b: seq<Identifier>): Ordering {
    if a == [] && b == [] then Equal
    else if a == [] then Less
    else if b == [] then Greater
    else
      match CompareIdentifier(a[0], b[0])
      case Less => Less
      case Greater => Greater
      case Equal => ComparePre(a[1..], b[1..])
  }

  function Compare(a: Version, b: Version): Ordering {
    if a.major != b.major then CompareNat(a.major, b.major)
    else if a.minor != b.minor then CompareNat(a.minor, b.minor)
    else if a.patch != b.patch then CompareNat(a.patch, b.patch)
    else if a.pre == [] && b.pre == [] then Equal
    else if a.pre == [] then Greater
    else if b.pre == [] then Less
    else ComparePre(a.pre, b.pre)
  }

  /** `==` on versions: build metadata is ignored. */
  predicate SameVersion(a: Version, b: Version) {
    a.major == b.major && a.minor == b.minor && a.patch == b.patch && a.pre == b.pre
  }

  predicate IsPrerelease(v: Version) { v.pre != [] }

  // The order laws

  lemma {:induction false} StringLaws(a: string, b: string, c: string)
    ensures CompareString(a, b) == CompareString(b, a).Reverse()
    ensures CompareString(a, b) == Equal <==> a == b
    ensures CompareString(a, b) == Less && CompareString(b, c) == Less ==> CompareString(a, c) == Less
  {
    if a != [] && b != [] {
      assert a == [a[0]] + a[1..] && b == [b[0]] + b[1..];
      StringLaws(a[1..], b[1..], if c == [] then c else c[1..]);
    }
  }

  lemma IdentifierLaws(a: Identifier, b: Identifier, c: Identifier)
    ensures CompareIdentifier(a, b) == CompareIdentifier(b, a).Reverse()
    ensures CompareIdentifier(a, b) == Equal <==> a == b
    ensures CompareIdentifier(a, b) == Less && CompareIdentifier(b, c) == Less ==> CompareIdentifier(a, c) == Less
  {
    if a.AlphaNumeric? && b.AlphaNumeric? {
      StringLaws(a.s, b.s, if c.AlphaNumeric? then c.s else "");
    }
  }

  lemma {:induction false} PreLaws(a: seq<Identifier>, b: seq<Identifier>, c: seq<Identifier>)
    ensures ComparePre(a, b) == ComparePre(b, a).Reverse()
    ensures ComparePre(a, b) == Equal <==> a == b
    ensures ComparePre(a, b) == Less && ComparePre(b, c) == Less ==> ComparePre(a, c) == Less
  {
    if a != [] && b != [] {
      assert a == [a[0]] + a[1..] && b == [b[0]] + b[1..];
      var z := if c == [] then a[0] else c[0];
      IdentifierLaws(a[0], b[0], z);
      IdentifierLaws(b[0], z, a[0]);
      IdentifierLaws(a[0], z, b[0]);
      PreLaws(a[1..], b[1..], if c == [] then c else c[1..]);
    }
  }

  /** `cmp` is a total order whose equality is `==`, which ignores build metadata. */
  lemma VersionOrder(a: Version, b: Version, c: Version)
    ensures Compare(a, b) == Compare(b, a).Reverse()
    ensures Compare(a, b) == Equal <==> SameVersion(a, b)
    ensures Compare(a, b) == Less && Compare(b, c) == Less ==> Compare(a, c) == Less
    ensures SameVersion(a, b) ==> Compare(a, c) == Compare(b, c)
  {
    PreLaws(a.pre, b.pre, c.pre);
  }

  // Section 11 of Semantic Versioning 2.0.0

  /** The first position where two pre-release lists differ, or the length of the shorter. */
  function FirstDifference(a: seq<Identifier>, b: seq<Identifier>): (k: nat)
    ensures k <= |a| && k <= |b| && a[..k] == b[..k]
    ensures k < |a| && k < |b| ==> a[k] != b[k]
  {
    if a == [] || b == [] || a[0] != b[0] then 0
    else
      var k := 1 + FirstDifference(a[1..], b[1..]);
      assert a[..k] == [a[0]] + a[1..][..k - 1] && b[..k] == [b[0]] + b[1..][..k - 1];
      k
  }

  predicate LowerIdentifier(x: Identifier, y: Identifier) {
    match (x, y)
    case (Numeric(m), Numeric(n)) => m < n
    case (Numeric(_), AlphaNumeric(_)) => true
    case (AlphaNumeric(_), Numeric(_)) => false
    case (AlphaNumeric(s), AlphaNumeric(t)) => CompareString(s, t) == Less
  }

  /** Rules 11.2 to 11.4, written without the comparison functions: the triple first, then a
      pre-release before its release, then the first differing identifier, then the shorter list. */
  predicate LowerPrecedence(a: Version, b: Version) {
    if (a.major, a.minor, a.patch) != (b.major, b.minor, b.patch) then
      || a.major < b.major
      || (a.major == b.major && a.minor < b.minor)
      || (a.major == b.major && a.minor == b.minor && a.patch < b.patch)
    else if b.pre == [] then a.pre != []
    else if a.pre == [] then false
    else
      var k := FirstDifference(a.pre, b.pre);
      if k < |a.pre| && k < |b.pre| then LowerIdentifier(a.pre[k], b.pre[k])
      else |a.pre| < |b.pre|
  }

  lemma {:induction false} PrePrecedence(a: seq<Identifier>, b: seq<Identifier>)
    ensures var k := FirstDifference(a, b);
      ComparePre(a, b) == Less <==>
        if k < |a| && k < |b| then LowerIdentifier(a[k], b[k]) else |a| < |b|
  {
    if a != [] && b != [] {
      IdentifierLaws(a[0], b[0], a[0]);
      if a[0] == b[0] {
        PrePrecedence(a[1..], b[1..]);
      }
    }
  }

  lemma PrecedenceIsCompare(a: Version, b: Version)
    ensures Compare(a, b) == Less <==> LowerPrecedence(a, b)
  {
    PrePrecedence(a.pre, b.pre);
  }
}
