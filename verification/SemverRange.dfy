/** Range matching (lib/semver/range.rs) and its documented interval meaning (lib/semver/lib.rs). */
module SemverRange {
  import opened Wrappers
  import opened SemverVersion

  datatype WildcardVersion = Minor | Patch

  datatype Op = Ex | Gt | GtEq | Lt | LtEq | Tilde | Compatible | Wildcard(at: WildcardVersion)

  datatype Predicate = Predicate(op: Op, major: nat, minor: Option<nat>, patch: Option<nat>, pre: seq<Identifier>)

  datatype Range = Range(predicates: seq<Predicate>)

  predicate IsExact(p: Predicate, v: Version) {
    if p.major != v.major then false
    else if p.minor.None? then true
    else if p.minor.value != v.minor then false
    else if p.patch.None? then true
    else if p.patch.value != v.patch then false
    else p.pre == v.pre
  }

  predicate IsGreater(p: Predicate, v: Version) {
    if p.major != v.major then v.major > p.major
    else if p.minor.None? then false
    else if p.minor.value != v.minor then v.minor > p.minor.value
    else if p.patch.None? then false
    else if p.patch.value != v.patch then v.patch > p.patch.value
    else p.pre != [] && (v.pre == [] || ComparePre(v.pre, p.pre) == Greater)
  }

  predicate PreIsCompatible(p: Predicate, v: Version) {
    v.pre == [] || ComparePre(v.pre, p.pre) != Less
  }

  predicate MatchesTilde(p: Predicate, v: Version) {
    if p.minor.None? then p.major == v.major
    else if p.patch.None? then p.major == v.major && p.minor.value == v.minor
    else
      && p.major == v.major
      && p.minor.value == v.minor
      && (v.patch > p.patch.value || (v.patch == p.patch.value && PreIsCompatible(p, v)))
  }

  predicate IsCompatible(p: Predicate, v: Version) {
    if p.major != v.major then false
    else if p.minor.None? then true
    else
      var minor := p.minor.value;
      match p.patch
      case None => if p.major == 0 then v.minor == minor else v.minor >= minor
      case Some(patch) =>
        if p.major == 0 then
          if minor == 0 then v.minor == minor && v.patch == patch && PreIsCompatible(p, v)
          else v.minor == minor && (v.patch > patch || (v.patch == patch && PreIsCompatible(p, v)))
        else
          || v.minor > minor
          || (v.minor == minor && (v.patch > patch || (v.patch == patch && PreIsCompatible(p, v))))
  }

  predicate MatchesWildcard(p: Predicate, v: Version)
    requires p.op.Wildcard?
  {
    match p.op.at
    case Minor => p.major == v.major
    case Patch => if p.minor.Some? then p.major == v.major && p.minor.value == v.minor else p.major == v.major
  }

  predicate PredicateMatches(p: Predicate, v: Version) {
    match p.op
    case Ex => IsExact(p, v)
    case Gt => IsGreater(p, v)
    case GtEq => IsExact(p, v) || IsGreater(p, v)
    case Lt => !IsExact(p, v) && !IsGreater(p, v)
    case LtEq => !IsGreater(p, v)
    case Tilde => MatchesTilde(p, v)
    case Compatible => IsCompatible(p, v)
    case Wildcard(_) => MatchesWildcard(p, v)
  }

  predicate PreTagIsCompatible(p: Predicate, v: Version) {
    || !IsPrerelease(v)
    || SharesPrerelease(p, v)
  }

  predicate SharesPrerelease(p: Predicate, v: Version) {
    p.major == v.major && p.minor == Some(v.minor) && p.patch == Some(v.patch) && p.pre != []
  }

  predicate Matches(r: Range, v: Version) {
    || r.predicates == []
    || ((forall p :: p in r.predicates ==> PredicateMatches(p, v)) &&
        (exists p :: p in r.predicates && PreTagIsCompatible(p, v)))
  }

  // Intervals

  /** A bound of an interval: a version, and whether the version itself lies below the cut. */
  datatype Cut = Cut(at: Version, after: bool)

  datatype Interval = Interval(low: Option<Cut>, high: Option<Cut>)

  predicate Below(v: Version, c: Cut) {
    Compare(v, c.at) == Less || (c.after && Compare(v, c.at) == Equal)
  }

  predicate Inside(v: Version, i: Interval) {
    (i.low.Some? ==> !Below(v, i.low.value)) && (i.high.Some? ==> Below(v, i.high.value))
  }

  function Triple(major: nat, minor: nat, patch: nat): Version { Version(major, minor, patch, [], []) }

  function AtLeast(v: Version): Option<Cut> { Some(Cut(v, false)) }

  function LessThan(v: Version): Option<Cut> { Some(Cut(v, false)) }

  /** The version a predicate names, missing components read as zero. */
  function Base(p: Predicate): Version {
    Version(p.major, p.minor.GetOr(0), p.patch.GetOr(0), if IsFull(p) then p.pre else [], [])
  }

  predicate IsFull(p: Predicate) { p.minor.Some? && p.patch.Some? }

  /** The first version after everything that a partial predicate covers. */
  function NextPartial(p: Predicate): Version {
    if p.minor.None? then Triple(p.major + 1, 0, 0) else Triple(p.major, p.minor.value + 1, 0)
  }

  /** The interval that the documentation gives for each kind of predicate. */
  function IntervalOf(p: Predicate): Interval {
    match p.op
    case Ex =>
      if IsFull(p) then Interval(AtLeast(Base(p)), Some(Cut(Base(p), true)))
      else Interval(AtLeast(Base(p)), LessThan(NextPartial(p)))
    case Gt =>
      if IsFull(p) then Interval(Some(Cut(Base(p), true)), None) else Interval(AtLeast(NextPartial(p)), None)
    case GtEq => Interval(AtLeast(Base(p)), None)
    case Lt => Interval(None, LessThan(Base(p)))
    case LtEq =>
      if IsFull(p) then Interval(None, Some(Cut(Base(p), true))) else Interval(None, LessThan(NextPartial(p)))
    case Tilde => Interval(AtLeast(Base(p)), LessThan(NextPartial(p)))
    case Compatible =>
      Interval(AtLeast(Base(p)), LessThan(
        if p.major > 0 || p.minor.None? then Triple(p.major + 1, 0, 0)
        else if p.minor.value > 0 || p.patch.None? then Triple(0, p.minor.value + 1, 0)
        else Triple(0, 0, p.patch.value + 1)))
    case Wildcard(at) =>
      Interval(
        AtLeast(if at.Minor? then Triple(p.major, 0, 0) else Triple(p.major, p.minor.GetOr(0), 0)),
        LessThan(if at.Minor? then Triple(p.major + 1, 0, 0) else NextPartial(p)))
  }

  /** Predicates as the parser builds them: a patch is only missing with the minor, or wild. */
  predicate ParserShape(p: Predicate) {
    match p.op
    case Wildcard(Minor) => p.minor.None?
    case Wildcard(Patch) => p.patch.None?
    case _ => p.minor.None? ==> p.patch.None?
  }

  /** On releases, and on pre-releases of the predicate's own triple, matching is interval membership. */
  lemma PredicateInterval(p: Predicate, v: Version)
    requires ParserShape(p) && (!IsPrerelease(v) || SharesPrerelease(p, v))
    ensures PredicateMatches(p, v) <==> Inside(v, IntervalOf(p))
  {
    PreLaws(v.pre, p.pre, p.pre);
    VersionOrder(v, Base(p), Base(p));
  }

  /** A single-predicate range matches exactly the versions in the predicate's interval that are
      releases or share the triple of a pre-release predicate. */
  lemma SingleRange(p: Predicate, v: Version)
    requires ParserShape(p)
    ensures Matches(Range([p]), v) <==>
      Inside(v, IntervalOf(p)) && (!IsPrerelease(v) || SharesPrerelease(p, v))
  {
    MatchesOne(p, v);
    hide Matches, PredicateMatches, Inside, IntervalOf, IsPrerelease, SharesPrerelease;
    if !IsPrerelease(v) || SharesPrerelease(p, v) {
      PredicateInterval(p, v);
    }
  }

  lemma MatchesOne(p: Predicate, v: Version)
    ensures Matches(Range([p]), v) <==> PredicateMatches(p, v) && (!IsPrerelease(v) || SharesPrerelease(p, v))
  {
    hide PredicateMatches, SharesPrerelease, IsPrerelease;
    var ps := Range([p]).predicates;
    assert forall q :: q in ps <==> q == p;
    assert ps[0] == p;
    if Matches(Range([p]), v) {
      var q :| q in ps && PreTagIsCompatible(q, v);
      assert q == p && p in ps;
    } else if PreTagIsCompatible(p, v) {
      assert p in ps;
      var q :| q in ps && !PredicateMatches(q, v);
      assert q == p;
    }
  }

  // Ranges

  /** The version without its pre-release. */
  function Bare(v: Version): Version { Triple(v.major, v.minor, v.patch) }

  /** Bounds that pre-releases are compared with: those that the predicate names in full. A release named by
      `~` or `^` is not one. */
  predicate NamesLow(p: Predicate) { IsFull(p) && (p.pre != [] || !(p.op.Tilde? || p.op.Compatible?)) }

  predicate NamesHigh(p: Predicate) { IsFull(p) && (p.op.Ex? || p.op.Lt? || p.op.LtEq?) }

  /** The interval again, for all versions. At other bounds a pre-release is taken for its release. */
  predicate Covers(p: Predicate, v: Version) {
    var i := IntervalOf(p);
    && (i.low.Some? ==> !Below(if NamesLow(p) then v else Bare(v), i.low.value))
    && (i.high.Some? ==> Below(if NamesHigh(p) then v else Bare(v), i.high.value))
  }

  predicate Comparator(op: Op) { op.Ex? || op.Gt? || op.GtEq? || op.Lt? || op.LtEq? }

  lemma ComparatorCovers(p: Predicate, v: Version)
    requires IsFull(p) && Comparator(p.op)
    ensures PredicateMatches(p, v) <==> Covers(p, v)
  {
    ComparatorsAreOrder(p, v);
    hide Compare, IsExact, IsGreater;
  }

  lemma CaretCovers(p: Predicate, v: Version)
    requires IsFull(p) && (p.op.Tilde? || p.op.Compatible?)
    ensures PredicateMatches(p, v) <==> Covers(p, v)
  {
    PreLaws(v.pre, p.pre, p.pre);
  }

  lemma PartialCovers(p: Predicate, v: Version)
    requires ParserShape(p) && !IsFull(p)
    ensures PredicateMatches(p, v) <==> Covers(p, v)
  {
    hide ComparePre;
  }

  lemma PredicateCovers(p: Predicate, v: Version)
    requires ParserShape(p)
    ensures PredicateMatches(p, v) <==> Covers(p, v)
  {
    hide PredicateMatches, Covers;
    if !IsFull(p) {
      PartialCovers(p, v);
    } else if Comparator(p.op) {
      ComparatorCovers(p, v);
    } else {
      CaretCovers(p, v);
    }
  }

  /** Releases have no pre-release to set aside. */
  lemma CoversRelease(p: Predicate, v: Version)
    requires ParserShape(p) && !IsPrerelease(v)
    ensures Covers(p, v) <==> Inside(v, IntervalOf(p))
  {
    PredicateCovers(p, v);
    PredicateInterval(p, v);
  }

  /** A range matches the versions that all its predicates cover, if they are releases or some predicate names
      a pre-release of the same triple. The empty range matches everything. */
  lemma RangeMeaning(r: Range, v: Version)
    requires forall p :: p in r.predicates ==> ParserShape(p)
    ensures Matches(r, v) <==>
      || r.predicates == []
      || ((forall p :: p in r.predicates ==> Covers(p, v)) &&
          (!IsPrerelease(v) || exists p :: p in r.predicates && SharesPrerelease(p, v)))
    ensures r.predicates != [] && !IsPrerelease(v) ==>
      (Matches(r, v) <==> forall p :: p in r.predicates ==> Inside(v, IntervalOf(p)))
  {
    hide PredicateMatches, Covers, Inside, IntervalOf, ParserShape, SharesPrerelease, IsPrerelease;
    forall p | p in r.predicates
      ensures PredicateMatches(p, v) <==> Covers(p, v)
      ensures !IsPrerelease(v) ==> (Covers(p, v) <==> Inside(v, IntervalOf(p)))
    {
      PredicateCovers(p, v);
      if !IsPrerelease(v) {
        CoversRelease(p, v);
      }
    }
    if r.predicates != [] && !IsPrerelease(v) {
      assert PreTagIsCompatible(r.predicates[0], v);
    }
  }

  lemma IntervalConvex(i: Interval, a: Version, b: Version, c: Version)
    requires Inside(a, i) && Inside(c, i) && Compare(a, b) != Greater && Compare(b, c) != Greater
    ensures Inside(b, i)
  {
    if i.low.Some? {
      CompareChain(a, b, i.low.value.at);
    }
    if i.high.Some? {
      CompareChain(b, c, i.high.value.at);
    }
  }

  lemma CompareChain(a: Version, b: Version, c: Version)
    requires Compare(a, b) != Greater
    ensures Compare(b, c) == Less ==> Compare(a, c) == Less
    ensures Compare(b, c) == Equal ==> Compare(a, c) != Greater
  {
    VersionOrder(a, b, c);
    VersionOrder(b, c, a);
    VersionOrder(c, b, a);
    VersionOrder(b, a, c);
  }

  /** The releases that a range matches are convex in the version order. */
  lemma ReleasesConvex(r: Range, a: Version, b: Version, c: Version)
    requires forall p :: p in r.predicates ==> ParserShape(p)
    requires !IsPrerelease(a) && !IsPrerelease(b) && !IsPrerelease(c)
    requires Matches(r, a) && Matches(r, c) && Compare(a, b) != Greater && Compare(b, c) != Greater
    ensures Matches(r, b)
  {
    forall p | p in r.predicates
      ensures PredicateMatches(p, b)
    {
      PredicateInterval(p, a);
      PredicateInterval(p, c);
      IntervalConvex(IntervalOf(p), a, b, c);
      PredicateInterval(p, b);
    }
    if r.predicates != [] {
      assert PreTagIsCompatible(r.predicates[0], b);
    }
  }

  /** With all three components given, the comparators are the comparisons of the version order. */
  lemma ComparatorsAreOrder(p: Predicate, v: Version)
    requires IsFull(p)
    ensures PredicateMatches(p.(op := Ex), v) <==> Compare(v, Base(p)) == Equal
    ensures PredicateMatches(p.(op := Gt), v) <==> Compare(v, Base(p)) == Greater
    ensures PredicateMatches(p.(op := GtEq), v) <==> Compare(v, Base(p)) != Less
    ensures PredicateMatches(p.(op := Lt), v) <==> Compare(v, Base(p)) == Less
    ensures PredicateMatches(p.(op := LtEq), v) <==> Compare(v, Base(p)) != Greater
  {
    PreLaws(v.pre, p.pre, p.pre);
  }
}
