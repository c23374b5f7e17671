/** The naming rounds (lib/trans/session.rs), and what they assign. */
module PackageRounds {
  import opened Wrappers
  import Decimal
  import opened Joined
  import opened PackageNames
  import SemverVersion

  type Item = (Versioned, nat)

  // One round

  predicate QueueOk(queue: seq<Item>, level: nat) {
    && (forall i :: 0 <= i < |queue| ==> queue[i].1 == level)
    && (forall i, j :: 0 <= i < j < |queue| ==> queue[i].0 != queue[j].0)
  }

  function Members(queue: seq<Item>): set<Versioned> { set i | 0 <= i < |queue| :: queue[i].0 }

  /** The name each queued package gets in a round. */
  predicate Converted(queue: seq<Item>, level: nat, conv: map<Versioned, Package>) {
    && conv.Keys == Members(queue)
    && (forall i :: 0 <= i < |queue| ==> conv[queue[i].0] == Name(queue[i].0, level, Decimal.Digits(i)))
  }

  predicate Shared(conv: map<Versioned, Package>, p: Versioned)
    requires p in conv
  {
    exists q :: q in conv && q != p && conv[q] == conv[p]
  }

  /** `items` holds the packages converted to `c`, once each. */
  ghost predicate Group(conv: map<Versioned, Package>, c: Package, items: seq<Item>, level: nat) {
    && items != [] && QueueOk(items, level)
    && (forall p :: p in Members(items) <==> p in conv && conv[p] == c)
  }

  ghost predicate Grouped(conv: map<Versioned, Package>, candidates: map<Package, seq<Item>>, level: nat) {
    && (forall p :: p in conv ==> conv[p] in candidates)
    && (forall c :: c in candidates ==> Group(conv, c, candidates[c], level))
  }

  lemma MembersSnoc(items: seq<Item>, item: Item)
    ensures Members(items + [item]) == Members(items) + {item.0}
  {
    var all := items + [item];
    forall p | p in Members(items) + {item.0}
      ensures p in Members(all)
    {
      if p in Members(items) {
        var i :| 0 <= i < |items| && items[i].0 == p;
        assert all[i].0 == p;
      } else {
        assert all[|items|].0 == p;
      }
    }
  }

  lemma QueueSnoc(items: seq<Item>, item: Item, level: nat)
    requires QueueOk(items, level) && item.1 == level && item.0 !in Members(items)
    ensures QueueOk(items + [item], level)
  {
    forall i | 0 <= i < |items| ensures items[i].0 != item.0 {
      assert items[i].0 in Members(items);
    }
  }

  lemma GroupStep(
    conv: map<Versioned, Package>, candidates: map<Package, seq<Item>>, level: nat, item: Item, c: Package
  )
    requires Grouped(conv, candidates, level) && item.1 == level && item.0 !in conv
    ensures var items := if c in candidates then candidates[c] else [];
      Grouped(conv[item.0 := c], candidates[c := items + [item]], level)
  {
    var items := if c in candidates then candidates[c] else [];
    MembersSnoc(items, item);
    QueueSnoc(items, item, level);
    var conv' := conv[item.0 := c];
    forall d | d in candidates && d != c
      ensures Group(conv', d, candidates[d], level)
    {
      assert Group(conv, d, candidates[d], level);
    }
    assert Group(conv', c, items + [item], level);
  }

  /** Groups the queue by converted name. */
  method Candidates(queue: seq<Item>, level: nat)
    returns (candidates: map<Package, seq<Item>>, ghost conv: map<Versioned, Package>)
    requires QueueOk(queue, level)
    ensures Converted(queue, level, conv) && Grouped(conv, candidates, level + 1)
    ensures forall i :: 0 <= i < |queue| ==> InCandidates(candidates, queue[i].0, level, i)
  {
    candidates := map[];
    conv := map[];
    for count := 0 to |queue|
      invariant Converted(queue[..count], level, conv) && Grouped(conv, candidates, level + 1)
    {
      var (package, l) := queue[count];
      var random := Decimal.Digits(count);
      var converted := PackageWithLevel(package, l, random);
      assert queue[..count + 1] == queue[..count] + [queue[count]];
      MembersSnoc(queue[..count], queue[count]);
      assert package !in conv;
      GroupStep(conv, candidates, level + 1, (package, l + 1), converted);
      conv := conv[package := converted];
      var partial := if converted in candidates then candidates[converted] else [];
      candidates := candidates[converted := partial + [(package, l + 1)]];
    }
    assert queue[..|queue|] == queue;
    forall i | 0 <= i < |queue| ensures InCandidates(candidates, queue[i].0, level, i) {
      CandidateOf(queue, level, conv, candidates, i);
    }
  }

  /** The `i`-th package of the queue is among the candidates for its name, one level up. */
  predicate InCandidates(candidates: map<Package, seq<Item>>, p: Versioned, level: nat, i: nat) {
    var name := Name(p, level, Decimal.Digits(i));
    name in candidates && (p, level + 1) in candidates[name]
  }

  lemma CandidateOf(
    queue: seq<Item>, level: nat, conv: map<Versioned, Package>, candidates: map<Package, seq<Item>>, i: nat
  )
    requires Converted(queue, level, conv) && Grouped(conv, candidates, level + 1) && i < |queue|
    ensures InCandidates(candidates, queue[i].0, level, i)
  {
    var p := queue[i].0;
    assert p in Members(queue);
    var items := candidates[conv[p]];
    assert Group(conv, conv[p], items, level + 1) && p in Members(items);
    var k :| 0 <= k < |items| && items[k].0 == p;
    assert items[k] == (p, level + 1);
  }

  lemma GroupShared(conv: map<Versioned, Package>, c: Package, items: seq<Item>, level: nat, p: Versioned)
    requires Group(conv, c, items, level) && p in conv && conv[p] == c
    ensures Shared(conv, p) <==> |items| > 1
  {
    assert p in Members(items);
    var i :| 0 <= i < |items| && items[i].0 == p;
    if |items| > 1 {
      var q := items[if i == 0 then 1 else 0].0;
      assert q in Members(items) && q != p;
    }
    if Shared(conv, p) {
      var q :| q in conv && q != p && conv[q] == conv[p];
      assert q in Members(items);
    }
  }

  lemma QueueAppend(queue: seq<Item>, items: seq<Item>, level: nat)
    requires QueueOk(queue, level) && QueueOk(items, level) && Members(queue) !! Members(items)
    ensures QueueOk(queue + items, level) && Members(queue + items) == Members(queue) + Members(items)
  {
    var all := queue + items;
    forall i, j | 0 <= i < |queue| && 0 <= j < |items|
      ensures queue[i].0 != items[j].0
    {
      assert queue[i].0 in Members(queue) && items[j].0 in Members(items);
    }
    forall p | p in Members(queue) + Members(items)
      ensures p in Members(all)
    {
      if p in Members(queue) {
        var i :| 0 <= i < |queue| && queue[i].0 == p;
        assert all[i].0 == p;
      } else {
        var i :| 0 <= i < |items| && items[i].0 == p;
        assert all[|queue| + i].0 == p;
      }
    }
  }

  /** After the candidates outside `todo` are handled: shared ones are queued again, the others named. */
  ghost predicate Placed(
    conv: map<Versioned, Package>, todo: set<Package>, queue: seq<Item>, files: map<Versioned, Package>,
    before: map<Versioned, Package>
  ) {
    && (forall p :: p in Members(queue) <==> p in conv && conv[p] !in todo && Shared(conv, p))
    && (forall p :: p in files <==> p in before || (p in conv && conv[p] !in todo && !Shared(conv, p)))
    && (forall p :: p in files ==> files[p] == if p in before then before[p] else conv[p])
  }

  lemma PlaceShared(
    conv: map<Versioned, Package>, todo: set<Package>, queue: seq<Item>, files: map<Versioned, Package>,
    before: map<Versioned, Package>, c: Package, items: seq<Item>, level: nat
  )
    requires Placed(conv, todo, queue, files, before) && QueueOk(queue, level) && c in todo
    requires Group(conv, c, items, level) && |items| > 1
    ensures QueueOk(queue + items, level) && Placed(conv, todo - {c}, queue + items, files, before)
  {
    forall p | p in Members(items) ensures Shared(conv, p) && conv[p] == c && p !in Members(queue) {
      GroupShared(conv, c, items, level, p);
    }
    QueueAppend(queue, items, level);
  }

  lemma PlaceUnique(
    conv: map<Versioned, Package>, todo: set<Package>, queue: seq<Item>, files: map<Versioned, Package>,
    before: map<Versioned, Package>, c: Package, items: seq<Item>, level: nat
  )
    requires Placed(conv, todo, queue, files, before) && c in todo && conv.Keys !! before.Keys
    requires Group(conv, c, items, level) && |items| == 1
    ensures Placed(conv, todo - {c}, queue, files[items[0].0 := c], before)
  {
    var p := items[0].0;
    assert p in Members(items);
    assert forall q :: q in Members(items) ==> q == p;
    GroupShared(conv, c, items, level, p);
    forall q | q in conv && conv[q] == c ensures q == p {
      assert q in Members(items);
    }
  }

  /** One round: packages whose names are shared go back into the queue, one level up; the others are
      named. Candidates are handled in any order. */
  method Round(queue: seq<Item>, level: nat, files: map<Versioned, Package>)
    returns (queue': seq<Item>, files': map<Versioned, Package>, ghost conv: map<Versioned, Package>)
    requires QueueOk(queue, level) && Members(queue) !! files.Keys
    ensures Converted(queue, level, conv) && QueueOk(queue', level + 1)
    ensures Placed(conv, {}, queue', files', files)
  {
    var candidates;
    candidates, conv := Candidates(queue, level);
    queue' := [];
    files' := files;
    var todo := candidates.Keys;
    while todo != {}
      invariant todo <= candidates.Keys && QueueOk(queue', level + 1)
      invariant Placed(conv, todo, queue', files', files)
      decreases |todo|
    {
      var converted :| converted in todo;
      var partial := candidates[converted];
      if |partial| > 1 {
        PlaceShared(conv, todo, queue', files', files, converted, partial, level + 1);
        queue' := queue' + partial;
      } else {
        PlaceUnique(conv, todo, queue', files', files, converted, partial, level + 1);
        files' := files'[partial[0].0 := converted];
      }
      todo := todo - {converted};
    }
  }

  // All rounds

  /** Unversioned packages survive round 0 only if they look like a bare version, and round 1 never. */
  predicate Narrowed(queue: seq<Item>, level: nat) {
    && (level >= 1 ==> forall p :: p in Members(queue) && p.version.None? ==> !Marked(p.package))
    && (level >= 2 ==> forall p :: p in Members(queue) ==> p.version.Some?)
    && (level >= 6 ==> queue == [])
  }

  lemma ConvertedAt(queue: seq<Item>, level: nat, conv: map<Versioned, Package>, p: Versioned) returns (i: nat)
    requires Converted(queue, level, conv) && p in conv
    ensures i < |queue| && queue[i].0 == p && conv[p] == Name(p, level, Decimal.Digits(i))
  {
    assert p in Members(queue);
    i :| 0 <= i < |queue| && queue[i].0 == p;
  }

  lemma SharedNarrows(
    packages: set<Versioned>, queue: seq<Item>, level: nat, conv: map<Versioned, Package>, p: Versioned
  )
    requires DistinctKeys(packages) && Members(queue) <= packages && level <= 5
    requires Narrowed(queue, level) && Converted(queue, level, conv) && p in conv && Shared(conv, p)
    ensures level <= 4 && (p.version.None? ==> level == 0 && !Marked(p.package))
  {
    var q :| q in conv && q != p && conv[q] == conv[p];
    var i := ConvertedAt(queue, level, conv, p);
    var j := ConvertedAt(queue, level, conv, q);
    assert p in Members(queue) && q in Members(queue);
    hide Name;
    if p.version.None? {
      assert !SameKey(p, q);
      UnversionedNames(p, q, level, Decimal.Digits(i), Decimal.Digits(j));
    } else if q.version.None? {
      assert !SameKey(q, p);
      UnversionedNames(q, p, level, Decimal.Digits(j), Decimal.Digits(i));
    } else if level == 5 {
      RandomNames(p, q, i, j);
    }
  }

  lemma RoundNarrows(
    packages: set<Versioned>, queue: seq<Item>, level: nat, conv: map<Versioned, Package>, queue': seq<Item>,
    files: map<Versioned, Package>, before: map<Versioned, Package>
  )
    requires DistinctKeys(packages) && Members(queue) <= packages && level <= 5
    requires Narrowed(queue, level) && Converted(queue, level, conv) && Placed(conv, {}, queue', files, before)
    ensures Narrowed(queue', level + 1)
  {
    hide DistinctKeys, Converted, Marked, Shared;
    forall p | p in Members(queue')
      ensures level <= 4 && (p.version.None? ==> level == 0 && !Marked(p.package))
    {
      SharedNarrows(packages, queue, level, conv, p);
    }
    hide Placed;
    if queue' != [] {
      assert queue'[0].0 in Members(queue');
    }
  }

  // Canonical versions

  lemma RandomIgnored(p: Versioned, level: nat, random: string)
    requires level <= 4
    ensures Name(p, level, random) == Name(p, level, "")
  {
  }

  /** What is queued at a level, and what has been named. */
  ghost predicate Settled(
    packages: set<Versioned>, queue: seq<Item>, files: map<Versioned, Package>, level: nat
  ) {
    && level <= 4
    && (forall p :: p in Members(queue) <==> p in packages && Pending(packages, p, level))
    && (forall p :: p in files ==> p in packages && files[p] == FinalName(packages, p))
  }

  lemma SharedAtLevel(
    packages: set<Versioned>, queue: seq<Item>, level: nat, conv: map<Versioned, Package>, p: Versioned
  )
    requires DistinctKeys(packages) && AllCanonical(packages) && level <= 3
    requires forall q :: q in Members(queue) <==> q in packages && Pending(packages, q, level)
    requires Converted(queue, level, conv) && p in conv
    ensures conv[p] == Name(p, level, "")
    ensures Shared(conv, p) <==> Clash(packages, p, level)
  {
    forall q | q in conv ensures conv[q] == Name(q, level, "") {
      var i := ConvertedAt(queue, level, conv, q);
      RandomIgnored(q, level, Decimal.Digits(i));
    }
    SharedIsClash(packages, p, level);
    if Clash(packages, p, level) {
      var q :| q in packages && q != p && Pending(packages, q, level) && Name(q, level, "") == Name(p, level, "");
      assert q in Members(queue);
    }
    if Shared(conv, p) {
      var q :| q in conv && q != p && conv[q] == conv[p];
      assert q in Members(queue);
    }
  }

  lemma {:induction false} FinalLevelIs(packages: set<Versioned>, p: Versioned, from: nat, level: nat)
    requires from <= level <= 3 && Pending(packages, p, level) && !Clash(packages, p, level)
    ensures FinalLevel(packages, p, from) == level
    decreases level - from
  {
    if from < level {
      FinalLevelIs(packages, p, from + 1, level);
    }
  }

  lemma MemberSettles(
    packages: set<Versioned>, queue: seq<Item>, level: nat, conv: map<Versioned, Package>, p: Versioned
  )
    requires DistinctKeys(packages) && AllCanonical(packages) && level <= 3
    requires forall q :: q in Members(queue) <==> q in packages && Pending(packages, q, level)
    requires Converted(queue, level, conv) && p in conv
    ensures Shared(conv, p) <==> Pending(packages, p, level + 1)
    ensures !Shared(conv, p) ==> conv[p] == FinalName(packages, p)
    ensures level == 3 ==> !Shared(conv, p)
  {
    assert p in Members(queue);
    SharedAtLevel(packages, queue, level, conv, p);
    hide Converted, Shared, Clash;
    if !Shared(conv, p) {
      FinalLevelIs(packages, p, 0, level);
    }
    if level == 3 {
      NoClashAtThree(packages, p);
    }
  }

  lemma RoundSettles(
    packages: set<Versioned>, queue: seq<Item>, level: nat, conv: map<Versioned, Package>, queue': seq<Item>,
    files: map<Versioned, Package>, before: map<Versioned, Package>
  )
    requires DistinctKeys(packages) && AllCanonical(packages) && level <= 3
    requires Settled(packages, queue, before, level) && Converted(queue, level, conv)
    requires Placed(conv, {}, queue', files, before)
    ensures Settled(packages, queue', files, level + 1)
    ensures level == 3 ==> queue' == []
  {
    hide Clash, Pending, FinalName, DistinctKeys, AllCanonical, Converted, Shared;
    forall p | p in conv
      ensures Shared(conv, p) <==> Pending(packages, p, level + 1)
      ensures !Shared(conv, p) ==> conv[p] == FinalName(packages, p)
      ensures level == 3 ==> !Shared(conv, p)
    {
      MemberSettles(packages, queue, level, conv, p);
    }
    PendingBelow(packages, level);
    assert conv.Keys == Members(queue) by {
      ConvertedKeys(queue, level, conv);
    }
    if queue' != [] {
      assert queue'[0].0 in Members(queue');
    }
  }

  lemma ConvertedKeys(queue: seq<Item>, level: nat, conv: map<Versioned, Package>)
    requires Converted(queue, level, conv)
    ensures conv.Keys == Members(queue)
  {
  }

  lemma PendingBelow(packages: set<Versioned>, level: nat)
    ensures forall p :: Pending(packages, p, level + 1) ==> Pending(packages, p, level)
  {
  }

  function SetOf(keys: seq<Versioned>): set<Versioned> { set p | p in keys }

  /** Names every package exactly once, in at most six rounds; in at most four for versions that the
      parser produces, and then the names do not depend on the order of the queue. */
  method Packages(keys: seq<Versioned>) returns (files: map<Versioned, Package>, rounds: nat)
    requires forall i, j :: 0 <= i < j < |keys| ==> !SameKey(keys[i], keys[j])
    ensures files.Keys == SetOf(keys) && rounds <= 6
    ensures var packages := SetOf(keys);
      AllCanonical(packages) ==> rounds <= 4 && forall p :: p in packages ==> files[p] == FinalName(packages, p)
  {
    ghost var packages := SetOf(keys);
    hide QueueOk, Narrowed, Settled, Converted, Placed, Members, DistinctKeys, AllCanonical, SetOf, SameKey;
    var queue: seq<Item> := seq(|keys|, i requires 0 <= i < |keys| => (keys[i], 0));
    StartQueue(keys, queue);
    files := map[];
    rounds := 0;
    while queue != []
      invariant rounds <= 6 && QueueOk(queue, rounds) && Narrowed(queue, rounds)
      invariant Members(queue) !! files.Keys && Members(queue) + files.Keys == packages
      invariant AllCanonical(packages) ==>
        rounds <= 4 && Settled(packages, queue, files, rounds) && (rounds == 4 ==> queue == [])
      decreases 6 - rounds
    {
      if rounds == 6 {
        NoneLeft(queue);
      }
      ghost var before, last := files, queue;
      ghost var conv;
      queue, files, conv := Round(queue, rounds, files);
      RoundMembers(last, rounds, conv, queue, files, before);
      RoundNarrows(packages, last, rounds, conv, queue, files, before);
      if AllCanonical(packages) {
        RoundSettles(packages, last, rounds, conv, queue, files, before);
      }
      rounds := rounds + 1;
    }
    SettledNames(packages, files, rounds);
  }

  lemma NoneLeft(queue: seq<Item>)
    requires Narrowed(queue, 6)
    ensures queue == []
  {
  }

  lemma SettledNames(packages: set<Versioned>, files: map<Versioned, Package>, level: nat)
    ensures Members([]) == {}
    ensures Settled(packages, [], files, level) ==> forall p :: p in files ==> files[p] == FinalName(packages, p)
  {
  }

  /** A round neither loses nor duplicates a package. */
  lemma RoundMembers(
    queue: seq<Item>, level: nat, conv: map<Versioned, Package>, queue': seq<Item>, files: map<Versioned, Package>,
    before: map<Versioned, Package>
  )
    requires Converted(queue, level, conv) && Placed(conv, {}, queue', files, before)
    requires Members(queue) !! before.Keys
    ensures Members(queue') !! files.Keys && Members(queue') + files.Keys == Members(queue) + before.Keys
  {
  }

  lemma StartQueue(keys: seq<Versioned>, queue: seq<Item>)
    requires forall i, j :: 0 <= i < j < |keys| ==> !SameKey(keys[i], keys[j])
    requires queue == seq(|keys|, i requires 0 <= i < |keys| => (keys[i], 0))
    ensures QueueOk(queue, 0) && Members(queue) == SetOf(keys) && DistinctKeys(SetOf(keys))
    ensures Settled(SetOf(keys), queue, map[], 0) && Narrowed(queue, 0)
  {
    forall i | 0 <= i < |keys| ensures keys[i] in Members(queue) {
      assert queue[i].0 == keys[i];
    }
    forall i, j | 0 <= i < j < |keys| ensures !SameKey(keys[j], keys[i]) {
      assert !SameKey(keys[i], keys[j]);
    }
    forall i, j | 0 <= i < j < |queue| ensures queue[i].0 != queue[j].0 {
      assert SameKey(keys[i], keys[i]);
    }
  }

  // Injectivity

  predicate InjectiveNames(packages: set<Versioned>) {
    forall p, q :: p in packages && q in packages && p != q ==> FinalName(packages, p) != FinalName(packages, q)
  }

  lemma LevelsApart(p: Versioned, q: Versioned, l: nat, m: nat)
    requires p.version.Some? && q.version.Some? && CanonicalPackage(p) && CanonicalPackage(q)
    requires l < m <= 3 && Name(p, l, "") == Name(q, m, "")
    ensures l == 2 && Name(q, 2, "") == Name(p, 2, "")
  {
    var v, w := p.version.value, q.version.value;
    var a, b := Name(p, l, ""), Name(q, m, "");
    assert a[|a| - 1] == b[|b| - 1];
    SegmentsNoMarks(v, l, "");
    SegmentsNoMarks(w, m, "");
    JoinInjective(Segments(v, l, ""), Segments(w, m, ""));
    SegmentsAt(v, l, "");
    SegmentsAt(w, m, "");
    assert w.pre == [];
    assert Segments(w, 3, "") == Segments(w, 2, "");
  }

  /** Versioned packages never end up with the same name. */
  lemma VersionedApart(packages: set<Versioned>, p: Versioned, q: Versioned)
    requires DistinctKeys(packages) && AllCanonical(packages) && p in packages && q in packages && p != q
    requires p.version.Some? && q.version.Some?
    requires FinalLevel(packages, p, 0) <= FinalLevel(packages, q, 0)
    ensures FinalName(packages, p) != FinalName(packages, q)
  {
    if FinalName(packages, p) == FinalName(packages, q) {
      var l, m := FinalLevel(packages, p, 0), FinalLevel(packages, q, 0);
      NoClashAtThree(packages, p);
      if l < m {
        LevelsApart(p, q, l, m);
      }
      assert Clash(packages, p, l);
    }
  }

  /** The version is spelled out to `level`: there is a clash at every level below it and none there. */
  predicate SpelledTo(packages: set<Versioned>, w: Versioned, level: nat) {
    Pending(packages, w, level) && !Clash(packages, w, level)
  }

  lemma SpelledToFinal(packages: set<Versioned>, w: Versioned, level: nat)
    requires DistinctKeys(packages) && AllCanonical(packages) && w in packages && level <= 3
    ensures SpelledTo(packages, w, level) <==> FinalLevel(packages, w, 0) == level
  {
    NoClashAtThree(packages, w);
    hide Clash, DistinctKeys, AllCanonical;
    if SpelledTo(packages, w, level) {
      FinalLevelIs(packages, w, 0, level);
    }
  }

  /** The names are injective exactly when no unversioned package is called what some versioned package of
      the session is called at the level, from 1 to 3, to which its version is spelled out. */
  lemma InjectiveIff(packages: set<Versioned>)
    requires DistinctKeys(packages) && AllCanonical(packages)
    ensures InjectiveNames(packages) <==>
      forall u, w, level :: u in packages && w in packages && u.version.None? && w.version.Some? && 1 <= level <= 3 ==>
        SpelledTo(packages, w, level) ==> u.package != Name(w, level, "")
  {
    forall u, w | u in packages && w in packages && u != w && (u.version.None? <==> w.version.None?)
      ensures FinalName(packages, u) != FinalName(packages, w)
    {
      SameKindApart(packages, u, w);
    }
    hide Clash, SameKey, DistinctKeys, AllCanonical, SpelledTo;
    forall w, level | w in packages && 0 <= level <= 3
      ensures SpelledTo(packages, w, level) <==> FinalLevel(packages, w, 0) == level
    {
      SpelledToFinal(packages, w, level);
    }
    forall u, w | u in packages && w in packages && u.version.None? && w.version.Some?
      ensures FinalName(packages, u) == FinalName(packages, w) ==> FinalLevel(packages, w, 0) > 0
      ensures SpelledTo(packages, w, FinalLevel(packages, w, 0))
    {
      MixedAboveZero(packages, u, w);
    }
  }

  lemma SameKindApart(packages: set<Versioned>, u: Versioned, w: Versioned)
    requires DistinctKeys(packages) && AllCanonical(packages) && u in packages && w in packages && u != w
    requires u.version.None? <==> w.version.None?
    ensures FinalName(packages, u) != FinalName(packages, w)
  {
    if u.version.None? {
      assert !SameKey(u, w);
    } else if FinalLevel(packages, u, 0) <= FinalLevel(packages, w, 0) {
      VersionedApart(packages, u, w);
    } else {
      VersionedApart(packages, w, u);
    }
  }

  lemma MixedAboveZero(packages: set<Versioned>, u: Versioned, w: Versioned)
    requires u in packages && w in packages && u.version.None? && w.version.Some?
    ensures FinalName(packages, u) == FinalName(packages, w) ==> FinalLevel(packages, w, 0) > 0
  {
    if Name(u, 0, "") == Name(w, 0, "") {
      assert Clash(packages, w, 0);
    }
  }

  /** `v`, digits, an underscore, and anything. */
  ghost predicate VersionLike(part: string) {
    exists n: nat :: "v" + Decimal.Digits(n) + "_" <= part
  }

  lemma {:induction false} JoinStart(segments: seq<string>)
    requires |segments| > 1
    ensures segments[0] + "_" <= Join(segments)
  {
    var init := segments[..|segments| - 1];
    if |init| > 1 {
      JoinStart(init);
    }
  }

  /** In particular they are injective if no unversioned package ends in something like a version. */
  lemma InjectiveIfNotVersionLike(packages: set<Versioned>)
    requires DistinctKeys(packages) && AllCanonical(packages)
    requires forall u :: u in packages && u.version.None? && u.package != [] ==>
      !VersionLike(u.package[|u.package| - 1])
    ensures InjectiveNames(packages)
  {
    forall u, w, level | u in packages && w in packages && u.version.None? && w.version.Some? && 1 <= level <= 3
      ensures u.package != Name(w, level, "")
    {
      var name := Name(w, level, "");
      var v := w.version.value;
      var segments := Segments(v, level, "");
      JoinStart(segments);
      assert name[|name| - 1] == Join(segments);
      assert "v" + Decimal.Digits(v.major) + "_" <= Join(segments);
      assert VersionLike(name[|name| - 1]);
    }
    InjectiveIff(packages);
  }

  /** Without that condition two packages can end up with one name: `a` at 1.0.0 and 1.1.0 beside an
      unversioned `a.v1_0`. */
  lemma VersionLikeTrap()
    ensures var one, two := Release("a", 1, 0, 0), Release("a", 1, 1, 0);
      var plain := Versioned(["a", "v1_0"], None);
      FinalName({one, two, plain}, one) == FinalName({one, two, plain}, plain)
  {
    var one, two, plain := Release("a", 1, 0, 0), Release("a", 1, 1, 0), Versioned(["a", "v1_0"], None);
    var packages := {one, two, plain};
    ReleaseNames();
    hide Segments, Join, Name;
    assert two in packages && two != one;
    assert Clash(packages, one, 0);
    assert !Clash(packages, one, 1);
    hide Clash;
    FinalLevelIs(packages, one, 0, 1);
  }

  lemma ReleaseNames()
    ensures var one, two := Release("a", 1, 0, 0), Release("a", 1, 1, 0);
      && Name(one, 0, "") == Name(two, 0, "")
      && Name(one, 1, "") == ["a", "v1_0"] && Name(two, 1, "") != Name(one, 1, "")
  {
    var v, w := Release("a", 1, 0, 0).version.value, Release("a", 1, 1, 0).version.value;
    assert Decimal.Digits(0) == "0" && Decimal.Digits(1) == "1" && "v" + "1" == "v1";
    assert Segments(v, 0, "") == Segments(w, 0, "") == ["v1"];
    assert Segments(v, 1, "") == ["v1", "0"] && Segments(w, 1, "") == ["v1", "1"];
    hide Segments;
    JoinSnoc(["v1"], "0");
    JoinSnoc(["v1"], "1");
    assert ["v1"] + ["0"] == ["v1", "0"] && ["v1"] + ["1"] == ["v1", "1"];
    assert "v1" + "_" + "0" == "v1_0" && "v1" + "_" + "1" == "v1_1" && Join(["v1"]) == "v1";
    hide Join;
    assert Release("a", 1, 0, 0).package + ["v1_0"] == ["a", "v1_0"];
    assert Release("a", 1, 1, 0).package + ["v1_1"] == ["a", "v1_1"];
    assert "v1_0"[3] != "v1_1"[3];
    assert ["a", "v1_0"][1] != ["a", "v1_1"][1];
  }

  function Release(name: string, major: nat, minor: nat, patch: nat): Versioned {
    Versioned([name], Some(SemverVersion.Version(major, minor, patch, [], [])))
  }
}
