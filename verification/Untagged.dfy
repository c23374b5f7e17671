/** First-match dispatch of untagged interfaces. The Dart decoder tests own keys only
    (`Set.of(_data.keys)`, so `inherited` is empty); the JavaScript decoder tests `name in keys`,
    which also sees what a plain object inherits. */
module Untagged {
  import opened Wrappers
  import opened Schema
  import opened SchemaRules

  /** `keys` can be the key set of an encoded `s`: required fields are present, optional ones may be. */
  ghost predicate Encodes(base: seq<Field>, s: SubType, keys: set<string>) {
    && (forall f :: f in base + s.fields && f.required ==> f.Name() in keys)
    && keys <= Names(base) + Names(s.fields)
  }

  /** The emitted chain of tests: the first sub-type whose required names are all visible. */
  function FirstMatch(subs: seq<SubType>, visible: set<string>): (r: Option<nat>) {
    FirstMatchFrom(subs, visible, 0)
  }

  function FirstMatchFrom(subs: seq<SubType>, visible: set<string>, n: nat): (r: Option<nat>)
    requires n <= |subs|
    ensures r.Some? ==> n <= r.value < |subs| && subs[r.value].Required() <= visible
    ensures forall i :: n <= i < (if r.Some? then r.value else |subs|) ==> !(subs[i].Required() <= visible)
    decreases |subs| - n
  {
    if n == |subs| then None
    else if subs[n].Required() <= visible then Some(n)
    else FirstMatchFrom(subs, visible, n + 1)
  }

  /** Every encoding of every sub-type is decoded as that sub-type. */
  ghost predicate DispatchSound(base: seq<Field>, subs: seq<SubType>, inherited: set<string>) {
    forall i, keys :: 0 <= i < |subs| && Encodes(base, subs[i], keys) ==>
      FirstMatch(subs, keys + inherited) == Some(i)
  }

  /** No sub-type's required names all occur among the names of a later one. */
  predicate Separated(base: seq<Field>, subs: seq<SubType>, inherited: set<string>) {
    forall i, j :: 0 <= i < j < |subs| ==>
      !(subs[i].Required() <= Names(base) + Names(subs[j].fields) + inherited)
  }

  lemma DispatchSoundIff(base: seq<Field>, subs: seq<SubType>, inherited: set<string>)
    ensures DispatchSound(base, subs, inherited) <==> Separated(base, subs, inherited)
  {
    if DispatchSound(base, subs, inherited) {
      forall i, j | 0 <= i < j < |subs|
        ensures !(subs[i].Required() <= Names(base) + Names(subs[j].fields) + inherited)
      {
        var keys := Names(base) + Names(subs[j].fields);
        assert Encodes(base, subs[j], keys);
      }
    }
    if Separated(base, subs, inherited) {
      forall i, keys | 0 <= i < |subs| && Encodes(base, subs[i], keys) {
        SeparatedDispatch(base, subs, inherited, i, keys);
      }
    }
  }

  lemma SeparatedDispatch(base: seq<Field>, subs: seq<SubType>, inherited: set<string>, i: nat, keys: set<string>)
    requires Separated(base, subs, inherited) && i < |subs| && Encodes(base, subs[i], keys)
    ensures FirstMatch(subs, keys + inherited) == Some(i)
  {
    EncodedMatches(base, subs[i], keys);
    assert keys + inherited <= Names(base) + Names(subs[i].fields) + inherited;
    assert subs[i].Required() <= keys + inherited;
  }

  lemma EncodedMatches(base: seq<Field>, s: SubType, keys: set<string>)
    requires Encodes(base, s, keys)
    ensures s.Required() <= keys
  {
    forall n | n in s.Required()
      ensures n in keys
    {
      var f :| f in s.fields && f.required && f.Name() == n;
      assert f in base + s.fields;
    }
  }

  /** What the checker establishes for an untagged interface separates its sub-types, as long as no
      required name is inherited. */
  lemma AcceptedIsSeparated(base: seq<Field>, subs: seq<SubType>, inherited: set<string>)
    requires forall i :: 0 <= i < |subs| ==> Names(subs[i].fields) !! Names(base)
    requires InterfaceOk(base, subs, Strategy.Untagged)
    requires forall i :: 0 <= i < |subs| ==> subs[i].Required() !! inherited
    ensures Separated(base, subs, inherited)
  {
    forall i, j | 0 <= i < j < |subs|
      ensures !(subs[i].Required() <= Names(base) + Names(subs[j].fields) + inherited)
    {
      var key := subs[i].Required();
      assert !Shadows(subs, i, |subs|);
      assert !(key <= subs[j].Required());
      var n :| n in key && n !in subs[j].Required();
      assert Apart(subs, j, |subs|);
      assert key <= Names(subs[i].fields);
      assert OptionalsAvoid(subs[j], key);
      assert n !in Names(base) + Names(subs[j].fields);
    }
  }

  /** The emitted decoder of an accepted untagged interface picks the sub-type that was encoded,
      whichever optional fields are present. */
  lemma AcceptedDispatch(base: seq<Field>, subs: seq<SubType>, inherited: set<string>, i: nat, keys: set<string>)
    requires forall k :: 0 <= k < |subs| ==> Names(subs[k].fields) !! Names(base)
    requires InterfaceOk(base, subs, Strategy.Untagged)
    requires forall k :: 0 <= k < |subs| ==> subs[k].Required() !! inherited
    requires i < |subs| && Encodes(base, subs[i], keys)
    ensures FirstMatch(subs, keys + inherited) == Some(i)
  {
    AcceptedIsSeparated(base, subs, inherited);
    DispatchSoundIff(base, subs, inherited);
  }

  predicate Misdispatched(subs: seq<SubType>, keys: set<string>, i: nat) {
    FirstMatch(subs, keys).Some? && FirstMatch(subs, keys).value <= i
  }

  /** Without the order rule: the later sub-type, encoded without its optional fields, is decoded as
      an earlier one. */
  lemma ShadowedMisdispatch(base: seq<Field>, subs: seq<SubType>, i: nat, j: nat)
    requires i < j < |subs| && subs[i].Required() <= subs[j].Required()
    ensures exists keys :: Encodes(base, subs[j], keys) && Misdispatched(subs, keys, i)
  {
    var keys := subs[j].Required() + set f <- base | f.required :: f.Name();
    forall f | f in base + subs[j].fields && f.required
      ensures f.Name() in keys
    {
    }
    assert Encodes(base, subs[j], keys) && Misdispatched(subs, keys, i);
  }
}
