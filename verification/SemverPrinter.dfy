/** The `Display` implementations of versions and ranges: loops that write separators between items. */
module SemverPrinter {
  import opened Wrappers
  import Decimal
  import opened SemverVersion
  import opened SemverRange
  import opened SemverSyntax

  lemma {:induction false} IdentifiersSnoc(ids: seq<Identifier>, id: Identifier)
    ensures PrintIdentifiers(ids + [id]) ==
      PrintIdentifiers(ids) + (if ids == [] then "" else ".") + PrintIdentifier(id)
  {
    hide PrintIdentifier;
    var all := ids + [id];
    if ids != [] {
      IdentifiersSnoc(ids[1..], id);
      assert all[1..] == ids[1..] + [id];
      var head := PrintIdentifier(ids[0]);
      if |ids| == 1 {
        assert PrintIdentifiers(all) == head + "." + PrintIdentifier(id);
      } else {
        var tail := PrintIdentifiers(ids[1..]);
        assert head + "." + (tail + "." + PrintIdentifier(id)) == (head + "." + tail) + "." + PrintIdentifier(id);
      }
    }
  }

  lemma {:induction false} PredicatesSnoc(ps: seq<Predicate>, p: Predicate)
    ensures PrintPredicates(ps + [p]) ==
      PrintPredicates(ps) + (if ps == [] then "" else ", ") + PrintPredicate(p)
  {
    hide PrintPredicate;
    var all := ps + [p];
    if ps != [] {
      PredicatesSnoc(ps[1..], p);
      assert all[1..] == ps[1..] + [p];
      var head := PrintPredicate(ps[0]);
      if |ps| == 1 {
        assert PrintPredicates(all) == head + ", " + PrintPredicate(p);
      } else {
        var tail := PrintPredicates(ps[1..]);
        assert head + ", " + (tail + ", " + PrintPredicate(p)) == (head + ", " + tail) + ", " + PrintPredicate(p);
      }
    }
  }

  method WriteIdentifiers(out: string, ids: seq<Identifier>) returns (out': string)
    ensures out' == out + PrintIdentifiers(ids)
  {
    out' := out;
    for i := 0 to |ids|
      invariant out' == out + PrintIdentifiers(ids[..i])
    {
      assert ids[..i + 1] == ids[..i] + [ids[i]];
      IdentifiersSnoc(ids[..i], ids[i]);
      if i != 0 {
        out' := out' + ".";
      }
      out' := out' + PrintIdentifier(ids[i]);
    }
    assert ids[..|ids|] == ids;
  }

  method WriteSection(out: string, mark: string, ids: seq<Identifier>) returns (out': string)
    ensures out' == out + PrintSection(mark, ids)
  {
    out' := out;
    if ids != [] {
      out' := WriteIdentifiers(out + mark, ids);
    }
  }

  method WriteVersion(v: Version) returns (out: string)
    ensures out == PrintVersion(v)
  {
    out := Decimal.Digits(v.major) + "." + Decimal.Digits(v.minor) + "." + Decimal.Digits(v.patch);
    out := WriteSection(out, "-", v.pre);
    out := WriteSection(out, "+", v.build);
  }

  method WriteDotted(out: string, n: Option<nat>) returns (out': string)
    ensures out' == out + PrintDotted(n)
  {
    out' := out;
    if n.Some? {
      out' := out + ("." + Decimal.Digits(n.value));
    }
  }

  method WritePredicate(p: Predicate) returns (out: string)
    ensures out == PrintPredicate(p)
  {
    match p.op {
      case Wildcard(Minor) => out := Decimal.Digits(p.major) + ".*";
      case Wildcard(Patch) =>
        if p.minor.Some? {
          out := Decimal.Digits(p.major) + "." + Decimal.Digits(p.minor.value) + ".*";
        } else {
          out := Decimal.Digits(p.major) + ".*.*";
        }
      case _ =>
        out := PrintOp(p.op) + Decimal.Digits(p.major);
        out := WriteDotted(out, p.minor);
        out := WriteDotted(out, p.patch);
        out := WriteSection(out, "-", p.pre);
    }
  }

  method WriteRange(r: Range) returns (out: string)
    ensures out == PrintRange(r)
  {
    if r.predicates == [] {
      return "*";
    }
    out := "";
    for i := 0 to |r.predicates|
      invariant out == PrintPredicates(r.predicates[..i])
    {
      assert r.predicates[..i + 1] == r.predicates[..i] + [r.predicates[i]];
      PredicatesSnoc(r.predicates[..i], r.predicates[i]);
      if i != 0 {
        out := out + ", ";
      }
      var text := WritePredicate(r.predicates[i]);
      out := out + text;
    }
    assert r.predicates[..|r.predicates|] == r.predicates;
  }
}
