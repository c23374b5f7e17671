/** What the checker's rules come down to for enums, interfaces and reserved names. */
module SchemaLaws {
  import opened Wrappers
  import opened Schema
  import opened SchemaRules

  // Enums

  /** The value that a variant states. */
  predicate Numbered(v: AstVariant) { v.argument.Some? && v.argument.value.NumberAst? && v.argument.value.decimal == 0 }

  /** Variants without a value count on from the last number, or from zero. */
  lemma {:induction false} DefaultsCount(before: seq<AstVariant>, after: seq<AstVariant>)
    requires forall i :: 0 <= i < |after| ==> after[i].argument.None?
    requires before == [] || Numbered(before[|before| - 1])
    ensures NextDefault(before + after) ==
      |after| + if before == [] then 0 else before[|before| - 1].argument.value.digits
  {
    var all := before + after;
    if after == [] {
      assert all == before;
    } else {
      DefaultsCount(before, after[..|after| - 1]);
      assert all[..|all| - 1] == before + after[..|after| - 1];
    }
  }

  /** The value of a variant of an accepted enum: what it states, its name, or the number it counts to. */
  predicate ValueIs(ty: RpType, v: AstVariant, default: int, value: VariantValue) {
    match v.argument
    case Some(StringAst(text)) => ty.String? && value == StringValue(text)
    case Some(NumberAst(digits, _)) => ty.Number? && value == NumberValue(digits)
    case Some(OtherAst) => false
    case None => value == if ty.String? then StringValue(v.name) else NumberValue(default)
  }

  lemma {:induction false} EnumValues(ty: RpType, vs: seq<AstVariant>, i: nat)
    requires IsEnumType(ty) && VariantsOk(ty, vs) && i < |vs|
    ensures VariantModels(ty, vs)[i].ident == vs[i].name
    ensures ValueIs(ty, vs[i], NextDefault(vs[..i]), VariantModels(ty, vs)[i].value)
    ensures ty.Number? ==> InBounds(ty.kind, VariantModels(ty, vs)[i].value.number)
  {
    ValueAt(ty, vs, i);
    assert VariantValues(ty, vs)[i] != None;
  }

  lemma {:induction false} ValueAt(ty: RpType, vs: seq<AstVariant>, i: nat)
    requires i < |vs|
    ensures VariantValues(ty, vs)[i] == VariantValueOf(ty, vs[i], NextDefault(vs[..i]))
  {
    var prefix := vs[..|vs| - 1];
    if i < |prefix| {
      ValueAt(ty, prefix, i);
      assert prefix[..i] == vs[..i];
    }
  }

  /** An enum of numbers without any values counts from zero; it is accepted if its names differ, as long as
      the numbers fit. */
  lemma CountedEnum(kind: NumberKind, vs: seq<AstVariant>)
    requires forall i :: 0 <= i < |vs| ==> vs[i].argument.None?
    requires vs == [] || InBounds(kind, |vs| - 1)
    ensures VariantsOk(RpType.Number(kind), vs) <==> Distinct(VariantNames(vs))
    ensures forall i :: 0 <= i < |vs| ==> VariantModels(RpType.Number(kind), vs)[i].value == NumberValue(i)
  {
    var ty := RpType.Number(kind);
    forall i | 0 <= i < |vs|
      ensures VariantValues(ty, vs)[i] == Some(NumberValue(i))
    {
      ValueAt(ty, vs, i);
      DefaultsCount([], vs[..i]);
      assert [] + vs[..i] == vs[..i];
    }
  }

  function Power(n: nat): nat { if n == 0 then 1 else 2 * Power(n - 1) }

  lemma {:induction false} PowerSum(m: nat, n: nat)
    ensures Power(m + n) == Power(m) * Power(n)
  {
    if m > 0 {
      PowerSum(m - 1, n);
    }
  }

  lemma Powers()
    ensures Power(31) == 0x8000_0000 && Power(53) == 9_007_199_254_740_992
  {
    assert Power(11) == 2048;
    PowerSum(11, 11);
    assert Power(22) == 4_194_304;
    assert Power(9) == 512;
    PowerSum(22, 9);
    PowerSum(31, 22);
  }

  /** Numbers of 32 bits have 31 bits besides the sign, and those of 64 bits only the 53 bits that a
      double holds. */
  lemma Bounds(kind: NumberKind, n: int)
    ensures InBounds(kind, n) <==>
      match kind
      case U32 => 0 <= n < Power(31)
      case U64 => 0 <= n < Power(53)
      case I32 => 0 - Power(31) <= n < Power(31)
      case I64 => 0 - Power(53) < n < Power(53)
  {
    Powers();
    hide Power;
  }

  // Interfaces

  /** Arguments that ask for a strategy. */
  function Arguments(strategy: Strategy): Selection {
    match strategy
    case Untagged => Selection([], map["strategy" := StringAst("untagged")])
    case Tagged(tag) => Selection([], map["strategy" := StringAst("tagged"), "tag" := StringAst(tag)])
  }

  /** Every strategy can be asked for; the default is the tag `type`. */
  lemma EveryStrategy(strategy: Strategy)
    ensures StrategyOf(Some(Arguments(strategy))) == Some(strategy)
    ensures StrategyOf(None) == Some(Tagged("type"))
  {
    assert |"strategy"| == 8 && |"tag"| == 3 && |"untagged"| == 8 && |"tagged"| == 6;
    var info := Arguments(strategy);
    assert info.Value("strategy") == Some(StringAst(if strategy.Tagged? then "tagged" else "untagged"));
  }

  // Reserved names

  /** The names that a declaration reserves. */
  function Reserved(d: AstDecl): set<string> {
    match d
    case TypeAst(_, reserved, _) => reserved
    case InterfaceAst(_, reserved, _, _, _) => reserved
    case _ => {}
  }

  predicate Avoids(fields: seq<Field>, names: set<string>) { forall f :: f in fields ==> f.Name() !in names }

  lemma FieldsAvoid(fields: seq<Field>, limits: Limits)
    requires FieldsOk(fields, limits)
    ensures Avoids(fields, limits.reserved) && (limits.tag.Some? ==> Avoids(fields, {limits.tag.value}))
  {
    forall f | f in fields ensures FieldFits(f, limits) {
      var i :| 0 <= i < |fields| && fields[i] == f;
      assert FieldFits(fields[i], limits);
    }
  }

  /** No field of an accepted type, or of a sub-type of an accepted interface, has a reserved name. */
  lemma ReservedAvoided(scope: Scope, d: AstDecl)
    requires DeclOk(scope, d)
    ensures d.TypeAst? ==> Avoids(DeclModel(scope, d).fields, Reserved(d))
    ensures d.InterfaceAst? ==> forall i :: 0 <= i < |d.subTypes| ==>
      && Avoids(DeclModel(scope, d).subTypes[i].fields, Reserved(d) + d.subTypes[i].reserved)
      && (StrategyOf(d.info) == Some(Tagged(DEFAULT_TAG)) ==>
            Avoids(DeclModel(scope, d).subTypes[i].fields, {DEFAULT_TAG}))
  {
    if d.TypeAst? {
      FieldsAvoid(FieldsOf(scope, d.members), Limits({}, {}, None, d.reserved));
    }
    if d.InterfaceAst? {
      forall i | 0 <= i < |d.subTypes|
        ensures Avoids(DeclModel(scope, d).subTypes[i].fields, Reserved(d) + d.subTypes[i].reserved)
        ensures StrategyOf(d.info) == Some(Tagged(DEFAULT_TAG)) ==>
          Avoids(DeclModel(scope, d).subTypes[i].fields, {DEFAULT_TAG})
      {
        assert DeclModel(scope, d).subTypes[i] == SubTypeModel(scope, d.subTypes[i]);
        var base, strategy := FieldsOf(scope, d.members), StrategyOf(d.info).value;
        assert SubTypeOk(scope, d.subTypes[i], base, strategy, d.reserved);
        FieldsAvoid(
          FieldsOf(scope, d.subTypes[i].members), SubTypeLimits(base, strategy, d.reserved + d.subTypes[i].reserved));
        hide FieldsOk, FieldsOf, Avoids;
      }
    }
  }
}
