/** What it means for a syntax tree to be a legal schema, stated declaratively, and the schema it
    denotes. `Checker` is the imperative code of lib/trans/into_model.rs, proved to accept exactly
    these trees and to build exactly these schemas. */
module SchemaRules {
  import opened Wrappers
  import opened Schema

  datatype Scope = Scope(
    keywords: map<string, string>,
    fieldNaming: Option<string -> string>,
    fieldIdentNaming: Option<string -> string>
  )

  function SafeIdent(scope: Scope, ident: string): Option<string> {
    match scope.fieldIdentNaming
    case Some(naming) =>
      var converted := naming(ident);
      if converted in scope.keywords then Some(scope.keywords[converted])
      else if converted != ident then Some(converted)
      else None
    case None =>
      if ident in scope.keywords then Some(scope.keywords[ident]) else None
  }

  /** The wire alias: an explicit one, else the file-wide convention; dropped if it is the ident. */
  function FieldAlias(scope: Scope, ident: string, alias: Option<string>): Option<string> {
    var name := match alias
      case Some(_) => alias
      case None => if scope.fieldNaming.Some? then Some(scope.fieldNaming.value(ident)) else None;
    if name == Some(ident) then None else name
  }

  function FieldModel(scope: Scope, f: AstField): Field
    requires f.ty.Some?
  {
    Field(f.required, SafeIdent(scope, f.name), f.name, f.ty.value, FieldAlias(scope, f.name, f.alias))
  }

  // Members

  predicate Distinct<T(==)>(s: seq<T>) {
    forall i, j :: 0 <= i < j < |s| ==> s[i] != s[j]
  }

  /** What one field list must avoid. */
  datatype Limits = Limits(idents: set<string>, names: set<string>, tag: Option<string>, reserved: set<string>)

  predicate FieldFits(f: Field, limits: Limits) {
    && f.ident !in limits.idents
    && f.Name() !in limits.names
    && Some(f.Name()) != limits.tag
    && f.Name() !in limits.reserved
  }

  predicate FieldsOk(fs: seq<Field>, limits: Limits) {
    && (forall i :: 0 <= i < |fs| ==> FieldFits(fs[i], limits))
    && (forall i, j :: 0 <= i < j < |fs| ==> fs[i].ident != fs[j].ident)
    && (forall i, j :: 0 <= i < j < |fs| ==> fs[i].Name() != fs[j].Name())
  }

  function Idents(fs: seq<Field>): set<string> { set f <- fs :: f.ident }

  function Names(fs: seq<Field>): set<string> { set f <- fs :: f.Name() }

  function FieldsOf(scope: Scope, ms: seq<AstMember>): seq<Field> {
    if ms == [] then []
    else
      var last := ms[|ms| - 1];
      FieldsOf(scope, ms[..|ms| - 1]) +
      (if last.FieldMember? && last.field.ty.Some? then [FieldModel(scope, last.field)] else [])
  }

  function InnerIdents(ms: seq<AstMember>): seq<string> {
    if ms == [] then []
    else
      var last := ms[|ms| - 1];
      InnerIdents(ms[..|ms| - 1]) + (if last.InnerDecl? then [last.decl.name] else [])
  }

  predicate MembersOk(scope: Scope, ms: seq<AstMember>, limits: Limits)
    decreases ms, 1
  {
    && MembersFine(scope, ms)
    && FieldsOk(FieldsOf(scope, ms), limits)
    && Distinct(InnerIdents(ms))
  }

  predicate MembersFine(scope: Scope, ms: seq<AstMember>)
    decreases ms, 0
  {
    ms == [] || (MembersFine(scope, ms[..|ms| - 1]) && MemberFine(scope, ms[|ms| - 1]))
  }

  predicate MemberFine(scope: Scope, m: AstMember)
    decreases m, 4
  {
    match m
    case FieldMember(f) => f.ty.Some? && f.endl
    case CodeMember(known) => known
    case InnerDecl(d) => DeclOk(scope, d)
  }

  function DeclsOf(scope: Scope, ms: seq<AstMember>): seq<Decl>
    decreases ms, 0
  {
    if ms == [] then [] else DeclsOf(scope, ms[..|ms| - 1]) + InnerModel(scope, ms[|ms| - 1])
  }

  function InnerModel(scope: Scope, m: AstMember): seq<Decl>
    decreases m, 5
  {
    if m.InnerDecl? then [DeclModel(scope, m.decl)] else []
  }

  // Sub-types

  function TagOf(strategy: Strategy): Option<string> {
    if strategy.Tagged? then Some(strategy.tag) else None
  }

  /** The strategy that `type_info` arguments ask for; without a tag, or without a strategy, it is tagged
      with the default tag. */
  function Asked(info: Selection): Option<Strategy> {
    match info.Value("strategy")
    case None => Some(Tagged(DEFAULT_TAG))
    case Some(StringAst(text)) =>
      if text == "untagged" then Some(Untagged)
      else if text != "tagged" then None
      else
        (match info.Value("tag")
         case None => Some(Tagged(DEFAULT_TAG))
         case Some(StringAst(tag)) => Some(Tagged(tag))
         case Some(_) => None)
    case Some(_) => None
  }

  /** The arguments that mean something: a tag only does beside the tagged strategy. */
  function Meant(info: Selection): set<string> {
    {"strategy"} + if info.Value("strategy") == Some(StringAst("tagged")) then {"tag"} else {}
  }

  /** The strategy of an interface. Arguments without a meaning are refused. */
  function StrategyOf(info: Option<Selection>): Option<Strategy> {
    match info
    case None => Some(Tagged(DEFAULT_TAG))
    case Some(selection) =>
      if selection.words == [] && selection.values.Keys <= Meant(selection) then Asked(selection) else None
  }

  function SubTypeLimits(base: seq<Field>, strategy: Strategy, reserved: set<string>): Limits {
    Limits(Idents(base), Names(base), TagOf(strategy), reserved)
  }

  predicate SubTypeOk(scope: Scope, s: AstSubType, base: seq<Field>, strategy: Strategy, reserved: set<string>)
    decreases s, 2
  {
    && MembersOk(scope, s.members, SubTypeLimits(base, strategy, reserved + s.reserved))
    && (s.alias.Some? ==> s.alias.value.StringAst?)
  }

  function SubTypeModel(scope: Scope, s: AstSubType): SubType
    decreases s, 2
  {
    SubType(
      s.name,
      FieldsOf(scope, s.members),
      DeclsOf(scope, s.members),
      match s.alias case Some(StringAst(text)) => Some(text) case _ => None
    )
  }

  predicate SubTypeNamesOk(subs: seq<SubType>) {
    && (forall i, j :: 0 <= i < j < |subs| ==> subs[i].ident != subs[j].ident)
    && (forall i, j :: 0 <= i < j < |subs| ==> subs[i].Name() != subs[j].Name())
  }

  /** No optional field of a sub-type is required by a sub-type with another required set. */
  predicate OptionalsApart(subs: seq<SubType>) {
    forall a :: 0 <= a < |subs| ==> Apart(subs, a, |subs|)
  }

  /** Sub-type `a`'s optional fields against the required sets of the first `n` sub-types. */
  predicate Apart(subs: seq<SubType>, a: nat, n: nat)
    requires a < |subs| && n <= |subs|
  {
    forall b :: 0 <= b < n && subs[a].Required() != subs[b].Required() ==>
      OptionalsAvoid(subs[a], subs[b].Required())
  }

  predicate OptionalsAvoid(s: SubType, key: set<string>) {
    forall f :: f in s.fields && !f.required ==> f.Name() !in key
  }

  /** No required set is contained in a later one; in particular they are all different. */
  predicate RequiredOrdered(subs: seq<SubType>) {
    forall a :: 0 <= a < |subs| ==> !Shadows(subs, a, |subs|)
  }

  /** Whether the required set of sub-type `a` is contained in one of those after it, before `n`. */
  predicate Shadows(subs: seq<SubType>, a: nat, n: nat)
    requires a < |subs| && n <= |subs|
  {
    exists b :: a < b < n && subs[a].Required() <= subs[b].Required()
  }

  predicate RequiredDistinct(subs: seq<SubType>) {
    forall i, j :: 0 <= i < j < |subs| ==> subs[i].Required() != subs[j].Required()
  }

  predicate InterfaceOk(fields: seq<Field>, subs: seq<SubType>, strategy: Strategy) {
    && SubTypeNamesOk(subs)
    && (strategy.Untagged? ==> RequiredDistinct(subs) && OptionalsApart(subs) && RequiredOrdered(subs))
  }

  // Enums

  predicate InBounds(kind: NumberKind, n: int) {
    match kind
    case U32 => 0 <= n <= 0x7FFF_FFFF
    case U64 => 0 <= n <= 9_007_199_254_740_991
    case I32 => -0x8000_0000 <= n <= 0x7FFF_FFFF
    case I64 => -9_007_199_254_740_991 <= n <= 9_007_199_254_740_991
  }

  predicate IsEnumType(ty: RpType) { ty.String? || ty.Number? }

  /** The default-value generator: the number the next variant without a value receives. */
  function NextDefault(vs: seq<AstVariant>): int {
    if vs == [] then 0
    else
      var last := vs[|vs| - 1];
      StateAfter(last, NextDefault(vs[..|vs| - 1]))
  }

  function StateAfter(v: AstVariant, state: int): int {
    match v.argument
    case None => state + 1
    case Some(NumberAst(digits, 0)) => digits
    case Some(_) => state
  }

  function VariantValueOf(ty: RpType, v: AstVariant, default: int): Option<VariantValue> {
    match ty
    case String =>
      (match v.argument
       case None => Some(StringValue(v.name))
       case Some(StringAst(text)) => Some(StringValue(text))
       case Some(_) => None)
    case Number(kind) =>
      (match v.argument
       case None => if InBounds(kind, default) then Some(NumberValue(default)) else None
       case Some(NumberAst(digits, 0)) => if InBounds(kind, digits) then Some(NumberValue(digits)) else None
       case Some(_) => None)
    case _ => None
  }

  function VariantValues(ty: RpType, vs: seq<AstVariant>): (values: seq<Option<VariantValue>>)
    ensures |values| == |vs|
  {
    if vs == [] then []
    else
      var prefix := vs[..|vs| - 1];
      VariantValues(ty, prefix) + [VariantValueOf(ty, vs[|vs| - 1], NextDefault(prefix))]
  }

  function VariantNames(vs: seq<AstVariant>): seq<string> {
    seq(|vs|, i requires 0 <= i < |vs| => vs[i].name)
  }

  predicate VariantsOk(ty: RpType, vs: seq<AstVariant>) {
    && None !in VariantValues(ty, vs)
    && Distinct(VariantNames(vs))
    && Distinct(VariantValues(ty, vs))
  }

  function VariantModels(ty: RpType, vs: seq<AstVariant>): seq<Variant> {
    var values := VariantValues(ty, vs);
    seq(|vs|, i requires 0 <= i < |vs| => Variant(vs[i].name, values[i].GetOr(NumberValue(0))))
  }

  // Declarations

  predicate DeclOk(scope: Scope, d: AstDecl)
    decreases d, 3
  {
    match d
    case TypeAst(_, reserved, ms) => MembersOk(scope, ms, Limits({}, {}, None, reserved))
    case TupleAst(_, ms) => MembersOk(scope, ms, Limits({}, {}, None, {}))
    case InterfaceAst(_, reserved, info, ms, subs) =>
      && StrategyOf(info).Some?
      && var strategy := StrategyOf(info).value;
      && MembersOk(scope, ms, Limits({}, {}, TagOf(strategy), {}))
      && var base := FieldsOf(scope, ms);
      && (forall i :: 0 <= i < |subs| ==> SubTypeOk(scope, subs[i], base, strategy, reserved))
      && InterfaceOk(base, SubTypeModels(scope, subs), strategy)
    case EnumAst(_, ty, vs) => IsEnumType(ty) && VariantsOk(ty, vs)
  }

  function SubTypeModels(scope: Scope, subs: seq<AstSubType>): seq<SubType>
    decreases subs, 3
  {
    seq(|subs|, i requires 0 <= i < |subs| => SubTypeModel(scope, subs[i]))
  }

  /** The schema a tree denotes. Only trees with `DeclOk` reach it; elsewhere the value is arbitrary. */
  function DeclModel(scope: Scope, d: AstDecl): Decl
    decreases d, 4
  {
    match d
    case TypeAst(name, _, ms) => TypeDecl(name, FieldsOf(scope, ms), DeclsOf(scope, ms))
    case TupleAst(name, ms) => TupleDecl(name, FieldsOf(scope, ms), DeclsOf(scope, ms))
    case InterfaceAst(name, _, info, ms, subs) =>
      InterfaceDecl(
        name, FieldsOf(scope, ms), DeclsOf(scope, ms), SubTypeModels(scope, subs),
        StrategyOf(info).GetOr(Tagged(DEFAULT_TAG))
      )
    case EnumAst(name, ty, vs) => EnumDecl(name, VariantModels(ty, vs))
  }
}
