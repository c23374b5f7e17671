/** The compiler's intermediate representation of a schema (lib/core), and the syntax tree it is
    built from (lib/ast). Spans, comments and code bodies are dropped. */
module Schema {
  import opened Wrappers

  /** A fully qualified name: package parts followed by the path inside the package. */
  type Path = seq<string>

  datatype NumberKind = U32 | U64 | I32 | I64

  datatype RpType =
    | Double
    | Float
    | Number(kind: NumberKind)
    | Boolean
    | String
    | DateTime
    | Bytes
    | Any
    | Name(path: Path)
    | Array(inner: RpType)
    | Map(key: RpType, value: RpType)

  datatype Field = Field(
    required: bool,
    safeIdent: Option<string>,
    ident: string,
    ty: RpType,
    fieldAs: Option<string>
  ) {
    /** The name used on the wire. */
    function Name(): string { fieldAs.GetOr(ident) }

    /** The name used in generated code. */
    function Safe(): string { safeIdent.GetOr(ident) }
  }

  datatype Strategy = Tagged(tag: string) | Untagged

  const DEFAULT_TAG := "type"

  datatype SubType = SubType(ident: string, fields: seq<Field>, decls: seq<Decl>, alias: Option<string>) {
    function Name(): string { alias.GetOr(ident) }

    /** Names of the required fields: the discriminating fields of an untagged sub-type. */
    function Required(): (names: set<string>) {
      set f <- fields | f.required :: f.Name()
    }
  }

  datatype VariantValue = StringValue(text: string) | NumberValue(number: int)

  datatype Variant = Variant(ident: string, value: VariantValue)

  datatype Decl =
    | TypeDecl(ident: string, fields: seq<Field>, decls: seq<Decl>)
    | TupleDecl(ident: string, fields: seq<Field>, decls: seq<Decl>)
    | InterfaceDecl(ident: string, fields: seq<Field>, decls: seq<Decl>, subTypes: seq<SubType>, strategy: Strategy)
    | EnumDecl(ident: string, variants: seq<Variant>)

  // Syntax tree

  datatype AstValue = StringAst(text: string) | NumberAst(digits: int, decimal: nat) | OtherAst

  /** `ty` is `None` for the parser's error type and for unsupported types. */
  datatype AstField = AstField(required: bool, name: string, ty: Option<RpType>, alias: Option<string>, endl: bool)

  datatype AstMember =
    | FieldMember(field: AstField)
    | CodeMember(knownContext: bool)
    | InnerDecl(decl: AstDecl)

  /** The arguments of an attribute: bare words and named values. A value is removed when it is taken. */
  datatype Selection = Selection(words: seq<AstValue>, values: map<string, AstValue>) {
    function Value(key: string): Option<AstValue> { if key in values then Some(values[key]) else None }

    function Without(keys: set<string>): Selection { Selection(words, values - keys) }

    /** Nothing is left. */
    predicate Used() { words == [] && values == map[] }
  }

  datatype AstSubType = AstSubType(
    name: string,
    alias: Option<AstValue>,
    reserved: set<string>,
    members: seq<AstMember>
  )

  datatype AstVariant = AstVariant(name: string, argument: Option<AstValue>)

  datatype AstDecl =
    | TypeAst(name: string, reserved: set<string>, members: seq<AstMember>)
    | TupleAst(name: string, members: seq<AstMember>)
    | InterfaceAst(
        name: string,
        reserved: set<string>,
        info: Option<Selection>,
        members: seq<AstMember>,
        subTypes: seq<AstSubType>
      )
    | EnumAst(name: string, ty: RpType, variants: seq<AstVariant>)
}
