/** Which documents are values of a schema's types. */
module Conformance {
  import opened Wrappers
  import opened Inference
  import Schema
  import Registry

  /** Declarations with their full paths. */
  type Declarations = seq<Registry.Entry>

  /** What may be a key of an object. */
  predicate TextType(ty: Schema.RpType) { ty.String? || ty.DateTime? || ty.Bytes? || ty.Any? }

  /** What is known of a number is its kind, and 32-bit numbers are never derived. */
  predicate InRange(kind: Schema.NumberKind, n: NumberKind) {
    match kind
    case U64 => n.Unsigned? || n.Wide?
    case I64 => n.Unsigned? || n.Signed?
    case U32 => n.Unsigned?
    case I32 => n.Unsigned? || n.Signed?
  }

  /** `j` is a value of `ty`. */
  ghost predicate Conforms(decls: Declarations, ty: Schema.RpType, j: Json)
    decreases j, 3
  {
    match ty
    case Double => j.JNum?
    case Float => j.JNum? && !j.kind.DoublePrecision?
    case Number(kind) => j.JNum? && InRange(kind, j.kind)
    case Boolean => j.JBool?
    case String => j.JStr?
    case DateTime => j.JStr? && j.datetime
    case Bytes => j.JStr?
    case Any => true
    case Array(inner) => j.JArr? && forall i :: 0 <= i < |j.elems| ==> Conforms(decls, inner, j.elems[i])
    case Map(key, value) =>
      j.JObj? && forall i :: 0 <= i < |j.entries| ==> TextType(key) && Conforms(decls, value, j.entries[i].1)
    case Name(path) => exists e :: e in decls && e.0 == path && DeclConforms(decls, e.1, j)
  }

  /** `j` is a value of the declaration. */
  ghost predicate DeclConforms(decls: Declarations, d: Schema.Decl, j: Json)
    decreases j, 2
  {
    match d
    case TypeDecl(_, fields, _) => FieldsConform(decls, fields, j)
    case TupleDecl(_, fields, _) =>
      j.JArr? && |j.elems| == |fields| && forall i :: 0 <= i < |fields| ==> FieldHolds(decls, fields[i], j, j.elems[i])
    case InterfaceDecl(_, fields, _, subs, strategy) =>
      exists i :: 0 <= i < |subs| && FieldsConform(decls, fields + subs[i].fields, j) &&
        (strategy.Tagged? ==> HasTag(j, strategy.tag, subs[i].Name()))
    case EnumDecl(_, vs) =>
      exists i :: 0 <= i < |vs| &&
        match vs[i].value
        case StringValue(text) => j.JStr? && j.text == text
        case NumberValue(_) => j.JNum? && (j.kind.Unsigned? || j.kind.Signed?)
  }

  predicate HasTag(j: Json, tag: string, name: string) {
    j.JObj? && exists k :: 0 <= k < |j.entries| && IsTag(j.entries[k], tag, name)
  }

  predicate IsTag(entry: (string, Json), tag: string, name: string) {
    entry.0 == tag && entry.1.JStr? && entry.1.text == name
  }

  /** Required fields are there, and whatever is there under the name of a field is a value of it. Entries
      with other names do not matter. */
  ghost predicate FieldsConform(decls: Declarations, fields: seq<Schema.Field>, j: Json)
    decreases j, 1
  {
    && j.JObj?
    && forall i :: 0 <= i < |fields| ==>
         && (fields[i].required ==> HasKey(j, fields[i].Name()))
         && forall k :: 0 <= k < |j.entries| && j.entries[k].0 == fields[i].Name() ==>
              FieldHolds(decls, fields[i], j, j.entries[k].1)
  }

  predicate HasKey(j: Json, key: string)
    requires j.JObj?
  {
    exists k :: 0 <= k < |j.entries| && j.entries[k].0 == key
  }

  /** The field may be `x`, a part of `j`; null stands for absent. */
  ghost predicate FieldHolds(decls: Declarations, f: Schema.Field, j: Json, x: Json)
    requires x < j
    decreases j, 0
  {
    if x.JNull? then !f.required else Conforms(decls, f.ty, x)
  }
}
