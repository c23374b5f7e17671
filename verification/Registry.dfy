/** A file's declarations: checking them (lib/trans/into_model.rs), flattening them with their full
    names, and registering those names (lib/trans/session.rs, lib/core/src/rp_decl.rs). */
module Registry {
  import opened Wrappers
  import opened Schema
  import opened SchemaRules
  import Checker

  /** The schema of a file whose declarations all pass the checker. */
  function FileModel(scope: Scope, asts: seq<AstDecl>): seq<Decl> {
    seq(|asts|, i requires 0 <= i < |asts| => DeclModel(scope, asts[i]))
  }

  method IntoFile(diag: Checker.Diagnostics, scope: Scope, asts: seq<AstDecl>) returns (r: Option<seq<Decl>>)
    modifies diag
    ensures r.Some? <==> !old(diag.HasErrors()) && forall i :: 0 <= i < |asts| ==> DeclOk(scope, asts[i])
    ensures r.Some? ==> r.value == FileModel(scope, asts)
    ensures diag.HasErrors() <==> r.None?
  {
    var decls: seq<Decl> := [];
    for k := 0 to |asts|
      invariant diag.HasErrors() <==>
        (old(diag.HasErrors()) || exists i :: 0 <= i < k && !DeclOk(scope, asts[i]))
      invariant !diag.HasErrors() ==> decls == FileModel(scope, asts)[..k]
    {
      var d := Checker.IntoDecl(diag, scope, asts[k]);
      if d.None? {
        continue;
      }
      decls := decls + [d.value];
    }
    if diag.HasErrors() {
      return None;
    }
    return Some(decls);
  }

  // Flattening

  /** Declarations with where they stand, relative to some enclosing declaration. */
  type Inner = (Path, Decl)

  function Placed(prefix: Path, decls: seq<Decl>): (inner: seq<Inner>)
    ensures |inner| == |decls| && forall k :: 0 <= k < |inner| ==> inner[k].1 == decls[k]
  {
    seq(|decls|, k requires 0 <= k < |decls| => (prefix + [decls[k].ident], decls[k]))
  }

  /** Declarations directly inside `d`; those of an interface's sub-types come last, and the name of
      their sub-type is part of their path. */
  function InnerDecls(d: Decl): (inner: seq<Inner>)
    ensures forall k :: 0 <= k < |inner| ==> inner[k].1 < d
  {
    match d
    case TypeDecl(_, _, decls) => Placed([], decls)
    case TupleDecl(_, _, decls) => Placed([], decls)
    case InterfaceDecl(_, _, decls, subs, _) => Placed([], decls) + SubTypeDecls(subs)
    case EnumDecl(_, _) => []
  }

  /** A declaration stands below one of the sub-types. */
  predicate InSubType(subs: seq<SubType>, inner: Inner) {
    |inner.0| == 2 && inner.0[1] == inner.1.ident && exists i :: 0 <= i < |subs| && subs[i].ident == inner.0[0]
  }

  function SubTypeDecls(subs: seq<SubType>): (inner: seq<Inner>)
    ensures forall k :: 0 <= k < |inner| ==> exists i :: 0 <= i < |subs| && inner[k].1 in subs[i].decls
    ensures forall k :: 0 <= k < |inner| ==> InSubType(subs, inner[k])
  {
    if subs == [] then []
    else
      var last := subs[|subs| - 1];
      SubTypeDecls(subs[..|subs| - 1]) + Placed([last.ident], last.decls)
  }

  type Entry = (Path, Decl)

  /** All declarations with their full paths, outer before inner. */
  function Flatten(path: Path, d: Decl): seq<Entry>
    decreases d, 1
  {
    [(path, d)] + FlattenInner(path, d, |InnerDecls(d)|)
  }

  function FlattenInner(path: Path, d: Decl, n: nat): seq<Entry>
    requires n <= |InnerDecls(d)|
    decreases d, 0, n
  {
    if n == 0 then []
    else
      var (where_, inner) := InnerDecls(d)[n - 1];
      FlattenInner(path, d, n - 1) + Flatten(path + where_, inner)
  }

  function FlattenAll(package: Path, decls: seq<Decl>): seq<Entry> {
    if decls == [] then []
    else
      var last := decls[|decls| - 1];
      FlattenAll(package, decls[..|decls| - 1]) + Flatten(package + [last.ident], last)
  }

  // Registration

  /** The names one declaration registers: its sub-types or variants, then itself. */
  function RegNames(e: Entry): seq<Path> {
    var (path, d) := e;
    (match d
     case InterfaceDecl(_, _, _, subs, _) => seq(|subs|, i requires 0 <= i < |subs| => path + [subs[i].ident])
     case EnumDecl(_, vs) => seq(|vs|, i requires 0 <= i < |vs| => path + [vs[i].ident])
     case TypeDecl(_, _, _) => []
     case TupleDecl(_, _, _) => []) + [path]
  }

  function AllNames(entries: seq<Entry>): seq<Path> {
    if entries == [] then [] else AllNames(entries[..|entries| - 1]) + RegNames(entries[|entries| - 1])
  }

  /** The registry loop: every name is inserted, and one that is already there is an error. */
  method RegisterTypes<T(==)>(diag: Checker.Diagnostics, types: set<T>, names: seq<T>) returns (types': set<T>)
    modifies diag
    ensures diag.HasErrors() <==>
      old(diag.HasErrors()) || !Distinct(names) || exists n :: n in names && n in types
    ensures types' == types + set n <- names
  {
    types' := types;
    for k := 0 to |names|
      invariant types' == types + set n <- names[..k]
      invariant diag.HasErrors() <==>
        (old(diag.HasErrors()) || !Distinct(names[..k]) || exists n :: n in names[..k] && n in types)
    {
      assert names[..k + 1] == names[..k] + [names[k]];
      Checker.DistinctSnoc(names[..k], names[k]);
      if names[k] in types' {
        diag.Err();
      }
      types' := types' + {names[k]};
    }
    assert names[..|names|] == names;
  }
}
