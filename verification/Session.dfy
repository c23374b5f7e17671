/** Recursive import over a possibly cyclic repository (lib/trans/session.rs, and the use declarations
    of lib/trans/into_model.rs). */
module Session {
  import opened Wrappers
  import opened Schema
  import opened SchemaRules
  import opened Registry
  import Checker
  import SemverRange
  import SemverVersion

  type Package = seq<string>

  datatype Required = Required(package: Package, range: SemverRange.Range)

  /** Versions are compared without build metadata, so the keys carry none. */
  datatype VersionKey = VersionKey(major: nat, minor: nat, patch: nat, pre: seq<SemverVersion.Identifier>)

  datatype VersionedPackage = VersionedPackage(package: Package, version: Option<VersionKey>)

  /** `required` is `None` for a bad range or a bad package; `alias` for a package without parts. */
  datatype UseDecl = UseDecl(required: Option<Required>, alias: Option<string>, endl: bool)

  datatype File = File(uses: seq<UseDecl>, decls: seq<AstDecl>)

  /** What the resolver finds; `file` is `None` if the source cannot be read or parsed. */
  datatype Resolution = Resolved(version: Option<VersionKey>, file: Option<File>) | Missing | Broken

  type Lookup = map<Required, Option<VersionedPackage>>

  type TypeName = (VersionedPackage, Path)

  // What a repository must look like for its imports to succeed

  function AliasesOf(uses: seq<UseDecl>): seq<string> {
    if uses == [] then []
    else
      var last := uses[|uses| - 1];
      AliasesOf(uses[..|uses| - 1]) + if last.alias.Some? then [last.alias.value] else []
  }

  predicate UseFine(resolver: Required -> Resolution, u: UseDecl) {
    u.endl && u.required.Some? && resolver(u.required.value).Resolved?
  }

  predicate UsesFine(resolver: Required -> Resolution, uses: seq<UseDecl>) {
    && (forall u :: u in uses ==> UseFine(resolver, u))
    && Distinct(AliasesOf(uses))
  }

  function FileNames(scope: Scope, file: File): seq<Path> {
    AllNames(FlattenAll([], FileModel(scope, file.decls)))
  }

  predicate FileFine(resolver: Required -> Resolution, scope: Scope, file: File) {
    UsesFine(resolver, file.uses) && DeclsFine(scope, file) && Distinct(FileNames(scope, file))
  }

  predicate DeclsFine(scope: Scope, file: File) {
    forall i :: 0 <= i < |file.decls| ==> DeclOk(scope, file.decls[i])
  }

  predicate ResolutionFine(resolver: Required -> Resolution, scope: Scope, r: Resolution) {
    match r
    case Resolved(_, file) => file.Some? && FileFine(resolver, scope, file.value)
    case Missing => true
    case Broken => false
  }

  /** A finite set of requirements that contains everything its files use. */
  predicate Closed(resolver: Required -> Resolution, universe: set<Required>) {
    forall r :: r in universe && resolver(r).Resolved? && resolver(r).file.Some? ==>
      UsesWithin(resolver(r).file.value.uses, universe)
  }

  predicate UsesWithin(uses: seq<UseDecl>, universe: set<Required>) {
    forall u :: u in uses && u.required.Some? ==> u.required.value in universe
  }

  predicate AllFine(resolver: Required -> Resolution, scope: Scope, universe: set<Required>) {
    forall r :: r in universe ==> ResolutionFine(resolver, scope, resolver(r))
  }

  // What a session records

  predicate UseIn(lookup: Lookup, u: UseDecl) {
    u.required.Some? ==> u.required.value in lookup && lookup[u.required.value].Some?
  }

  predicate UsesIn(lookup: Lookup, uses: seq<UseDecl>) {
    forall u :: u in uses ==> UseIn(lookup, u)
  }

  /** The alias of `u`, bound to what its requirement resolved to. */
  function WithAlias(prefixes: map<string, VersionedPackage>, u: UseDecl, lookup: Lookup):
    map<string, VersionedPackage>
    requires UseIn(lookup, u)
  {
    if u.alias.Some? && u.required.Some? then prefixes[u.alias.value := lookup[u.required.value].value] else prefixes
  }

  function Prefixes(uses: seq<UseDecl>, lookup: Lookup): map<string, VersionedPackage>
    requires UsesIn(lookup, uses)
  {
    if uses == [] then map[] else WithAlias(Prefixes(uses[..|uses| - 1], lookup), uses[|uses| - 1], lookup)
  }

  function InPackage(package: VersionedPackage, names: seq<Path>): seq<TypeName> {
    seq(|names|, i requires 0 <= i < |names| => (package, names[i]))
  }

  lemma InPackageNames(package: VersionedPackage, names: seq<Path>)
    ensures Distinct(InPackage(package, names)) <==> Distinct(names)
    ensures forall p, n :: (p, n) in InPackage(package, names) <==> p == package && n in names
  {
    var tagged := InPackage(package, names);
    assert forall i :: 0 <= i < |names| ==> tagged[i] == (package, names[i]);
    assert forall i, j :: 0 <= i < j < |names| ==> (tagged[i] == tagged[j] <==> names[i] == names[j]);
    forall n | n in names ensures (package, n) in tagged {
      var i :| 0 <= i < |names| && names[i] == n;
      assert tagged[i] == (package, n);
    }
  }

  predicate Includes<K, V(==)>(larger: map<K, V>, smaller: map<K, V>) {
    smaller.Keys <= larger.Keys && forall k :: k in smaller ==> larger[k] == smaller[k]
  }

  /** The file that the resolver has for `r` uses `r'`. */
  predicate RequiredBy(resolver: Required -> Resolution, r: Required, r': Required) {
    resolver(r).Resolved? && resolver(r).file.Some? && UsedBy(resolver(r).file.value, r')
  }

  predicate UsedBy(file: File, r: Required) { exists u :: u in file.uses && u.required == Some(r) }

  /** Every file passed the checker. */
  predicate FilesChecked(
    resolver: Required -> Resolution, scope: Scope, files: map<VersionedPackage, seq<Decl>>,
    sources: map<VersionedPackage, File>
  ) {
    && files.Keys == sources.Keys
    && (forall p :: p in files ==>
          FileFine(resolver, scope, sources[p]) && files[p] == FileModel(scope, sources[p].decls))
  }

  /** What is recorded is what the resolver found, and it is loaded or being loaded. */
  predicate Recorded(resolver: Required -> Resolution, lookup: Lookup, done: set<VersionedPackage>) {
    forall r :: r in lookup ==> RecordedAs(resolver, r, lookup[r], done)
  }

  function Found(resolver: Required -> Resolution, r: Required): Option<VersionedPackage> {
    if resolver(r).Resolved? then Some(VersionedPackage(r.package, resolver(r).version)) else None
  }

  predicate RecordedAs(
    resolver: Required -> Resolution, r: Required, found: Option<VersionedPackage>, done: set<VersionedPackage>
  ) {
    !resolver(r).Broken? && found == Found(resolver, r) && (found.Some? ==> found.value in done)
  }

  /** The registered types are the types of the loaded files. */
  ghost predicate TypesRegistered(scope: Scope, types: set<TypeName>, sources: map<VersionedPackage, File>) {
    forall p, n :: (p, n) in types <==> p in sources && n in FileNames(scope, sources[p])
  }

  predicate AllUsesIn(lookup: Lookup, sources: map<VersionedPackage, File>) {
    forall p :: p in sources ==> UsesIn(lookup, sources[p].uses)
  }

  /** Where a stored file comes from: it was given as a source, or the resolver found it for a requirement
      that was looked up. */
  predicate Origin(
    resolver: Required -> Resolution, lookup: Lookup, given: map<VersionedPackage, File>, p: VersionedPackage,
    file: File
  ) {
    (p in given && given[p] == file) || exists r :: r in lookup && FoundAt(resolver, r, p, file)
  }

  predicate FoundAt(resolver: Required -> Resolution, r: Required, p: VersionedPackage, file: File) {
    Found(resolver, r) == Some(p) && resolver(r).file == Some(file)
  }

  predicate Sourced(
    resolver: Required -> Resolution, lookup: Lookup, given: map<VersionedPackage, File>,
    sources: map<VersionedPackage, File>
  ) {
    forall p :: p in sources ==> Origin(resolver, lookup, given, p, sources[p])
  }

  lemma OriginKept(
    resolver: Required -> Resolution, lookup: Lookup, lookup': Lookup, given: map<VersionedPackage, File>,
    given': map<VersionedPackage, File>, p: VersionedPackage, file: File
  )
    requires Origin(resolver, lookup, given, p, file) && lookup.Keys <= lookup'.Keys && Includes(given', given)
    ensures Origin(resolver, lookup', given', p, file)
  {
    hide FoundAt;
  }

  lemma OriginFound(
    resolver: Required -> Resolution, lookup: Lookup, given: map<VersionedPackage, File>, r: Required, file: File
  )
    requires r in lookup && resolver(r).Resolved? && resolver(r).file == Some(file)
    ensures Origin(resolver, lookup, given, VersionedPackage(r.package, resolver(r).version), file)
  {
    assert FoundAt(resolver, r, VersionedPackage(r.package, resolver(r).version), file);
  }

  lemma SourcedKept(
    resolver: Required -> Resolution, lookup: Lookup, lookup': Lookup, given: map<VersionedPackage, File>,
    given': map<VersionedPackage, File>, sources: map<VersionedPackage, File>
  )
    requires Sourced(resolver, lookup, given, sources) && lookup.Keys <= lookup'.Keys && Includes(given', given)
    ensures Sourced(resolver, lookup', given', sources)
  {
    forall p | p in sources ensures Origin(resolver, lookup', given', p, sources[p]) {
      OriginKept(resolver, lookup, lookup', given, given', p, sources[p]);
    }
  }

  /** The session invariant, over the session's fields. */
  ghost predicate Consistent(
    resolver: Required -> Resolution, scope: Scope, lookup: Lookup, files: map<VersionedPackage, seq<Decl>>,
    types: set<TypeName>, sources: map<VersionedPackage, File>, stack: set<VersionedPackage>
  ) {
    && FilesChecked(resolver, scope, files, sources)
    && Recorded(resolver, lookup, files.Keys + stack)
    && AllUsesIn(lookup, sources)
    && TypesRegistered(scope, types, sources)
  }

  lemma FilesCheckedAdd(
    resolver: Required -> Resolution, scope: Scope, files: map<VersionedPackage, seq<Decl>>,
    sources: map<VersionedPackage, File>, package: VersionedPackage, decls: seq<Decl>, file: File
  )
    requires FilesChecked(resolver, scope, files, sources)
    requires FileFine(resolver, scope, file) && decls == FileModel(scope, file.decls)
    ensures FilesChecked(resolver, scope, files[package := decls], sources[package := file])
  {
  }

  lemma AllUsesInAdd(lookup: Lookup, sources: map<VersionedPackage, File>, package: VersionedPackage, file: File)
    requires AllUsesIn(lookup, sources) && UsesIn(lookup, file.uses)
    ensures AllUsesIn(lookup, sources[package := file])
  {
  }

  /** Recording a resolved requirement puts its package on the stack. */
  lemma RecordPackage(
    resolver: Required -> Resolution, scope: Scope, lookup: Lookup, files: map<VersionedPackage, seq<Decl>>,
    types: set<TypeName>, sources: map<VersionedPackage, File>, stack: set<VersionedPackage>, r: Required
  )
    requires Consistent(resolver, scope, lookup, files, types, sources, stack)
    requires r !in lookup && !resolver(r).Broken?
    ensures Consistent(
      resolver, scope, lookup[r := Found(resolver, r)], files, types, sources,
      if resolver(r).Resolved? then stack + {Found(resolver, r).value} else stack)
  {
  }

  /** Storing a checked file takes its package off the stack. */
  lemma StorePackage(
    resolver: Required -> Resolution, scope: Scope, lookup: Lookup, files: map<VersionedPackage, seq<Decl>>,
    types: set<TypeName>, sources: map<VersionedPackage, File>, stack: set<VersionedPackage>,
    package: VersionedPackage, decls: seq<Decl>, file: File, types': set<TypeName>
  )
    requires Consistent(resolver, scope, lookup, files, types, sources, stack + {package})
    requires FileFine(resolver, scope, file) && decls == FileModel(scope, file.decls)
    requires UsesIn(lookup, file.uses) && TypesRegistered(scope, types', sources[package := file])
    ensures Consistent(
      resolver, scope, lookup, files[package := decls], types', sources[package := file], stack)
  {
    FilesCheckedAdd(resolver, scope, files, sources, package, decls, file);
    AllUsesInAdd(lookup, sources, package, file);
    assert files[package := decls].Keys + stack == files.Keys + (stack + {package});
  }

  lemma SourcedAdd(
    resolver: Required -> Resolution, lookup: Lookup, given: map<VersionedPackage, File>,
    sources: map<VersionedPackage, File>, p: VersionedPackage, file: File
  )
    requires Sourced(resolver, lookup, given, sources) && Origin(resolver, lookup, given, p, file)
    ensures Sourced(resolver, lookup, given, sources[p := file])
  {
    hide Origin;
  }

  /** A package that is stored need not be on the stack. */
  lemma StackKept(
    resolver: Required -> Resolution, scope: Scope, lookup: Lookup, files: map<VersionedPackage, seq<Decl>>,
    types: set<TypeName>, sources: map<VersionedPackage, File>, stack: set<VersionedPackage>, p: VersionedPackage
  )
    requires Consistent(resolver, scope, lookup, files, types, sources, stack + {p})
    ensures p in files <==> p in sources
    ensures p in files ==> Consistent(resolver, scope, lookup, files, types, sources, stack)
  {
    hide FileFine, FileModel, AllUsesIn, TypesRegistered, RecordedAs;
    if p in files {
      assert files.Keys + stack == files.Keys + (stack + {p});
    }
  }

  lemma StackGrows(
    resolver: Required -> Resolution, scope: Scope, lookup: Lookup, files: map<VersionedPackage, seq<Decl>>,
    types: set<TypeName>, sources: map<VersionedPackage, File>, stack: set<VersionedPackage>, p: VersionedPackage
  )
    requires Consistent(resolver, scope, lookup, files, types, sources, stack)
    ensures Consistent(resolver, scope, lookup, files, types, sources, stack + {p})
  {
    hide FilesChecked, AllUsesIn, TypesRegistered;
  }

  lemma LookedUpBefore(
    resolver: Required -> Resolution, scope: Scope, lookup: Lookup, files: map<VersionedPackage, seq<Decl>>,
    types: set<TypeName>, sources: map<VersionedPackage, File>, stack: set<VersionedPackage>, r: Required
  )
    requires Consistent(resolver, scope, lookup, files, types, sources, stack) && r in lookup
    ensures lookup[r] == Found(resolver, r) && !resolver(r).Broken?
    ensures lookup[r].Some? ==> lookup[r].value in files.Keys + stack
  {
    hide FilesChecked, AllUsesIn, TypesRegistered;
  }

  lemma RegisterPackage(
    scope: Scope, types: set<TypeName>, sources: map<VersionedPackage, File>, package: VersionedPackage, file: File
  )
    requires TypesRegistered(scope, types, sources) && package !in sources
    ensures var names := InPackage(package, FileNames(scope, file));
      && (forall n :: n in names ==> n !in types)
      && (Distinct(names) <==> Distinct(FileNames(scope, file)))
      && TypesRegistered(scope, types + (set n <- names), sources[package := file])
  {
    InPackageNames(package, FileNames(scope, file));
  }

  class Session {
    const resolver: Required -> Resolution
    const scope: Scope
    /** Requirements that have been looked up, and what they resolved to. */
    var lookup: Lookup
    /** Packages imported as sources. */
    var loaded: set<VersionedPackage>
    var files: map<VersionedPackage, seq<Decl>>
    var types: set<TypeName>
    /** The syntax that each entry of `files` was built from. */
    ghost var sources: map<VersionedPackage, File>
    /** The files that were imported as sources. */
    ghost var given: map<VersionedPackage, File>

    /** The session invariant; `stack` holds the packages whose import is in progress. */
    ghost predicate Valid(stack: set<VersionedPackage>)
      reads this
    {
      && Consistent(resolver, scope, lookup, files, types, sources, stack)
      && Sourced(resolver, lookup, given, sources)
      && given.Keys <= loaded
    }

    constructor (resolver: Required -> Resolution, scope: Scope)
      ensures Valid({}) && this.resolver == resolver && this.scope == scope
      ensures lookup == map[] && files == map[] && loaded == {} && given == map[]
    {
      this.resolver := resolver;
      this.scope := scope;
      lookup, loaded, files, types, sources, given := map[], {}, map[], {}, map[], map[];
    }

    twostate predicate Grows()
      reads this
    {
      && Includes(lookup, old(lookup)) && Includes(files, old(files)) && Includes(sources, old(sources))
      && loaded == old(loaded) && given == old(given)
    }

    /** Resolves a requirement and loads it with everything it uses, unless it was looked up before. */
    method Import(required: Required, ghost universe: set<Required>, ghost stack: set<VersionedPackage>)
      returns (r: Result<Option<VersionedPackage>, ()>)
      requires Valid(stack) && Closed(resolver, universe) && required in universe && lookup.Keys <= universe
      modifies this
      ensures r.Success? ==> Valid(stack) && Grows() && lookup.Keys <= universe
      ensures r.Success? ==> required in lookup && lookup[required] == r.value == Found(resolver, required)
      ensures r.Success? ==> !resolver(required).Broken?
      ensures AllFine(resolver, scope, universe) ==> r.Success?
      decreases universe - lookup.Keys, 0
    {
      hide Consistent, Sourced, Origin, FileModel, FileNames, UsesFine, UsesIn, DeclsFine, Distinct;
      if required in lookup {
        LookedUpBefore(resolver, scope, lookup, files, types, sources, stack, required);
        return Success(lookup[required]);
      }
      if resolver(required).Broken? {
        return Failure(());
      }
      RecordPackage(resolver, scope, lookup, files, types, sources, stack, required);
      if resolver(required).Missing? {
        SourcedKept(resolver, lookup, lookup[required := None], given, given, sources);
        lookup := lookup[required := None];
        return Success(None);
      }
      SourcedKept(resolver, lookup, lookup[required := Found(resolver, required)], given, given, sources);
      var Resolved(version, file) := resolver(required);
      var package := VersionedPackage(required.package, version);
      lookup := lookup[required := Some(package)];
      assert required in universe - old(lookup.Keys) && universe - lookup.Keys < universe - old(lookup.Keys);
      var diag := new Checker.Diagnostics();
      var decls := LoadFile(diag, file, universe, stack + {package});
      if decls.None? {
        return Failure(());
      }
      OriginFound(resolver, lookup, given, required, file.value);
      var ok := ProcessFile(diag, package, decls.value, file.value, stack);
      if !ok {
        return Failure(());
      }
      return Success(Some(package));
    }

    /** Checks a file, importing what it uses first. */
    method LoadFile(
      diag: Checker.Diagnostics, file: Option<File>, ghost universe: set<Required>, ghost stack: set<VersionedPackage>
    )
      returns (r: Option<seq<Decl>>)
      requires Valid(stack) && Closed(resolver, universe) && lookup.Keys <= universe
      requires file.Some? ==> UsesWithin(file.value.uses, universe)
      requires !diag.HasErrors()
      modifies this, diag
      ensures diag.HasErrors() <==> r.None?
      ensures r.Some? ==> Valid(stack) && Grows() && lookup.Keys <= universe
      ensures r.Some? ==>
        && file.Some?
        && UsesFine(resolver, file.value.uses) && UsesIn(lookup, file.value.uses)
        && DeclsFine(scope, file.value)
        && r.value == FileModel(scope, file.value.decls)
      ensures AllFine(resolver, scope, universe) && file.Some? && FileFine(resolver, scope, file.value) ==> r.Some?
      decreases universe - lookup.Keys, 3
    {
      if file.None? {
        diag.Err();
        return None;
      }
      var prefixes := IntoUses(diag, file.value.uses, universe, stack);
      if prefixes.None? {
        return None;
      }
      r := IntoFile(diag, scope, file.value.decls);
    }

    /** One use declaration: it is imported, and its alias must be new; `None` if the import fails. */
    method IntoUse(
      diag: Checker.Diagnostics, u: UseDecl, prefixes: map<string, VersionedPackage>, ghost universe: set<Required>,
      ghost stack: set<VersionedPackage>
    )
      returns (r: Option<map<string, VersionedPackage>>)
      requires Valid(stack) && Closed(resolver, universe) && lookup.Keys <= universe
      requires u.required.Some? ==> u.required.value in universe
      modifies this, diag
      ensures r.Some? ==> Valid(stack) && Grows() && lookup.Keys <= universe
      ensures r.Some? ==>
        (diag.HasErrors() <==>
         old(diag.HasErrors()) || !UseFine(resolver, u) || (u.alias.Some? && u.alias.value in prefixes))
      ensures r.Some? && !diag.HasErrors() ==> UseIn(lookup, u) && r.value == WithAlias(prefixes, u, lookup)
      ensures r.None? ==> !AllFine(resolver, scope, universe) && diag.HasErrors()
      decreases universe - lookup.Keys, 1
    {
      hide Consistent, Sourced;
      if !u.endl {
        diag.Err();
      }
      if u.required.None? {
        diag.Err();
        return Some(prefixes);
      }
      var imported := Import(u.required.value, universe, stack);
      if imported.Failure? {
        diag.Err();
        return None;
      }
      if imported.value.None? {
        diag.Err();
        return Some(prefixes);
      }
      if u.alias.None? {
        return Some(prefixes);
      }
      if u.alias.value in prefixes {
        diag.Err();
        return Some(prefixes);
      }
      return Some(prefixes[u.alias.value := imported.value.value]);
    }

    /** The use declarations of a file; aliases end up bound to what their uses resolved to. */
    method IntoUses(
      diag: Checker.Diagnostics, uses: seq<UseDecl>, ghost universe: set<Required>, ghost stack: set<VersionedPackage>
    )
      returns (r: Option<map<string, VersionedPackage>>)
      requires Valid(stack) && Closed(resolver, universe) && lookup.Keys <= universe
      requires UsesWithin(uses, universe) && !diag.HasErrors()
      modifies this, diag
      ensures diag.HasErrors() <==> r.None?
      ensures r.Some? ==> Valid(stack) && Grows() && lookup.Keys <= universe
      ensures r.Some? ==> UsesFine(resolver, uses) && UsesIn(lookup, uses)
      ensures r.Some? ==> r.value == Prefixes(uses, lookup)
      ensures AllFine(resolver, scope, universe) && UsesFine(resolver, uses) ==> r.Some?
      decreases universe - lookup.Keys, 2
    {
      hide Consistent, Sourced;
      var prefixes: map<string, VersionedPackage> := map[];
      for k := 0 to |uses|
        invariant Valid(stack) && Grows() && lookup.Keys <= universe
        invariant !diag.HasErrors() <==> UsesFine(resolver, uses[..k])
        invariant !diag.HasErrors() ==> UsesIn(lookup, uses[..k]) && prefixes == Prefixes(uses[..k], lookup)
      {
        UsesSnoc(resolver, uses, k);
        if !diag.HasErrors() {
          PrefixesAreAliases(resolver, uses[..k], lookup);
        }
        ghost var before := lookup;
        assert uses[k] in uses;
        var next := IntoUse(diag, uses[k], prefixes, universe, stack);
        if next.None? {
          return None;
        }
        if !diag.HasErrors() {
          PrefixesKept(uses[..k], before, lookup);
        }
        prefixes := next.value;
      }
      assert uses[..|uses|] == uses;
      if diag.HasErrors() {
        return None;
      }
      return Some(prefixes);
    }

    /** Registers the types of a new file; one that is registered already is an error. */
    method RegisterFile(
      diag: Checker.Diagnostics, package: VersionedPackage, decls: seq<Decl>, ghost file: File,
      ghost sources: map<VersionedPackage, File>
    )
      requires TypesRegistered(scope, types, sources) && package !in sources && !diag.HasErrors()
      requires decls == FileModel(scope, file.decls)
      modifies `types, diag
      ensures diag.HasErrors() <==> !Distinct(FileNames(scope, file))
      ensures TypesRegistered(scope, types, sources[package := file])
    {
      RegisterPackage(scope, types, sources, package, file);
      types := RegisterTypes(diag, types, InPackage(package, AllNames(FlattenAll([], decls))));
    }

    /** Stores a checked file and registers its types. */
    method StoreFile(
      diag: Checker.Diagnostics, package: VersionedPackage, decls: seq<Decl>, ghost file: File,
      ghost stack: set<VersionedPackage>
    )
      requires Consistent(resolver, scope, lookup, files, types, sources, stack + {package})
      requires package !in files && package !in sources && !diag.HasErrors()
      requires UsesFine(resolver, file.uses) && UsesIn(lookup, file.uses)
      requires DeclsFine(scope, file) && decls == FileModel(scope, file.decls)
      modifies `files, `types, `sources, diag
      ensures files == old(files)[package := decls] && sources == old(sources)[package := file]
      ensures diag.HasErrors() <==> !Distinct(FileNames(scope, file))
      ensures !diag.HasErrors() ==> Consistent(resolver, scope, lookup, files, types, sources, stack)
    {
      hide FilesChecked, Recorded, AllUsesIn, TypesRegistered, UsesFine, UsesIn, DeclsFine, FileNames, FileModel;
      hide Distinct;
      ghost var f, s, t := files, sources, types;
      files := files[package := decls];
      sources := sources[package := file];
      RegisterFile(diag, package, decls, file, s);
      if !diag.HasErrors() {
        StorePackage(resolver, scope, lookup, f, t, s, stack, package, decls, file, types);
      }
    }

    /** Stores a checked file unless its package is there already, in which case it is left alone. */
    method ProcessFile(
      diag: Checker.Diagnostics, package: VersionedPackage, decls: seq<Decl>, ghost file: File,
      ghost stack: set<VersionedPackage>
    )
      returns (ok: bool)
      requires Valid(stack + {package}) && !diag.HasErrors()
      requires UsesFine(resolver, file.uses) && UsesIn(lookup, file.uses)
      requires DeclsFine(scope, file) && decls == FileModel(scope, file.decls)
      requires Origin(resolver, lookup, given, package, file)
      modifies `files, `types, `sources, diag
      ensures ok ==> Valid(stack)
      ensures Grows()
      ensures package in old(files) ==> files == old(files) && sources == old(sources) && types == old(types)
      ensures package !in old(files) ==>
        files == old(files)[package := decls] && sources == old(sources)[package := file]
      ensures ok <==> package in old(files) || Distinct(FileNames(scope, file))
      ensures ok <==> !diag.HasErrors()
    {
      hide Consistent, Sourced, Origin, FileModel, FileNames, UsesFine, UsesIn, DeclsFine, Distinct;
      StackKept(resolver, scope, lookup, files, types, sources, stack, package);
      if package in files {
        return true;
      }
      SourcedAdd(resolver, lookup, given, sources, package, file);
      StoreFile(diag, package, decls, file, stack);
      return !diag.HasErrors();
    }

    /** Imports a source as `package`, once. */
    method ImportSource(file: Option<File>, package: VersionedPackage, ghost universe: set<Required>)
      returns (r: Result<VersionedPackage, ()>)
      requires Valid({}) && Closed(resolver, universe) && lookup.Keys <= universe
      requires file.Some? ==> UsesWithin(file.value.uses, universe)
      modifies this
      ensures r.Success? ==> r.value == package && package !in old(loaded) && loaded == old(loaded) + {package}
      ensures r.Success? ==> Valid({}) && package in files && lookup.Keys <= universe
      ensures r.Success? ==> file.Some? && given == old(given)[package := file.value]
      ensures
        (package !in old(loaded) && AllFine(resolver, scope, universe) && file.Some? &&
         FileFine(resolver, scope, file.value)) ==>
          r.Success?
    {
      hide Consistent, Sourced, FileModel, FileNames, UsesFine, UsesIn, DeclsFine, Distinct, AllFine;
      if package in loaded {
        return Failure(());
      }
      loaded := loaded + {package};
      if file.Some? {
        SourcedKept(resolver, lookup, lookup, given, given[package := file.value], sources);
        given := given[package := file.value];
      }
      var diag := new Checker.Diagnostics();
      var decls := LoadFile(diag, file, universe, {});
      if decls.None? {
        return Failure(());
      }
      StackGrows(resolver, scope, lookup, files, types, sources, {}, package);
      var ok := ProcessFile(diag, package, decls.value, file.value, {});
      if !ok {
        return Failure(());
      }
      return Success(package);
    }

    /** The stored file of `p` is the checked `file`, and its types are those registered for `p`. */
    ghost predicate Holds(p: VersionedPackage, file: File)
      reads this
    {
      && p in files && files[p] == FileModel(scope, file.decls)
      && FileFine(resolver, scope, file)
      && forall n :: (p, n) in types <==> n in FileNames(scope, file)
    }

    /** Between imports, whatever a requirement was resolved to is stored: what was given as a source for
        its package, or what the resolver finds for a requirement of the same package and version. */
    lemma LookedUpIsHeld(r: Required) returns (file: File)
      requires Valid({}) && r in lookup && resolver(r).Resolved?
      ensures var p := Found(resolver, r).value; Holds(p, file) && Origin(resolver, lookup, given, p, file)
      ensures lookup[r] == Found(resolver, r) && UsesIn(lookup, file.uses)
    {
      assert RecordedAs(resolver, r, lookup[r], files.Keys + {});
      var p := Found(resolver, r).value;
      assert p in files && p in sources;
      file := sources[p];
      hide Origin, FileFine, FileNames, FileModel, UsesIn, Recorded;
    }

    /** The resolver has one file for each package and version, and it is the one given as a source. */
    ghost predicate Coherent()
      reads this
    {
      && (forall r, r', p, file :: FoundAt(resolver, r, p, file) && Found(resolver, r') == Some(p) ==>
            resolver(r').file == Some(file))
      && (forall r, p :: p in given && Found(resolver, r) == Some(p) ==> resolver(r).file == Some(given[p]))
    }

    lemma CoherentOrigin(r: Required, file: File)
      requires Coherent() && Found(resolver, r).Some?
      requires Origin(resolver, lookup, given, Found(resolver, r).value, file)
      ensures resolver(r).file == Some(file)
    {
      hide Found;
      var p := Found(resolver, r).value;
      if !(p in given && given[p] == file) {
        var r' :| r' in lookup && FoundAt(resolver, r', p, file);
        assert Found(resolver, r') == Found(resolver, r);
      }
    }

    /** Each requirement is used by the file that the resolver finds for the one before it. */
    ghost predicate Needed(chain: seq<Required>)
      reads this
    {
      forall i :: 0 < i < |chain| ==> RequiredBy(resolver, chain[i - 1], chain[i])
    }

    /** After an import, everything that the resolver's files require, however far from the requirement that
        was imported, is found, and the file that the resolver has for it is checked, stored and registered. */
    lemma {:induction false} ImportedIsStored(chain: seq<Required>, i: nat)
      requires Valid({}) && Coherent() && Needed(chain) && i < |chain| && chain[0] in lookup
      ensures chain[i] in lookup && lookup[chain[i]] == Found(resolver, chain[i])
      ensures i > 0 ==> lookup[chain[i]].Some?
      ensures lookup[chain[i]].Some? ==>
        resolver(chain[i]).file.Some? && Holds(lookup[chain[i]].value, resolver(chain[i]).file.value)
    {
      hide *;
      if i > 0 {
        ImportedIsStored(chain, i - 1);
        NeededAt(chain, i);
        FoundResolved(chain[i - 1]);
        var before := LookedUpIsHeld(chain[i - 1]);
        CoherentOrigin(chain[i - 1], before);
        RequiredIn(before, chain[i]);
      }
      LookedUp(chain[i]);
      FoundResolved(chain[i]);
      if resolver(chain[i]).Resolved? {
        var file := LookedUpIsHeld(chain[i]);
        CoherentOrigin(chain[i], file);
      }
    }

    lemma NeededAt(chain: seq<Required>, i: nat)
      requires Needed(chain) && 0 < i < |chain|
      ensures resolver(chain[i - 1]).Resolved? && resolver(chain[i - 1]).file.Some?
      ensures UsedBy(resolver(chain[i - 1]).file.value, chain[i])
    {
      assert RequiredBy(resolver, chain[i - 1], chain[i]);
    }

    lemma FoundResolved(r: Required)
      ensures Found(resolver, r).Some? <==> resolver(r).Resolved?
    {
    }

    lemma RequiredIn(file: File, r: Required)
      requires UsedBy(file, r) && UsesIn(lookup, file.uses)
      ensures r in lookup && lookup[r].Some?
    {
      var u :| u in file.uses && u.required == Some(r);
      assert UseIn(lookup, u);
    }

    lemma LookedUp(r: Required)
      requires Valid({}) && r in lookup
      ensures lookup[r] == Found(resolver, r)
    {
      assert RecordedAs(resolver, r, lookup[r], files.Keys + {});
    }

    /** `p` uses `q`, as the resolver sees it. */
    ghost predicate Uses(p: VersionedPackage, q: VersionedPackage)
      reads this
      requires p in sources
    {
      exists u :: u in sources[p].uses && u.required.Some? && resolver(u.required.value).Resolved? &&
        q == VersionedPackage(u.required.value.package, resolver(u.required.value).version)
    }

    ghost predicate Chain(chain: seq<VersionedPackage>)
      reads this
    {
      forall i :: 0 < i < |chain| ==> chain[i - 1] in sources ==> Uses(chain[i - 1], chain[i])
    }

    /** Between imports, everything reachable from a loaded file along uses is loaded. */
    lemma {:induction false} ClosureLoaded(chain: seq<VersionedPackage>, i: nat)
      requires Valid({}) && Chain(chain) && i < |chain| && chain[0] in files
      ensures chain[i] in files
    {
      hide *;
      if i > 0 {
        ClosureLoaded(chain, i - 1);
        LinkHolds(chain, i);
        UsedIsLoaded(chain[i - 1], chain[i]);
      }
    }

    lemma LinkHolds(chain: seq<VersionedPackage>, i: nat)
      requires Valid({}) && Chain(chain) && 0 < i < |chain| && chain[i - 1] in files
      ensures chain[i - 1] in sources && Uses(chain[i - 1], chain[i])
    {
      hide Recorded, AllUsesIn, TypesRegistered, Uses, FileFine;
    }

    /** What a loaded file uses is loaded. */
    lemma UsedIsLoaded(p: VersionedPackage, q: VersionedPackage)
      requires Valid({}) && p in sources && Uses(p, q)
      ensures q in files
    {
      hide FilesChecked, TypesRegistered;
      var u :| u in sources[p].uses && u.required.Some? && resolver(u.required.value).Resolved? &&
        q == VersionedPackage(u.required.value.package, resolver(u.required.value).version);
      assert UsesIn(lookup, sources[p].uses) && UseIn(lookup, u);
      hide AllUsesIn, UsesIn;
      assert RecordedAs(resolver, u.required.value, lookup[u.required.value], files.Keys + {});
    }
  }

  lemma UsesSnoc(resolver: Required -> Resolution, uses: seq<UseDecl>, k: nat)
    requires k < |uses|
    ensures uses[..k + 1] == uses[..k] + [uses[k]] && uses[..k + 1][..k] == uses[..k]
    ensures AliasesOf(uses[..k + 1]) == AliasesOf(uses[..k]) + if uses[k].alias.Some? then [uses[k].alias.value] else []
    ensures UsesFine(resolver, uses[..k + 1]) <==>
      && UsesFine(resolver, uses[..k])
      && UseFine(resolver, uses[k])
      && (uses[k].alias.Some? ==> uses[k].alias.value !in AliasesOf(uses[..k]))
  {
    var prefix, next := uses[..k], uses[..k + 1];
    assert next == prefix + [uses[k]] && next[..k] == prefix;
    if uses[k].alias.Some? {
      Checker.DistinctSnoc(AliasesOf(prefix), uses[k].alias.value);
    } else {
      assert AliasesOf(next) == AliasesOf(prefix);
    }
  }

  lemma {:induction false} PrefixesKept(uses: seq<UseDecl>, before: Lookup, after: Lookup)
    requires UsesIn(before, uses) && Includes(after, before)
    ensures UsesIn(after, uses) && Prefixes(uses, after) == Prefixes(uses, before)
  {
    forall u | u in uses ensures UseIn(after, u) && UseIn(before, u) {
    }
    if uses != [] {
      PrefixesKept(uses[..|uses| - 1], before, after);
      var last := uses[|uses| - 1];
      assert last in uses;
      assert last.required.Some? ==> after[last.required.value] == before[last.required.value];
    }
  }

  /** The bound prefixes are exactly the aliases in use. */
  lemma {:induction false} PrefixesAreAliases(resolver: Required -> Resolution, uses: seq<UseDecl>, lookup: Lookup)
    requires UsesIn(lookup, uses) && UsesFine(resolver, uses)
    ensures forall a :: a in Prefixes(uses, lookup) <==> a in AliasesOf(uses)
  {
    if uses != [] {
      UsesSnoc(resolver, uses, |uses| - 1);
      assert uses[..|uses|] == uses;
      PrefixesAreAliases(resolver, uses[..|uses| - 1], lookup);
    }
  }
}
