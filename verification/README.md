# Reproto, modelled and proved in Dafny

Reproto compiles schemas to codecs. It checks a schema, emits encoders and decoders, resolves versioned
imports, infers schemas from documents, and brings its own semantic-version library, schema lexer, naming
policies and language server. This project models those parts and proves what they promise. Verify it with
`dafny verify dfyconfig.toml`.

## Parts

**Schemas and the codecs they license.** `Schema` holds syntax trees and checked schemas, `SchemaRules` says
declaratively what an acceptable schema is, and `Checker` is the checker itself: loops over mutable
accumulators and a diagnostics object, proved to accept exactly what the rules accept; `SchemaLaws` says what the
rules come down to for enums, strategies and reserved names. `Js` gives the emitted
JavaScript a meaning (values, prototypes, shadowed methods and globals, exceptions, syntax errors), `JsBackend`
emits it, and `JsRoundTrip`, `JsLoading` and `JsPipeline` prove the compiler-correctness theorem: for a file that
the checker accepts, the module loads and `decode(encode(v))` is `v` if and only if the declarations are
`JsPipeline.Legal` in JavaScript and `v` avoids the traps that `JsRoundTrip.Clean` names. Which values a type of
the schema has is defined on the schema alone (`JsRoundTrip.WellTyped`). `JsDecoding` proves that whatever a
decoder returns, from any data, is such a value, and `JsWire` that whatever an encoder returns is the format that
the schema describes. `JsTraps` has instances of the conditions. `Untagged` is about first-match dispatch, for the
Dart decoder (which sees only own keys) and the JavaScript decoder (which also sees inherited ones). `Registry`
flattens and registers declarations, and `RegistryNames` says exactly when their names register without conflict.

**Sessions.** `Session` is the memoised recursive import over a finite, possibly cyclic repository: after an
import, everything that the resolver's files require is stored as the resolver has it.
`PackageNames` and `PackageRounds` are the loop that names versioned packages in rounds, with the order in
which colliding names are handled left open.

**Inference.** `Sir` has inferred structures, their order and their join (`refine`); `Inference` turns
documents into structures (`process_array`, `test_interface`); `Fitting` proves exactly when the structure
describes the document, and when the order of an array matters. `Occurrences` says which structures occur where
for the first time; `Derive` builds declarations with the shared type cache, and proves exactly what the cache
holds and when every declaration has a path of its own. `DerivedSchemas` takes derived declarations through the
checker and the registry: it says exactly which documents give a legal schema. `Conformance` says which documents
are values of a schema's types, and `DerivedConformance` that the values of a derived declaration are exactly the
documents that have its structure, and when the document it was derived from is one. `DeriveTraps` has instances.

**Versions and ranges.** `SemverVersion` and `SemverRange` are order and matching, `SemverSyntax` the grammar
as functions, `SemverParser` and `SemverPrinter` the lexer, the recursive-descent parser and the printers as
the source has them, and `SemverRoundTrip` the two round trips.

**The schema language's lexer.** `IdlSyntax` and `IdlLexer` (specification and class), `IdlNumber` (decimal
literals), `IdlRuns` (whole runs), `IdlTexts` (the text of each token is read as that token, alone and in whole
texts), `IdlPrinting` (printed strings and names are read back). `Decimal` has
decimal notation, `Joined` names joined with underscores.

**Text and names.** `Utf16` has incremental edits in the language server, `Naming` the naming transducer.

## Findings

Places where the code does something other than its documentation or its purpose suggests. In each case the
model keeps what the code does.

- An emitted JavaScript module is a syntax error if a field is called `arguments` or `eval`, or `_1a` or `_`
  (the lexer strips the underscore, which leaves no name); if a class has two required fields that are arrays or
  maps; if a map has arrays or maps both as keys and as values; or if an untagged sub-type requires no field
  (`JsPipeline.Legal`).
- In a module that loads, a field named `encode` makes its instances unencodable; an absent optional field whose
  name every object inherits (`constructor`) does not decode as absent; a tuple with an absent optional field
  cannot be encoded; a map loses the key `__proto__`; an untagged sub-type that requires only inherited names can
  be taken for another; and a top-level declaration called `Number`, `Array` or `Object` makes decoding numbers,
  arrays or maps throw. `JsPipeline.AcceptedRoundTrips` says that a well-typed value is lost in no other way, in
  the schemas that it covers.
- A map whose keys are not strings, points in time, bytes or anything at all is encoded, but only decodes if it is
  empty: what JavaScript reads back are strings (`JsDecoding.KeysAreStrings`).
- A checked file is refused when its names are registered exactly if two of its declarations share a name, or an
  interface declares something under the name of one of its sub-types (`RegistryNames.CheckedFileIff`).
- In an enum over numbers, a variant without a value right after a numbered one receives the same number
  again, so such an enum is always rejected (`Checker.RepeatedDefault`).
- A range that mixes a wildcard with further components prints without them, but matches the same versions.
- A release named by a tilde or a caret covers pre-releases of that very release (`SemverRange.PredicateCovers`), so
  `^1.2.3, >=1.2.3-alpha` matches `1.2.3-alpha`, which is before 1.2.3.
- Package names can collide if an unversioned package ends in something like `v1_0`.
- Inference widens numbers in one direction only, so `[1, -1]` has a structure and `[-1, 1]` has none. An array
  has one in every order exactly if alike elements can be refined both ways.
- Interfaces inside arrays are not refined: the structure describes the document exactly if, in every array of
  alike elements, the interfaces of all elements are below those of the first.
- Keys that agree after case conversion can make two declarations at one path (`DeriveTraps.DeriveClashing`). They
  do not if all but one of their structures occurred before; `Derive.Derive` has the exact condition.
- An interface whose tag is not `type` is derived with the attribute `type_info(type="type")`. It does not carry the
  tag, and the checker refuses it (`DeriveTraps.DeriveUnusualTag`); `DerivedSchemas.DerivedIsAccepted` says exactly
  what else the checker refuses.
- The schema derived from a document does not always describe that document. A null in an array or a tuple is
  not a value of its type; an integer of 2^63 or more beside a negative one is declared as signed; and a field that
  holds an array of an interface is declared as one object of it. There is no other way
  (`DerivedConformance.DerivedDescribes`).
- Upper snake case is not idempotent, except on texts whose lower-case letters all follow an underscore.
- `1.05` is read as 0.15: zeros at the start of a fraction do not shift the whole part. Exponents are only read
  after a fraction.
- Of the escapes that the printer writes, the lexer does not know those for `'`, U+0007 and U+0014.
- A position past the end of a line that ends in a line feed is taken to be the start of the next line, while
  the language server protocol clamps it to the line. A position inside a surrogate pair is refused, unless the
  pair ends the last line, where it is not noticed.

## Assumptions about code that is not part of this model

- A field's name is its alias, or its identifier if it has none; its safe identifier is its identifier, or for
  keywords the identifier with an underscore in front.
- An untagged sub-type is discriminated by its own required fields.
- A versioned package becomes its parts and one more part for the version, or just its parts without a version.
- Versioned packages are compared by package, then by version, and versions without their build data.
- Insertion-ordered maps are equal if they hold the same entries in the same order.
- Whether a string reads as a point in time, how a number is best represented, and the case conversions used
  by inference are parameters.

## Model

| member | source | states |
|---|---|---|
| Checker.CheckConflict | lib/trans/into_model.rs:42-54 | records an error exactly if the key was taken before; otherwise adds it to the set |
| Checker.CheckField | lib/trans/into_model.rs:59-96 | a field is refused exactly if its identifier or name is taken, its name is the tag, or its name is reserved |
| Checker.IntoField | lib/trans/into_model.rs:646-760 | a field is built exactly if its type and format are acceptable, and is then the field the rules give |
| Checker.IntoMembers | lib/trans/into_model.rs:1713-1779 | the member loop ends without errors exactly if all members satisfy the rules (distinct identifiers, distinct names, no tag, nothing reserved, distinct inner declarations), and then yields exactly their fields and declarations in order |
| Checker.PushTypeInfo | lib/trans/into_model.rs:1150-1180 | the strategy is the one the arguments ask for, and a bad one is an error; exactly the arguments that mean something are taken |
| Checker.CheckSelection | lib/trans/lib.rs:15-25 | records an error exactly if an argument is left |
| Checker.IntoStrategy | lib/trans/into_model.rs:980-985 | together: an interface has a strategy exactly if the rules give one, so a tag beside `untagged`, a tag alone and any other argument are refused |
| Checker.IntoSubType | lib/trans/into_model.rs:1458-1564 | a sub-type is accepted exactly if its members satisfy the rules beside those of the interface and, when untagged, its set of required names is new |
| Checker.CheckOptionals | lib/trans/into_model.rs:1113-1139 | records an error exactly if an optional field of the sub-type is required by another one |
| Checker.CheckUntagged | lib/trans/into_model.rs:1105-1147 | records an error exactly if some sub-type's optional fields meet another sub-type's required set |
| Checker.CheckOrder | lib/trans/into_model.rs:1044-1082 | records an error exactly if an earlier required set is contained in a later one |
| Checker.IntoSubTypes | lib/trans/into_model.rs:1006-1031 | the sub-type loop ends without errors exactly if all sub-types, their identifiers, names and required sets satisfy the rules, and yields their models in order |
| Checker.IntoInterface | lib/trans/into_model.rs:957-1103 | an interface is accepted exactly if the declarative rules hold, and is then the interface they describe |
| Checker.IntoEnum | lib/trans/into_model.rs:355-458 | an enum is accepted exactly if all variants have values in bounds and names and values are distinct; default values follow the generator |
| Checker.IntoDecl | lib/trans/into_model.rs:330-353 | for every syntax tree: the checker accepts it exactly if `SchemaRules.DeclOk` holds, and the result is the schema it denotes |
| Checker.RepeatedDefault | lib/trans/into_model.rs:474-499 | no enum with a numbered variant directly followed by one without a value is ever accepted |
| SchemaLaws.DefaultsCount | lib/trans/into_model.rs:474-499 | variants without a value count on from the last number, or from zero |
| SchemaLaws.EnumValues | lib/trans/into_model.rs:355-499 | in an accepted enum each variant has the value it states, its own name, or the number it counts to, and numbers are within the bounds of the type |
| SchemaLaws.CountedEnum | lib/trans/into_model.rs:474-499 | an enum of numbers without any values gives 0, 1, 2 and so on, and is accepted exactly if its names differ |
| SchemaLaws.Bounds | lib/core/src/rp_type.rs:76-97 | 32-bit numbers have 31 bits besides the sign, 64-bit numbers the 53 bits that a double holds |
| SchemaLaws.EveryStrategy | lib/trans/into_model.rs:1150-1180 | each strategy, with any tag, is what the arguments written for it ask for; without any, the tag is `type` |
| SchemaLaws.ReservedAvoided | lib/trans/into_model.rs:80-96 | no field of an accepted type, or of a sub-type of an accepted interface, has a name that its declaration or its interface reserves |
| Registry.IntoFile | lib/trans/into_model.rs:853-940 | a file is accepted exactly if all its declarations are |
| Registry.RegisterTypes | lib/trans/session.rs:523-546 | registration reports a conflict exactly if a name is repeated or was registered before, and registers all of them |
| RegistryNames.NamesIff | lib/core/src/rp_decl.rs:138-173 | the names of a declaration, wherever it stands, are distinct exactly if no two things in one place inside it have the same name; sub-types are places of their own |
| RegistryNames.CheckedIff | lib/trans/into_model.rs:957-1103 | in a declaration that passes the checker, names clash exactly where an interface declares something under the name of one of its sub-types |
| RegistryNames.CheckedFileIff | lib/trans/session.rs:504-554 | a checked file registers without conflict exactly if its declarations have different names and there is no such interface |
| JsBackend.BuildConstructor | lib/backend-js/src/compiler.rs:224-241 | one parameter per field, in order |
| JsBackend.EncodeMethod | lib/backend-js/src/compiler.rs:85-126 | the emitted encoder puts the tag first and then one guarded statement per field |
| JsBackend.EncodeTupleMethod | lib/backend-js/src/compiler.rs:128-147 | the emitted tuple encoder throws on absent members and lists the others in order |
| JsBackend.DecodeMethod | lib/backend-js/src/compiler.rs:167-211 | the emitted decoder has one block per field and passes the locals to the constructor in order; what the blocks accept is the subject of `JsDecoding.Decoded` |
| JsBackend.ProcessRecord | lib/backend-js/src/compiler.rs:296-318 | constructor, encoder and decoder of a class with fields fit together |
| JsBackend.ProcessEnum | lib/backend-js/src/compiler.rs:320-359 | one member object per variant, searched by value |
| JsBackend.DecodeByTag | lib/backend-js/src/compiler.rs:448-466 | one comparison per sub-type name, in order |
| JsBackend.DecodeByKeys | lib/backend-js/src/compiler.rs:468-487 | one test of required keys per sub-type, in order |
| JsBackend.DiscriminatingFields | lib/trans/into_model.rs:1536-1540 | the names of the required fields, in order |
| JsBackend.ProcessInterface | lib/backend-js/src/compiler.rs:385-446 | an interface yields its dispatcher and exactly one class per sub-type |
| JsBackend.Compile | lib/backend-js/src/compiler.rs:296-446 | whatever the order of declarations, every class is present with the code of its own declaration |
| JsRoundTrip.BlocksRun | lib/backend-js/src/compiler.rs:167-211 | with distinct locals, running decode blocks in sequence is running each alone |
| JsRoundTrip.RecordDecodes | lib/backend-js/src/compiler.rs:167-241 | decoding a record gives `v` exactly if every field's block gives v's member |
| JsRoundTrip.StmtsRun | lib/backend-js/src/compiler.rs:85-126 | running the encoder leaves exactly the tag and the encodings of the present fields, or throws exactly if one of them cannot be encoded |
| JsRoundTrip.ObjectEncodes | lib/backend-js/src/compiler.rs:85-126 | the same for the whole encoder of an instance |
| JsRoundTrip.ObjectDecodes | lib/backend-js/src/compiler.rs:167-211 | decoding an encoded object gives the value back exactly if the dispatch reaches its class and every field is clean |
| JsRoundTrip.TupleEncodes | lib/backend-js/src/compiler.rs:128-147 | a tuple is encoded exactly if all members are present and encodable, as their encodings in order |
| JsRoundTrip.TupleDecodes | lib/backend-js/src/compiler.rs:167-222 | decoding an encoded tuple gives the value back exactly if every field is clean |
| JsRoundTrip.FindCaseAt | lib/backend-js/src/compiler.rs:448-466 | with distinct names, the tag comparison finds the sub-type that was encoded |
| JsRoundTrip.FindChoiceAt | lib/backend-js/src/compiler.rs:468-487 | the chain of key tests is first-match dispatch |
| JsRoundTrip.Dispatched | lib/backend-js/src/compiler.rs:385-487 | decoding an encoded record at a type that accepts its class gives it back exactly if the dispatch reaches that class and the class's own decoder gives it back |
| JsRoundTrip.EnumTrips | lib/backend-js/src/compiler.rs:149-165 | every enum member survives, because variant values are distinct |
| JsRoundTrip.ArrayTrips | lib/backend-js/src/flavored.rs:34-154 | an array survives exactly if its elements do and `Array` is the global one |
| JsRoundTrip.MapTrips | lib/backend-js/src/flavored.rs:34-154 | a map whose keys can be strings, or an empty one, survives exactly if its values do, it has no key `__proto__`, and `Object` is the global one |
| JsRoundTrip.SurvivesIff | lib/backend-js/src/compiler.rs:85-487 | for every checked schema, every type of it and every value of that type, as the schema alone defines it: encode then decode, as emitted, gives the value back if and only if it is clean |
| JsDecoding.BlockGives | lib/backend-js/src/compiler.rs:167-211 | a decode block gives what it decodes from the data, or null where the field may be absent, or an inherited function where the type is anything |
| JsDecoding.EnumDecoded | lib/backend-js/src/compiler.rs:149-165 | whatever an enum's decoder returns is one of its members |
| JsDecoding.Dispatches | lib/backend-js/src/compiler.rs:448-487 | a dispatcher that returns has run the decoder of one of the interface's sub-types |
| JsDecoding.KeysAreStrings | lib/backend-js/src/flavored.rs:92-113 | a map with other keys than strings never decodes, unless it is empty |
| JsDecoding.Decoded | lib/backend-js/src/flavored.rs:34-126 | for every checked schema and any data at all: whatever the emitted decoder of a type returns is a value of that type |
| JsWire.EnumEncoded | lib/backend-js/src/compiler.rs:149-165 | an enum member is written as the text or the number of its variant |
| JsWire.ObjectEncoded | lib/backend-js/src/compiler.rs:85-126 | an instance is written as an object with exactly its present fields, under their names, and the tag with the sub-type's name |
| JsWire.TupleEncoded | lib/backend-js/src/compiler.rs:128-147 | a tuple is written as the array of its fields |
| JsWire.Encoded | lib/backend-js/src/flavored.rs:128-154 | for every checked schema and every well-typed value: whatever the emitted encoder returns is the value as the schema says it is written |
| JsLoading.LetsBind | lib/backend-js/src/compiler.rs:167-211 | the bindings of a decoder are legal exactly if its locals are and at most one required field is a collection |
| JsLoading.LoadsIff | lib/backend-js/src/compiler.rs:167-241 | the whole module is free of illegal and repeated bindings and of empty tests exactly if every declaration meets its conditions |
| JsLoading.ShadowedIff | lib/backend-js/src/flavored.rs:42-104 | a global that decoders call is shadowed exactly by a declaration of that name at the top of the package |
| JsLoading.RoundTripIff | lib/backend-js/src/compiler.rs:85-487 | for every checked schema and every well-typed value: the module loads and encode then decode gives the value back if and only if the schema is loadable and the value is clean |
| JsPipeline.CheckedIsAccepted | lib/trans/into_model.rs:330-353 | whatever passes the checker has the uniqueness properties the codecs rely on, at every depth |
| JsPipeline.RegisteredEnv | lib/trans/session.rs:504-554 | declarations whose names registered without conflict contribute disjoint classes |
| JsPipeline.AcceptedIsSafe | lib/trans/into_model.rs:36-96 | an accepted declaration satisfies what the emitted code needs |
| JsPipeline.LexedNames | lib/lexer/lexer.rs:98-120 | every name the lexer yields has the form that the next two rows start from |
| JsPipeline.FieldBinds | lib/backend-js/src/lib.rs:32-97 | an escaped field identifier can be bound exactly if it starts with a letter and is neither `eval` nor `arguments` |
| JsPipeline.ModelEscapes | lib/trans/into_model.rs:595-611 | with the backend's keywords the checker escapes exactly those identifiers |
| JsPipeline.AcceptedReaches | lib/trans/into_model.rs:1036-1147 | in an accepted interface that requires no inherited names, dispatch reaches every well-typed sub-type |
| JsPipeline.AcceptedRoundTrips | lib/trans/into_model.rs:1713-1779 | compiler correctness: the module of an accepted and registered file loads and round-trips a value of any type of the schema if and only if all declarations are legal in JavaScript and the value is clean |
| JsPipeline.AcceptedWrites | lib/backend-js/src/compiler.rs:85-165 | the encoders of an accepted and registered file write the format that the schema describes |
| JsPipeline.AcceptedReads | lib/backend-js/src/compiler.rs:167-222 | the decoders of such a file return nothing but values of their types, whatever they are given |
| JsTraps.InheritedNameTrap | lib/backend-js/src/compiler.rs:167-211 | an absent optional field called `constructor` is not decoded as absent |
| JsTraps.EncodeMemberTrap | lib/backend-js/src/flavored.rs:128-154 | an instance with a member called `encode` cannot be encoded |
| JsTraps.AbsentTupleFieldTrap | lib/backend-js/src/compiler.rs:128-147 | a tuple with an absent optional field does not survive |
| JsTraps.ShadowedGlobalTrap | lib/backend-js/src/flavored.rs:42-60 | a type called `Number` with a number in it loads but never decodes |
| JsTraps.PrototypeKeyTrap | lib/backend-js/src/flavored.rs:92-150 | a map with the key `__proto__` loses it |
| JsTraps.InheritedDispatchTrap | lib/backend-js/src/compiler.rs:468-487 | behind a sub-type that requires only `constructor`, no other sub-type survives |
| JsTraps.UnboundNameTrap | lib/backend-js/src/compiler.rs:224-241 | a field `arguments`, or an identifier `1a`, keeps the module from loading |
| JsTraps.TwoCollectionsTrap | lib/backend-js/src/compiler.rs:167-211 | so do two required arrays in one class |
| JsTraps.TwoSidedMapTrap | lib/backend-js/src/flavored.rs:92-113 | so does a map with arrays on both sides |
| JsTraps.NothingRequiredTrap | lib/backend-js/src/compiler.rs:468-487 | so does an untagged sub-type that requires nothing |
| JsTraps.OneFieldTrips | lib/backend-js/src/compiler.rs:361-383 | the whole pipeline on a type with one string: the hypotheses of the main theorem can be met, and every value survives |
| Untagged.DispatchSoundIff | lib/backend-dart/src/compiler.rs:201-215 | first-match dispatch always finds the encoded sub-type if and only if no required set is covered by the names of a later sub-type |
| Untagged.AcceptedIsSeparated | lib/trans/into_model.rs:1036-1147 | the checker's three rules for untagged interfaces imply that condition |
| Untagged.AcceptedDispatch | lib/trans/into_model.rs:1498-1549 | in an accepted untagged interface every encoding, with any optional fields present, is decoded as its own sub-type |
| Untagged.ShadowedMisdispatch | lib/trans/into_model.rs:1044-1082 | if an earlier required set is contained in a later one, some encoding of the later sub-type is decoded as an earlier one |
| Session.Session.Import | lib/trans/session.rs:559-598 | terminates on any finite repository, cyclic or not; success keeps the session invariant, by which every stored file is one that the resolver found for a requirement of its package, or one that was given; it returns what the resolver found, and a faultless repository never fails |
| Session.Session.LoadFile | lib/trans/session.rs:433-500 | a file is loaded exactly with its uses imported and its declarations accepted |
| Session.Session.IntoUse | lib/trans/into_model.rs:775-841 | one use declaration reports an error exactly if it is malformed, unresolved, or its alias is taken, and binds its alias to what was imported |
| Session.Session.IntoUses | lib/trans/into_model.rs:766-850 | without errors, every use is imported and the aliases are bound to what their own uses resolved to |
| Session.Session.RegisterFile | lib/trans/session.rs:523-546 | a new file's types are registered exactly once, so a conflict is only reported for a real one |
| Session.Session.ProcessFile | lib/trans/session.rs:504-554 | a new package is stored with exactly the given file and registered; coming back to it through a diamond or a cycle changes nothing and is no error |
| Session.Session.ImportSource | lib/trans/session.rs:366-386 | a source is imported at most once, and recorded as given; afterwards the whole session invariant holds with nothing left in progress |
| Session.Session.ClosureLoaded | lib/trans/session.rs:559-598 | between imports, every package reachable along uses from a loaded file is loaded |
| Session.Session.LookedUpIsHeld | lib/trans/session.rs:504-598 | between imports, the package that a requirement was resolved to is stored with a file that the resolver has for it, or that was given for it, checked and with exactly its types registered |
| Session.Session.ImportedIsStored | lib/trans/session.rs:559-598 | after an import, if the resolver has one file for each package and version: everything that the resolver's files require, however far from the imported requirement, is found, and the resolver's own file for it is checked, stored and registered |
| Session.PrefixesAreAliases | lib/trans/into_model.rs:775-850 | the bound prefixes are exactly the aliases in use |
| PackageNames.VersionPackage | lib/trans/session.rs:178-214 | the name of a version at a level is the underscore-joined list of the parts that the level spells out |
| Joined.JoinInjective | lib/trans/session.rs:178-214 | joined names are equal only if all parts are, when no part has an underscore |
| PackageNames.RandomNames | lib/trans/session.rs:208-211 | at the last level, different queue positions give different names |
| PackageNames.LevelThreeInjective | lib/trans/session.rs:178-214 | for versions as the parser produces them, level 3 tells all different keys apart |
| PackageNames.SharedIsClash | lib/trans/session.rs:299-336 | a package goes into the next round exactly if some other package of the whole session clashes with it at this level |
| PackageRounds.Candidates | lib/trans/session.rs:311-320 | grouping by converted name puts every queued package into exactly the group of its name |
| PackageRounds.Round | lib/trans/session.rs:308-336 | one round, with groups handled in any order, names exactly the packages whose name is unique and requeues exactly the others |
| PackageRounds.RoundNarrows | lib/trans/session.rs:308-336 | no unversioned package survives two rounds and nothing survives six |
| PackageRounds.Packages | lib/trans/session.rs:299-336 | every package is named exactly once, in at most six rounds; for versions as the parser produces them in at most four, and then the result is `FinalName`, whatever the order of the queue |
| PackageRounds.VersionedApart | lib/trans/session.rs:299-336 | versioned packages never share a final name |
| PackageRounds.InjectiveIff | lib/trans/session.rs:299-336 | the names are injective if and only if no unversioned package is called what some package is called at the level, from 1 to 3, to which clashes below force its version to be spelled out |
| PackageRounds.InjectiveIfNotVersionLike | lib/trans/session.rs:299-336 | in particular if no unversioned package's last part is `v`, digits, an underscore, and more |
| PackageRounds.VersionLikeTrap | lib/trans/session.rs:299-336 | without that, a concrete set of three packages in which two end up with one name |
| Sir.SameHash | lib/derive/sir.rs:34-54 | equal hashes mean the same shape: the same keys in order, the same lengths, so pairwise refinement drops nothing |
| Sir.LeTransitive | lib/derive/sir.rs:87-151 | "describes at least as much" is transitive |
| Sir.LeAntisymmetric | lib/derive/sir.rs:87-151 | and antisymmetric, so least upper bounds are unique |
| Sir.JoinHash | lib/derive/sir.rs:87-151 | refining keeps the hash |
| Sir.JoinAbove | lib/derive/sir.rs:87-151 | the refined structure is above both, optionality included |
| Sir.JoinLeast | lib/derive/sir.rs:87-151 | and below everything that is above both |
| Sir.JoinRefinable | lib/derive/sir.rs:87-151 | a refined structure can be refined with exactly what both sides can be refined with |
| Sir.RefineField | lib/derive/sir.rs:313-320 | a field becomes optional if either side is |
| Sir.Refine | lib/derive/sir.rs:87-151 | on equal hashes `refine` succeeds exactly if every scalar position is unknown on one side, equal in kind, or ascends from unsigned over signed and float to double; the result is the join |
| Inference.JoinAllRefinable | lib/derive/sir.rs:165-184 | the running join of a group accepts exactly what every member accepts |
| Inference.RefineGroup | lib/derive/sir.rs:167-174 | refining a group succeeds exactly if the new element agrees with all earlier ones, and keeps `unique` hash-distinct, covering and joined |
| Inference.NewGroup | lib/derive/sir.rs:176-179 | so does starting a new group |
| Inference.OneGroup | lib/derive/sir.rs:185-204 | one group is left exactly if all hashes agree, and it is the join of all elements |
| Inference.CommonKeys | lib/derive/sir.rs:232-247 | the retained keys are exactly those that hold a string in every element |
| Inference.TagPriority | lib/derive/sir.rs:277-297 | the tag is the first of `type`, `@class`, `kind` that is a string in every element |
| Inference.TestInterface | lib/derive/sir.rs:213-275 | never fails, and yields an interface exactly if there is a tag, with `type` before `@class` before `kind` |
| Inference.ProcessArray | lib/derive/sir.rs:154-207 | succeeds exactly if every element has a structure and same-shaped elements agree in order; the result is an array of the join, an interface, or a tuple of the elements in order |
| Inference.FromJson | lib/derive/json.rs:54-113 | the inferred structure is `SirOf` of the document |
| Fitting.ArrayIsLub | lib/derive/sir.rs:185-204 | the result is an array exactly if all hashes agree; its element type is below every upper bound of the elements, and for interface-free elements is one |
| Fitting.SubTypeRestores | lib/derive/sir.rs:251-270 | the i-th sub-type, with the tag put back at its place, is exactly the i-th element, and its name is the tag's text there |
| Fitting.FitsUpward | lib/derive/sir.rs:87-151 | whatever fits a structure fits every larger one |
| Fitting.InferredLeast | lib/derive/sir.rs:154-207 | among the structures with its hash, the inferred one is below every one that describes the document |
| Fitting.InferredFits | lib/derive/sir.rs:154-207 | the inferred structure describes the document it came from if and only if, in every array of alike elements, the interfaces of all elements are below those of the first |
| Fitting.StepwiseFits | lib/derive/sir.rs:134-138 | in particular if this holds array by array, at every depth |
| Fitting.EveryOrder | lib/derive/sir.rs:89-103 | an array has a structure in every order of its elements if and only if alike elements can be refined both ways |
| Fitting.UnrefinedInterface | lib/derive/sir.rs:134-138 | a concrete document that its inferred structure does not describe |
| Derive.BackedThen | lib/derive/lib.rs:196-230 | what is cached and what is declared match one to one: each new structure is declared under its name, and nothing else is; this composes |
| Derive.Deriver.InitField | lib/derive/lib.rs:153-247 | the field has the converted name, its alias, its optionality and a type that stands for exactly its structure; a declaration is added exactly if the structure is not cached yet, and afterwards it is cached with everything inside it, under the names of the places where that first occurs |
| Derive.Deriver.InitEntries | lib/derive/lib.rs:353-368 | one field per entry in order, with everything they declare; the declarations inside have different names exactly if the structures that first occur there do |
| Derive.Deriver.InitItems | lib/derive/lib.rs:504-516 | the same for the numbered fields of a tuple |
| Derive.Deriver.InitSubTypes | lib/derive/lib.rs:378-477 | the same for the sub-types of an interface, with aliases where the name changes |
| Derive.Deriver.DeriveDecl | lib/derive/lib.rs:286-322 | a declaration is derived exactly for objects, tuples and interfaces (inside arrays too), built from that structure; exactly the structures inside it are cached |
| Derive.Derive | lib/derive/lib.rs:520-544 | for a whole document: no two declarations in one place have the same name if and only if, in every object, tuple and sub-type, the structures that occur there for the first time have different names, and so have sub-types; then every path stands for one declaration |
| Derive.SourceOf | lib/derive/lib.rs:196-230 | every declaration of a derived one is built from a structure inside the document |
| Derive.MentionResolves | lib/derive/lib.rs:196-230 | the type name of a field, cached or new, stands for a declaration at exactly that path, built from a structure equal to the field's; it is the only one there if paths are declared once |
| Derive.FieldHasSource | lib/derive/lib.rs:286-516 | every field of a derived declaration comes from an entry of its structure, an item under its number, or an entry of one of its sub-types |
| Derive.EveryMentionDeclared | lib/derive/lib.rs:286-516 | every type name mentioned anywhere in a derived declaration is declared in it, at that path |
| Occurrences.InnerSmaller | lib/derive/lib.rs:196-230 | no structure occurs inside itself, so what is cached while a declaration is under way never answers for something inside it |
| DerivedSchemas.Accepted | lib/trans/into_model.rs:330-353 | the checker accepts a derived declaration exactly if nothing in it has the same name in the same place and each declaration in it is acceptable by itself |
| DerivedSchemas.LocalIff | lib/derive/lib.rs:419-436 | a declaration is acceptable by itself exactly if the keys of its structure differ before and after conversion (or under the file's convention for field names) and an interface has the default tag, under which no sub-type has a field |
| DerivedSchemas.DerivedIsAccepted | lib/derive/lib.rs:520-544 | a derived declaration is accepted by the checker if and only if structures that first occur in one place have different names and every structure in the document meets those conditions |
| DerivedSchemas.UnusualTagRefused | lib/derive/lib.rs:433-447 | a document with an interface under another tag is never accepted |
| DerivedSchemas.DerivedRegisters | cli/src/ops/derive.rs:87-94 | the file made of a derived declaration, if the checker accepts it, registers without conflict |
| DerivedConformance.ProvidedFlat | lib/derive/lib.rs:196-247 | what is registered for a derived declaration is exactly what it declares, inside and out |
| DerivedConformance.StructAgrees | lib/derive/lib.rs:153-516 | the values of a declaration built from a structure are exactly the documents with that structure: required keys present, nulls only where optional, numbers, texts and points in time of the right kind, elements and inner declarations in turn, and sub-types by their tag |
| DerivedConformance.DerivedAdmits | lib/derive/lib.rs:520-544 | so for every accepted derived file, all names resolved in it, and every document |
| DerivedConformance.FitsPlain | lib/derive/sir.rs:87-151 | of the documents that fit a structure, exactly those have it that are plain: no null in an array or tuple, no number too wide for its type, no array of an interface below the top |
| DerivedConformance.DerivedDescribes | lib/derive/lib.rs:520-544 | a document that fits a structure is described by the accepted declaration derived from it if and only if it is plain |
| DerivedConformance.InferredDescribes | cli/src/ops/derive.rs:85-94 | the same for the structure that is inferred from the document itself |
| DerivedConformance.NullElement | lib/derive/sir.rs:134-147 | `{"a": [1, null]}` is not a value of its own schema |
| DerivedConformance.WideElement | lib/derive/sir.rs:90-94 | nor is `{"a": [18446744073709551615, -1]}` |
| DerivedConformance.NullItem | lib/derive/sir.rs:192-201 | nor is `{"a": [null, {}]}`, because all fields of a tuple are required |
| DerivedConformance.NestedInterface | lib/derive/lib.rs:203-230 | nor is any document with an array of an interface in a field, which is declared as one object |
| DeriveTraps.ClashingOnce | lib/derive/lib.rs:196-230 | `{"a_b": {"m": 1}, "aB": {"n": "z"}}` meets the condition exactly if case conversion tells its keys apart |
| DeriveTraps.DeriveClashing | lib/derive/lib.rs:520-544 | otherwise two different declarations share a path |
| DeriveTraps.RepeatingOnce | lib/derive/lib.rs:196-230 | in a document where the structures under `z_b` and `zB` occurred before, it does not matter whether it tells those keys apart |
| DeriveTraps.DeriveUnusualTag | lib/derive/lib.rs:419-455 | whatever the sub-types are, an interface with another tag than `type` derives a declaration that the checker refuses |
| SemverVersion.VersionOrder | lib/semver/version.rs:261-307 | `cmp` is a total order whose equality is `==`, which ignores build data |
| SemverVersion.PrecedenceIsCompare | lib/semver/version.rs:280-307 | it is the precedence of section 11 of Semantic Versioning 2.0.0, written independently |
| SemverRange.PredicateInterval | lib/semver/range.rs:214-376 | on releases, and on pre-releases of the predicate's own triple, matching is membership in the documented interval |
| SemverRange.SingleRange | lib/semver/range.rs:183-268 | a single-predicate range matches exactly the versions in its interval that are releases or share a pre-release predicate's triple |
| SemverRange.PredicateCovers | lib/semver/range.rs:214-376 | for every predicate of the form the parser gives and every version, pre-releases included: it matches exactly what lies between the bounds of its interval, where a pre-release tag counts only against the bounds that the predicate names in full |
| SemverRange.RangeMeaning | lib/semver/range.rs:183-194 | a range of any number of predicates matches a release exactly if it is inside the interval of each, and a pre-release exactly if each covers it and one shares its triple |
| SemverRange.ReleasesConvex | lib/semver/range.rs:183-194 | the releases that a range matches are convex in the version order |
| SemverRange.ComparatorsAreOrder | lib/semver/range.rs:214-299 | for full triples the five comparators are the comparisons of the version order |
| SemverParser.Lexer.ScanWord | lib/semver/lexer.rs:198-217 | scans exactly the maximal run of letters and digits and classifies it |
| SemverParser.Lexer.Next | lib/semver/lexer.rs:226-275 | with its two-character lookahead the lexer yields the tokens of `SemverSyntax.Lex` one by one |
| SemverParser.Parser.PopToken | lib/semver/parser.rs:133-142 | takes the lookahead token and reads one further, so a lexer error surfaces one token early |
| SemverParser.Parser.ReadParts | lib/semver/parser.rs:249-269 | the loop reads exactly the identifiers separated by dots and hyphens |
| SemverParser.Parser.ReadPredicate | lib/semver/parser.rs:310-348 | operator, components, pre-release and build data of one predicate, with wildcards taking over the operator |
| SemverParser.Parser.ReadRange | lib/semver/parser.rs:351-363 | the loop reads exactly the comma-separated predicates |
| SemverParser.Parser.ReadVersion | lib/semver/parser.rs:368-386 | the five parts of a version |
| SemverParser.ParseVersionText | lib/semver/version.rs:186-196 | the class-based parser computes `SemverSyntax.ParseVersion` on every input, errors included |
| SemverParser.ParseRangeText | lib/semver/range.rs:142-156 | and `SemverSyntax.ParseRange` |
| SemverPrinter.WriteVersion | lib/semver/version.rs:235-259 | the display loops write the version's text |
| SemverPrinter.WritePredicate | lib/semver/range.rs:396-432 | and that of a predicate, dropping components behind a wildcard |
| SemverPrinter.WriteRange | lib/semver/range.rs:378-394 | and that of a range |
| SemverRoundTrip.LexPieces | lib/semver/lexer.rs:226-275 | text assembled from pieces that do not run together lexes back to exactly those pieces |
| SemverRoundTrip.PrintedVersionParses | lib/semver/version.rs:235-259 | printing a canonical version and parsing it returns all five fields |
| SemverRoundTrip.ParsedVersionCanonical | lib/semver/parser.rs:368-386 | every version the parser returns is canonical |
| SemverRoundTrip.VersionRoundTrip | lib/semver/version.rs:186-259 | printing and parsing returns the version itself if and only if it is canonical |
| SemverRoundTrip.PrintedRangeParses | lib/semver/range.rs:378-449 | every canonical range prints and reparses to its normal form |
| SemverRoundTrip.ParsedRangeCanonical | lib/semver/parser.rs:310-363 | every range the parser returns is canonical |
| SemverRoundTrip.RangeRoundTrip | lib/semver/range.rs:183-449 | for every input the parser accepts: printing and reparsing succeeds, the result matches exactly the same versions, and printing it again changes nothing |
| SemverRoundTrip.OmittedOperator | lib/semver/parser.rs:310-348 | a predicate without an operator is read as the same predicate with `^` |
| SemverRoundTrip.WildcardSpellings | lib/semver/lexer.rs:198-275 | the tokens for `*`, `x` and `X` are read as the same wildcard component |
| IdlNumber.ParseFraction | lib/lexer/lexer.rs:122-133 | skipped zeros and value of a fraction; the empty one is an error |
| IdlNumber.ApplyFraction | lib/lexer/lexer.rs:135-148 | the loop shifts once per significant digit and counts decimals in step |
| IdlNumber.ApplyExponent | lib/lexer/lexer.rs:150-165 | the loop removes decimals first and multiplies afterwards |
| IdlNumber.ExponentExact | lib/lexer/lexer.rs:150-165 | exponents never lose anything |
| IdlNumber.NumberExact | lib/lexer/lexer.rs:178-228 | the number read is the rational written if and only if the whole part is zero, or the fraction is absent, does not start with a zero, or is all zeros |
| IdlNumber.LostZero | lib/lexer/lexer.rs:135-148 | `1.05` is read as 15 hundredths |
| IdlLexer.Lexer.Take | lib/lexer/macros.rs:35-58 | consumes exactly the maximal run of a character class |
| IdlLexer.Lexer.TakeLine | lib/lexer/macros.rs:4-31 | consumes a line and the line breaks after it, and yields the line |
| IdlLexer.Lexer.ParseNumber | lib/lexer/lexer.rs:178-228 | sign, whole part, fraction and exponent, folded into the number of the literal |
| IdlLexer.Lexer.Escape | lib/lexer/lexer.rs:248-284 | the character an escape sequence stands for |
| IdlLexer.Lexer.DecodeUnicode4 | lib/lexer/lexer.rs:231-246 | four hexadecimal digits, most significant first, unless they name no character |
| IdlLexer.Lexer.StringToken | lib/lexer/lexer.rs:288-310 | the text up to the closing quote, escapes resolved |
| IdlLexer.Lexer.DocComments | lib/lexer/lexer.rs:338-370 | the lines of a documentation comment, through blank space between them |
| IdlLexer.Lexer.CodeBlock | lib/lexer/lexer.rs:314-335 | everything up to the next two closing braces, leaving a closing token to be emitted |
| IdlLexer.Lexer.SkipBlanks | lib/lexer/lexer.rs:372-389 | skips exactly whitespace, line comments and block comments |
| IdlLexer.Lexer.Next | lib/lexer/lexer.rs:392-478 | the next token, its span and the next mode are those of `IdlSyntax.NextStep`; what that reads is the subject of `IdlTexts` |
| IdlRuns.StepProgress | lib/lexer/lexer.rs:392-478 | every token uses up text or the pending closing token, and starts in order |
| IdlRuns.AtMostOnePerCharacter | lib/lexer/lexer.rs:392-478 | lexing any text ends after at most one token per character |
| IdlRuns.StartsInOrder | lib/lexer/lexer.rs:314-478 | token starts never decrease |
| IdlRuns.NothingLost | lib/lexer/lexer.rs:314-478 | in a run that succeeds every character is in some token's span, is whitespace, or is inside a comment |
| IdlRuns.Tokenize | lib/lexer/lexer.rs:482-512 | draining the lexer collects exactly the tokens of the run |
| IdlTexts.SymbolRead | lib/lexer/lexer.rs:392-478 | the text of each symbol is read as that symbol, whatever follows that does not extend it |
| IdlTexts.KeywordRead | lib/lexer/lexer.rs:23-48 | the text of each keyword, before anything that is not part of a name, is read as that keyword |
| IdlTexts.IdentifierRead | lib/lexer/lexer.rs:98-120 | so is every name that is not a keyword |
| IdlTexts.EscapedRead | lib/lexer/lexer.rs:98-120 | and every name behind an underscore, keyword or not |
| IdlTexts.TypeIdentifierRead | lib/lexer/lexer.rs:392-478 | and every name that starts with a capital, as a type's |
| IdlTexts.StringRead | lib/lexer/lexer.rs:231-310 | every text, written between quotes with `\uXXXX` for what cannot stand there as it is, is read as its characters |
| IdlTexts.NumberRead | lib/lexer/lexer.rs:178-228 | a written number is read as the number that its literal denotes |
| IdlTexts.WrittenTextRead | lib/lexer/lexer.rs:392-512 | a whole text assembled from the texts of tokens, kept apart where they would run together, is read as exactly those tokens |
| IdlPrinting.WriteQuoted | lib/backend-reproto/lib.rs:104-120 | the printing loop writes each character or its escape |
| IdlPrinting.QuotedRoundTrip | lib/backend-reproto/lib.rs:104-120 | a printed string is read back as one token with the original text if and only if it has no `'`, U+0007 or U+0014 |
| IdlPrinting.GuardedRoundTrip | lib/backend-reproto/lib.rs:273-279 | a printed field name is always read back as that identifier, never as a keyword |
| IdlPrinting.UnguardedRoundTrip | lib/lexer/token.rs:30-80 | without the guard this holds exactly for names that are the identifier of no keyword |
| IdlPrinting.KeywordIff | lib/lexer/lexer.rs:23-48 | a word is a keyword exactly if it is the identifier of one, and of no other |
| IdlPrinting.FirstToken | lib/lexer/lexer.rs:392-478 | those readings are what the lexer does at the start of a text |
| Utf16.LineStartEncoded | lib/languageserver/lib.rs:1084-1111 | lines start at the same places in characters and in code units |
| Utf16.UnitsDecode | lib/languageserver/lib.rs:1084-1111 | the code units of a character are those whose code point it is, one unit below 2^16 and a pair above |
| Utf16.TranslateRopePosition | lib/languageserver/lib.rs:1084-1111 | the loop finds the character at a code unit, or fails inside a pair |
| Utf16.PositionTranslates | lib/languageserver/lib.rs:1084-1111 | every valid position is translated to the character at exactly that code unit |
| Utf16.ApplyContentChanges | lib/languageserver/lib.rs:1057-1081 | the loop over changes replaces, in order, the translated ranges |
| Utf16.EditsCommute | lib/languageserver/lib.rs:1057-1111 | for any list of changes with valid positions, editing by characters and splicing the UTF-16 encoding give the same document |
| Utf16.ClampedIff | lib/languageserver/lib.rs:1084-1111 | on a line that exists, the server finds the character at the offset the protocol means (clamped to the line) if and only if the position is within the line and not inside a pair, or past the end of a line without a line feed |
| Utf16.PastTheEnd | lib/languageserver/lib.rs:1095-1108 | a position past the end of its line is translated to the clamped offset, or, if the line ends in a line feed, to one code unit more |
| Utf16.InsidePair | lib/languageserver/lib.rs:1095-1108 | a position inside a surrogate pair is refused exactly if the pair does not end the line |
| Naming.InternalFormat | lib/naming/lib.rs:215-256 | the loop computes `Format` |
| Naming.SpellingsConvert | lib/naming/lib.rs:258-356 | words written in lower camel, upper camel or snake case are converted into each of the four styles as that style spells them; the documented examples are instances |
| Naming.ThroughSnake | lib/naming/lib.rs:215-256 | converting the lower-snake form is converting the original, into any style |
| Naming.ThroughCamel | lib/naming/lib.rs:215-256 | so is converting a camel form into a camel style |
| Naming.Idempotent | lib/naming/lib.rs:215-256 | lower snake, lower camel and upper camel are idempotent |
| Naming.CamelToSnake | lib/naming/lib.rs:215-256 | lower snake survives a detour over upper camel if and only if every later section starts with a letter |
| Naming.UpperSnakeTwice | lib/naming/lib.rs:215-256 | upper snake is idempotent on exactly the texts in which every lower-case letter after the first character that is not an underscore directly follows one |

## Left out

- JsPipeline.AcceptedRoundTrips: does not cover fields or tags called `__proto__`, to which assignment sets a prototype, and types imported from other packages, whose import statements are not part of this model.
- JsRoundTrip.SurvivesIff: numbers are finite reals without rounding, and encoding is only studied on well-typed values.
- JsDecoding.Decoded: says that what is returned is well-typed, not which data a decoder accepts besides encodings.
- DerivedConformance.DerivedDescribes: of a number only its kind is known, and conformance is not related to what emitted decoders accept.
- Checker.IntoField: the format attribute and the conversion of a type arrive already resolved.
- Checker.IntoDecl: service declarations are not modelled.
- Registry.IntoFile: file attributes, and the features and naming policies they select, are not modelled.
- Session.Session.LoadFile: the same attributes are not modelled.
- Inference.FromJson: how a number is best represented and whether a string is a point in time are given with the document.
- JavaScript: properties of functions and of primitive values, and prototypes other than `Object.prototype`.
- The other back ends, and everything about the Dart one except its untagged dispatch: the same codec shape again.
- Services, endpoints, path variables, features, code blocks and comments of a schema; attributes other than `type_info`, `reserved` and the format of a field, and attributes given twice.
- Resolving type names through prefixes: names in checked schemas are full paths already.
- Session.Session.Import: a session continued after a failed import is not described; its memo may hold packages that were never loaded.
- The package prefix, naming and keyword replacement that are applied after packages are named.
- PackageRounds.Packages: for versions that no parser produces, only totality and the number of rounds are stated, not the names.
- Examples attached to inferred scalars and the comments made from them.
- Fitting.InferredFits: nulls are taken to fit any scalar, as the inferred structures do not record them outside object fields.
- Incrementing versions, 64-bit overflow in ranges, and token spans of the version lexer.
- IdlLexer.Lexer.Next: positions count characters instead of bytes, the three characters of lookahead are read from the text, and errors carry no message or position.
- IdlNumber.NumberExact: the exponent -2147483648, whose absolute value overflows, is an error in the model.
- Utf16.EditsCommute: lines end with a line feed only; positions on lines that do not exist, and ranges that end before they start, stop the server and are excluded.
- Naming.InternalFormat: letters outside ASCII are left unchanged.
- Reading files, the network, the command line, and everything the language server does besides edits.
