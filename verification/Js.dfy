/** The fragment of JavaScript that the backend emits, and what running it does.

    An object is a map of own properties; a name it does not own may still be inherited from
    `Object.prototype`, in which case reading it yields a function. */
module Js {
  import Decimal
  import opened Joined

  type Path = seq<string>

  datatype Number = Finite(r: real) | NaN | Infinite(positive: bool)

  datatype Val =
    | Undefined
    | Null
    | Function
    | Bool(b: bool)
    | Num(n: Number)
    | Str(s: string)
    | Arr(elems: seq<Val>)
    | Obj(props: map<string, Val>)
    | Inst(cls: Path, members: map<string, Val>)

  datatype Outcome<+T> = Returns(value: T) | Throws

  /** `x !== null && x !== undefined` */
  predicate Defined(v: Val) { v != Null && v != Undefined }

  // Emitted code

  /** The expression that encodes a value of some type. */
  datatype EncCode =
    | Same
    | MapElems(elem: EncCode)
    | MapEntries(key: EncCode, value: EncCode)
    | CallEncode

  /** The statements that check and decode a variable in place. */
  datatype DecCode =
    | Keep
    | CheckInteger
    | CheckFloat
    | CheckBool
    | CheckString
    | LoopElems(elem: DecCode)
    | LoopEntries(key: DecCode, value: DecCode)
    | CallDecode(cls: Path)

  datatype EncStmt =
    | PutConst(key: string, text: string)
    | PutIfDefined(member: string, key: string, code: EncCode)
    | PutRequired(member: string, key: string, code: EncCode)

  datatype EncodeBody =
    | NoEncode
    | EncodeObject(stmts: seq<EncStmt>)
    | EncodeTuple(guards: seq<string>, values: seq<(string, EncCode)>)
    | EncodeMember(member: string)

  datatype Key = Named(name: string) | Indexed(index: nat)

  datatype DecBlock = DecBlock(local: string, key: Key, required: bool, code: DecCode)

  datatype DecodeBody =
    | DecodeNew(blocks: seq<DecBlock>, cls: Path, args: seq<string>)
    | DecodeMember(field: string, values: seq<Val>)
    | DecodeTagged(tag: string, cases: seq<(string, Path)>)
    | DecodeUntagged(choices: seq<(seq<string>, Path)>)

  datatype Class = Class(params: seq<string>, encode: EncodeBody, decode: DecodeBody)

  /** Globals that decoders call functions of. */
  const GLOBALS: set<string> := {"Number", "Array", "Object"}

  /** What emitted code finds around it: names that every object inherits from `Object.prototype`, and
      those of `GLOBALS` that stand for a class of the module instead. */
  datatype Host = Host(inherited: set<string>, shadowed: set<string>)

  /** The emitted module of a package. */
  datatype Program = Program(package: Path, classes: map<Path, Class>, inherited: set<string>) {
    /** The name that the module binds a class to. */
    function Binding(cls: Path): string {
      if package < cls then Join(cls[|package|..]) else ""
    }

    predicate Shadows(name: string) { exists cls :: cls in classes && Binding(cls) == name }

    function Hosted(): Host { Host(inherited, set g <- GLOBALS | Shadows(g)) }
  }

  // Property access

  function GetNamed(p: Program, v: Val, key: string): (r: Outcome<Val>)
    ensures r.Returns? && r.value != Undefined && r.value != Function ==> r.value < v
  {
    if !Defined(v) then Throws
    else if v.Obj? && key in v.props then Returns(v.props[key])
    else if v.Inst? && key in v.members then Returns(v.members[key])
    else if key in p.inherited then Returns(Function)
    else Returns(Undefined)
  }

  function GetIndexed(v: Val, i: nat): (r: Outcome<Val>)
    ensures r.Returns? && r.value != Undefined && r.value != Function ==> r.value < v
  {
    match v
    case Undefined => Throws
    case Null => Throws
    case Arr(elems) => Returns(if i < |elems| then elems[i] else Undefined)
    case Obj(props) => Returns(if Decimal.Digits(i) in props then props[Decimal.Digits(i)] else Undefined)
    case Inst(_, members) =>
      Returns(if Decimal.Digits(i) in members then members[Decimal.Digits(i)] else Undefined)
    case _ => Returns(Undefined)
  }

  function Get(p: Program, v: Val, key: Key): (r: Outcome<Val>)
    ensures r.Returns? && r.value != Undefined && r.value != Function ==> r.value < v
  {
    match key
    case Named(name) => GetNamed(p, v, name)
    case Indexed(i) => GetIndexed(v, i)
  }

  function Member(this_: Val, name: string): (v: Val)
    requires this_.Inst?
    ensures v != Undefined ==> v < this_
  {
    if name in this_.members then this_.members[name] else Undefined
  }

  /** `o["__proto__"] = x` gives `o` another prototype instead of a property. */
  const PROTO := "__proto__"

  // Running `encode`

  function RunEnc(p: Program, code: EncCode, v: Val): Outcome<Val>
    decreases v, 3
  {
    match code
    case Same => Returns(v)
    case MapElems(elem) =>
      if v.Arr? && forall i :: 0 <= i < |v.elems| ==> RunEnc(p, elem, v.elems[i]).Returns? then
        Returns(Arr(seq(|v.elems|, i requires 0 <= i < |v.elems| => RunEnc(p, elem, v.elems[i]).value)))
      else Throws
    case MapEntries(key, value) =>
      if v.Obj? && (v.props == map[] || key.Same?) && forall k :: k in v.props ==> RunEnc(p, value, v.props[k]).Returns?
      then
        Returns(Obj(map k | k in v.props && k != PROTO :: RunEnc(p, value, v.props[k]).value))
      else Throws
    case CallEncode => RunEncode(p, v)
  }

  /** `v.encode()`: the method of v's class, unless a member of the instance shadows it. */
  function RunEncode(p: Program, v: Val): Outcome<Val>
    decreases v, 2
  {
    if !v.Inst? || "encode" in v.members || v.cls !in p.classes then Throws
    else
      match p.classes[v.cls].encode
      case NoEncode => Throws
      case EncodeMember(member) => Returns(Member(v, member))
      case EncodeObject(stmts) =>
        (match RunStmts(p, v, stmts)
         case Returns(data) => Returns(Obj(data))
         case Throws => Throws)
      case EncodeTuple(guards, values) =>
        if (forall g :: g in guards ==> Defined(Member(v, g))) &&
           (forall i :: 0 <= i < |values| ==> RunMember(p, v, values[i].0, values[i].1).Returns?)
        then
          Returns(Arr(seq(|values|, i requires 0 <= i < |values| =>
            RunMember(p, v, values[i].0, values[i].1).value)))
        else Throws
  }

  function RunMember(p: Program, v: Val, member: string, code: EncCode): Outcome<Val>
    requires v.Inst?
    decreases v, 0
  {
    var x := Member(v, member);
    if x == Undefined then Throws else RunEnc(p, code, x)
  }

  function RunStmts(p: Program, v: Val, stmts: seq<EncStmt>): Outcome<map<string, Val>>
    requires v.Inst?
    decreases v, 1, |stmts|
  {
    if stmts == [] then Returns(map[])
    else
      var prefix := RunStmts(p, v, stmts[..|stmts| - 1]);
      if prefix.Throws? then Throws
      else
        match stmts[|stmts| - 1]
        case PutConst(key, text) => Returns(prefix.value[key := Str(text)])
        case PutIfDefined(member, key, code) =>
          if !Defined(Member(v, member)) then prefix
          else Put(prefix.value, key, RunMember(p, v, member, code))
        case PutRequired(member, key, code) =>
          if !Defined(Member(v, member)) then Throws
          else Put(prefix.value, key, RunMember(p, v, member, code))
  }

  function Put(data: map<string, Val>, key: string, value: Outcome<Val>): Outcome<map<string, Val>> {
    if value.Returns? then Returns(data[key := value.value]) else Throws
  }

  // Running `decode`

  function RunDec(p: Program, code: DecCode, v: Val): Outcome<Val>
    decreases v, 3
  {
    match code
    case Keep => Returns(v)
    case CheckInteger =>
      if "Number" !in p.Hosted().shadowed && v.Num? && v.n.Finite? && v.n.r == v.n.r.Floor as real then Returns(v)
      else Throws
    case CheckFloat => if "Number" !in p.Hosted().shadowed && v.Num? && v.n.Finite? then Returns(v) else Throws
    case CheckBool => if v.Bool? then Returns(v) else Throws
    case CheckString => if v.Str? then Returns(v) else Throws
    case LoopElems(elem) =>
      if "Array" !in p.Hosted().shadowed && v.Arr? &&
         forall i :: 0 <= i < |v.elems| ==> RunDec(p, elem, v.elems[i]).Returns?
      then
        Returns(Arr(seq(|v.elems|, i requires 0 <= i < |v.elems| => RunDec(p, elem, v.elems[i]).value)))
      else Throws
    case LoopEntries(key, value) =>
      var entries := Entries(v);
      if "Object" !in p.Hosted().shadowed && (v.Arr? || v.Obj? || v.Inst?) then
        if (entries == map[] || key.Keep? || key.CheckString?) &&
           forall k :: k in entries ==> RunDec(p, value, entries[k]).Returns?
        then Returns(Obj(map k | k in entries && k != PROTO :: RunDec(p, value, entries[k]).value))
        else Throws
      else Throws
    case CallDecode(cls) =>
      if cls in p.classes then RunDecode(p, p.classes[cls].decode, v) else Throws
  }

  /** `Object.entries` of a value that passes the `typeof v === "object"` check. */
  function Entries(v: Val): (m: map<string, Val>)
    ensures forall k :: k in m ==> m[k] < v
  {
    match v
    case Obj(props) => props
    case Inst(_, members) => members
    case Arr(elems) => IndexMap(elems)
    case _ => map[]
  }

  function IndexMap(elems: seq<Val>): (m: map<string, Val>)
    ensures forall k :: k in m ==> m[k] in elems
  {
    if elems == [] then map[]
    else
      var n := |elems| - 1;
      IndexMap(elems[..n])[Decimal.Digits(n) := elems[n]]
  }

  function RunDecode(p: Program, body: DecodeBody, data: Val): Outcome<Val>
    decreases data, 2
  {
    match body
    case DecodeNew(_, _, _) => RunNew(p, body, data)
    case DecodeMember(field, values) => FindMember(field, values, data)
    case DecodeTagged(tag, cases) =>
      var found := GetNamed(p, data, tag);
      if found.Throws? || !found.value.Str? then Throws
      else RunCase(p, FindCase(cases, found.value.s), data)
    case DecodeUntagged(choices) =>
      RunCase(p, FindChoice(choices, OwnKeys(data) + p.inherited), data)
  }

  /** `return Sub.decode(data)`, where Sub is a class with fields. */
  function RunCase(p: Program, target: Outcome<Path>, data: Val): Outcome<Val>
    decreases data, 1
  {
    if target.Returns? && target.value in p.classes && p.classes[target.value].decode.DecodeNew? then
      RunNew(p, p.classes[target.value].decode, data)
    else Throws
  }

  function FindMember(field: string, values: seq<Val>, data: Val): Outcome<Val> {
    if values == [] then Throws
    else if values[0].Inst? && Member(values[0], field) == data then Returns(values[0])
    else FindMember(field, values[1..], data)
  }

  function FindCase(cases: seq<(string, Path)>, name: string): Outcome<Path> {
    if cases == [] then Throws
    else if cases[0].0 == name then Returns(cases[0].1)
    else FindCase(cases[1..], name)
  }

  function FindChoice(choices: seq<(seq<string>, Path)>, keys: set<string>): Outcome<Path> {
    if choices == [] then Throws
    else if forall k :: k in choices[0].0 ==> k in keys then Returns(choices[0].1)
    else FindChoice(choices[1..], keys)
  }

  function OwnKeys(v: Val): set<string> {
    match v
    case Obj(props) => props.Keys
    case Inst(_, members) => members.Keys
    case Arr(elems) => IndexMap(elems).Keys
    case _ => {}
  }

  function RunNew(p: Program, body: DecodeBody, data: Val): Outcome<Val>
    requires body.DecodeNew?
    decreases data, 0, |body.blocks| + 1
  {
    var locals := RunBlocks(p, body.blocks, data);
    if locals.Throws? || body.cls !in p.classes then Throws
    else Returns(Inst(body.cls, Construct(p.classes[body.cls].params, body.args, locals.value)))
  }

  /** `this.param = arg` for every parameter, in order. */
  function Construct(params: seq<string>, args: seq<string>, locals: map<string, Val>): map<string, Val> {
    if params == [] then map[]
    else
      var n := |params| - 1;
      var value := if n < |args| && args[n] in locals then locals[args[n]] else Undefined;
      Construct(params[..n], args, locals)[params[n] := value]
  }

  function RunBlocks(p: Program, blocks: seq<DecBlock>, data: Val): Outcome<map<string, Val>>
    decreases data, 0, |blocks|
  {
    if blocks == [] then Returns(map[])
    else
      var last := blocks[|blocks| - 1];
      var prefix := RunBlocks(p, blocks[..|blocks| - 1], data);
      if prefix.Throws? then Throws
      else Put(prefix.value, last.local, RunBlock(p, last, data))
  }

  function RunBlock(p: Program, block: DecBlock, data: Val): Outcome<Val>
    decreases data, 0, 0
  {
    var found := Get(p, data, block.key);
    if found.Throws? then Throws
    else if !Defined(found.value) then
      if block.required then Throws else Returns(Null)
    else if found.value == Function then
      if block.code.Keep? then Returns(Function) else Throws
    else RunDec(p, block.code, found.value)
  }

  // Loading

  /** Words that no binding of a module may have: the reserved words, those reserved in strict code, and
      the two names that strict code refuses to bind (sections 12.7.2 and 13.1.1 of ECMAScript 2023). */
  predicate Reserved(s: string) {
    s in {
      "await", "break", "case", "catch", "class", "const", "continue", "debugger", "default", "delete", "do", "else",
      "enum", "export", "extends", "false", "finally", "for", "function", "if", "import", "in", "instanceof", "new",
      "null", "return", "super", "switch", "this", "throw", "true", "try", "typeof", "var", "void", "while", "with",
      "yield", "let", "static", "implements", "interface", "package", "private", "protected", "public", "eval",
      "arguments"
    }
  }

  predicate StartsIdentifier(c: char) { 'a' <= c <= 'z' || 'A' <= c <= 'Z' || c == '_' || c == '$' }

  predicate ContinuesIdentifier(c: char) { StartsIdentifier(c) || '0' <= c <= '9' }

  predicate IdentifierText(s: string) {
    s != "" && StartsIdentifier(s[0]) && forall i :: 0 <= i < |s| ==> ContinuesIdentifier(s[i])
  }

  /** What may be bound by a parameter, a `let` or a `class`. */
  predicate BindingName(s: string) { IdentifierText(s) && !Reserved(s) }

  /** No name is bound twice in one scope. */
  predicate Bindings(names: seq<string>) {
    && (forall i :: 0 <= i < |names| ==> BindingName(names[i]))
    && (forall i, j :: 0 <= i < j < |names| ==> names[i] != names[j])
  }

  /** Code that collects what it decodes in a `let` of its own. */
  predicate Collects(code: DecCode) { code.LoopElems? || code.LoopEntries? }

  /** The key and the value of a map entry are decoded in one block, and would collect in the same name. */
  predicate CodeLoads(code: DecCode) {
    match code
    case LoopElems(elem) => CodeLoads(elem)
    case LoopEntries(key, value) => !(Collects(key) && Collects(value)) && CodeLoads(key) && CodeLoads(value)
    case _ => true
  }

  /** The names bound in the scope of `decode` itself: optional fields are decoded in blocks of their own,
      required ones are not. */
  function Lets(blocks: seq<DecBlock>): seq<string> {
    if blocks == [] then []
    else
      var last := blocks[|blocks| - 1];
      Lets(blocks[..|blocks| - 1]) + [last.local] + if last.required && Collects(last.code) then ["o0"] else []
  }

  /** No syntax error in the class: bindings are legal, and no test of required keys is `if ()`. */
  predicate ClassLoads(c: Class) {
    && Bindings(c.params)
    && match c.decode
       case DecodeNew(blocks, _, _) =>
         Bindings(Lets(blocks)) && forall i :: 0 <= i < |blocks| ==> CodeLoads(blocks[i].code)
       case DecodeUntagged(choices) => forall i :: 0 <= i < |choices| ==> choices[i].0 != []
       case _ => true
  }

  /** The module can be loaded at all. */
  predicate Loads(p: Program) {
    && (forall c :: c in p.classes ==> ClassLoads(p.classes[c]) && BindingName(p.Binding(c)))
    && (forall c, d :: c in p.classes && d in p.classes && c != d ==> p.Binding(c) != p.Binding(d))
  }
}
