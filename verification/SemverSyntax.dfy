/** The grammar of versions and ranges as functions: what the lexer (lib/semver/lexer.rs) and the
    recursive-descent parser (lib/semver/parser.rs) compute, and what `Display` prints. */
module SemverSyntax {
  import opened Wrappers
  import Decimal
  import opened SemverVersion
  import opened SemverRange

  const U64_MAX: nat := 0xFFFF_FFFF_FFFF_FFFF

  datatype Token =
    | EqT | GtT | LtT | LtEqT | GtEqT | CaretT | TildeT | StarT | DotT | CommaT | HyphenT | PlusT | OrT
    | WhitespaceT
    | NumericT(n: nat)
    | AlphaNumericT(s: string)

  /** A lazily lexed input: its tokens, ending at the end of input or at a bad character. */
  datatype Tokens = End | Bad(c: char) | More(head: Token, tail: Tokens)

  // Lexing

  predicate IsAlnum(c: char) { '0' <= c <= '9' || 'a' <= c <= 'z' || 'A' <= c <= 'Z' }

  predicate IsSpace(c: char) { c == ' ' || c == '\t' || c == '\n' || c == '\r' }

  /** Length of the longest prefix of letters and digits. */
  function AlnumSpan(s: string): (n: nat)
    ensures n <= |s| && (forall i :: 0 <= i < n ==> IsAlnum(s[i])) && (n < |s| ==> !IsAlnum(s[n]))
  {
    if s == "" || !IsAlnum(s[0]) then 0 else 1 + AlnumSpan(s[1..])
  }

  function SpaceSpan(s: string): (n: nat)
    ensures n <= |s| && (forall i :: 0 <= i < n ==> IsSpace(s[i])) && (n < |s| ==> !IsSpace(s[n]))
  {
    if s == "" || !IsSpace(s[0]) then 0 else 1 + SpaceSpan(s[1..])
  }

  /** Numbers without leading zeros that fit 64 bits are numeric, everything else alphanumeric. */
  function ComponentToken(w: string): Token {
    if w == "0" then NumericT(0)
    else if w != "" && w[0] != '0' && Decimal.AllDigits(w) && Decimal.Value(w) <= U64_MAX then
      NumericT(Decimal.Value(w))
    else AlphaNumericT(w)
  }

  function TwoCharToken(a: char, b: char): Option<Token> {
    if a == '<' && b == '=' then Some(LtEqT)
    else if a == '>' && b == '=' then Some(GtEqT)
    else if a == '|' && b == '|' then Some(OrT)
    else None
  }

  function OneCharToken(c: char): Option<Token> {
    match c
    case '=' => Some(EqT)
    case '>' => Some(GtT)
    case '<' => Some(LtT)
    case '^' => Some(CaretT)
    case '~' => Some(TildeT)
    case '*' => Some(StarT)
    case '.' => Some(DotT)
    case ',' => Some(CommaT)
    case '-' => Some(HyphenT)
    case '+' => Some(PlusT)
    case _ => None
  }

  function Lex(s: string): Tokens {
    if s == "" then End
    else if |s| >= 2 && TwoCharToken(s[0], s[1]).Some? then More(TwoCharToken(s[0], s[1]).value, Lex(s[2..]))
    else if IsSpace(s[0]) then More(WhitespaceT, Lex(s[SpaceSpan(s)..]))
    else if IsAlnum(s[0]) then More(ComponentToken(s[..AlnumSpan(s)]), Lex(s[AlnumSpan(s)..]))
    else if OneCharToken(s[0]).Some? then More(OneCharToken(s[0]).value, Lex(s[1..]))
    else Bad(s[0])
  }

  // Parsing

  datatype Error = UnexpectedEnd | UnexpectedToken | LexerError | EmptyPredicate | MoreInput

  datatype Parsed<+T> = Yes(value: T, rest: Tokens) | No(error: Error)

  function Count(ts: Tokens): nat { if ts.More? then 1 + Count(ts.tail) else 0 }

  /** Taking a token looks one token ahead, so a bad character is an error one token early. */
  function Pop(ts: Tokens): (r: Parsed<Token>)
    ensures r.Yes? ==> Count(r.rest) < Count(ts)
  {
    if ts.End? then No(UnexpectedEnd)
    else if ts.Bad? || ts.tail.Bad? then No(LexerError)
    else Yes(ts.head, ts.tail)
  }

  function Skip(ts: Tokens): (r: Parsed<()>)
    ensures r.Yes? ==> Count(r.rest) < Count(ts)
  {
    match Pop(ts)
    case No(e) => No(e)
    case Yes(_, rest) => Yes((), rest)
  }

  predicate At(ts: Tokens, t: Token) { ts.More? && ts.head == t }

  function SkipWhitespace(ts: Tokens): (r: Parsed<()>)
    ensures r.Yes? ==> Count(r.rest) <= Count(ts)
  {
    if At(ts, WhitespaceT) then Skip(ts) else Yes((), ts)
  }

  predicate IsWildcard(t: Token) {
    t.StarT? || (t.AlphaNumericT? && (t.s == "x" || t.s == "X"))
  }

  function Component(ts: Tokens): (r: Parsed<Option<nat>>)
    ensures r.Yes? ==> Count(r.rest) < Count(ts)
  {
    match Pop(ts)
    case No(e) => No(e)
    case Yes(t, rest) =>
      if t.NumericT? then Yes(Some(t.n), rest)
      else if IsWildcard(t) then Yes(None, rest)
      else No(UnexpectedToken)
  }

  function NumericPart(ts: Tokens): Parsed<nat> {
    match Pop(ts)
    case No(e) => No(e)
    case Yes(t, rest) => if t.NumericT? then Yes(t.n, rest) else No(UnexpectedToken)
  }

  /** The number after a dot, and whether a wildcard stood there instead. */
  function DotComponent(ts: Tokens): (r: Parsed<(Option<nat>, bool)>)
    ensures r.Yes? ==> Count(r.rest) <= Count(ts)
  {
    if !At(ts, DotT) then Yes((None, false), ts)
    else
      match Skip(ts)
      case No(e) => No(e)
      case Yes(_, after) =>
        match Component(after)
        case No(e) => No(e)
        case Yes(n, rest) => Yes((n, n.None?), rest)
  }

  function DotNumeric(ts: Tokens): Parsed<nat> {
    match Pop(ts)
    case No(e) => No(e)
    case Yes(t, rest) => if t.DotT? then NumericPart(rest) else No(UnexpectedToken)
  }

  function IdentifierPart(ts: Tokens): (r: Parsed<Identifier>)
    ensures r.Yes? ==> Count(r.rest) < Count(ts)
  {
    match Pop(ts)
    case No(e) => No(e)
    case Yes(t, rest) =>
      if t.AlphaNumericT? then Yes(AlphaNumeric(t.s), rest)
      else if t.NumericT? then Yes(Numeric(t.n), rest)
      else No(UnexpectedToken)
  }

  predicate AtSeparator(ts: Tokens) { At(ts, DotT) || At(ts, HyphenT) }

  /** Identifiers separated by dots or hyphens. */
  function Parts(ts: Tokens): (r: Parsed<seq<Identifier>>)
    ensures r.Yes? ==> r.value != [] && Count(r.rest) < Count(ts)
    decreases Count(ts), 0
  {
    match IdentifierPart(ts)
    case No(e) => No(e)
    case Yes(id, rest) =>
      match MoreParts(rest)
      case No(e) => No(e)
      case Yes(ids, rest') => Yes([id] + ids, rest')
  }

  function MoreParts(ts: Tokens): (r: Parsed<seq<Identifier>>)
    ensures r.Yes? ==> Count(r.rest) <= Count(ts)
    decreases Count(ts), 1
  {
    if !AtSeparator(ts) then Yes([], ts)
    else
      match Skip(ts)
      case No(e) => No(e)
      case Yes(_, rest) => Parts(rest)
  }

  function Prefixed(ts: Tokens, mark: Token): (r: Parsed<seq<Identifier>>)
    ensures r.Yes? ==> Count(r.rest) <= Count(ts)
  {
    if !At(ts, mark) then Yes([], ts)
    else
      match Skip(ts)
      case No(e) => No(e)
      case Yes(_, rest) => Parts(rest)
  }

  function OpOf(ts: Tokens): Option<Op> {
    if !ts.More? then None
    else
      match ts.head
      case EqT => Some(Ex)
      case GtT => Some(Gt)
      case GtEqT => Some(GtEq)
      case LtT => Some(Lt)
      case LtEqT => Some(LtEq)
      case TildeT => Some(Tilde)
      case CaretT => Some(Compatible)
      case _ => None
  }

  function OpPart(ts: Tokens): (r: Parsed<Op>)
    ensures r.Yes? ==> Count(r.rest) <= Count(ts)
  {
    if OpOf(ts).None? then Yes(Compatible, ts)
    else
      match Skip(ts)
      case No(e) => No(e)
      case Yes(_, rest) =>
        match SkipWhitespace(rest)
        case No(e) => No(e)
        case Yes(_, rest') => Yes(OpOf(ts).value, rest')
  }

  function PredicatePart(ts: Tokens): (r: Parsed<Option<Predicate>>)
    ensures r.Yes? ==> Count(r.rest) <= Count(ts)
  {
    if ts.End? then Yes(None, ts)
    else
      match OpPart(ts)
      case No(e) => No(e)
      case Yes(op, ts1) =>
        match Component(ts1)
        case No(e) => No(e)
        case Yes(None, rest) => Yes(None, rest)
        case Yes(Some(major), ts2) =>
          match PredicateTail(op, major, ts2)
          case No(e) => No(e)
          case Yes(p, rest) => Yes(Some(p), rest)
  }

  function PredicateTail(op: Op, major: nat, ts: Tokens): (r: Parsed<Predicate>)
    ensures r.Yes? ==> Count(r.rest) <= Count(ts)
  {
    match DotComponent(ts)
    case No(e) => No(e)
    case Yes(minor, ts1) =>
      match DotComponent(ts1)
      case No(e) => No(e)
      case Yes(patch, ts2) =>
        match Prefixed(ts2, HyphenT)
        case No(e) => No(e)
        case Yes(pre, ts3) =>
          match Prefixed(ts3, PlusT)
          case No(e) => No(e)
          case Yes(_, rest) =>
            var op' := if patch.1 then Wildcard(Patch) else if minor.1 then Wildcard(Minor) else op;
            Yes(Predicate(op', major, minor.0, patch.0, pre), rest)
  }

  /** `None` when there is no comma. */
  function CommaPredicate(ts: Tokens): (r: Parsed<Option<Predicate>>)
    ensures r.Yes? ==> Count(r.rest) <= Count(ts)
    ensures r.Yes? && r.value.Some? ==> Count(r.rest) < Count(ts)
  {
    match SkipWhitespace(ts)
    case No(e) => No(e)
    case Yes(_, ts1) =>
      if !At(ts1, CommaT) then Yes(None, ts1)
      else
        match Skip(ts1)
        case No(e) => No(e)
        case Yes(_, ts2) =>
          match SkipWhitespace(ts2)
          case No(e) => No(e)
          case Yes(_, ts3) =>
            match PredicatePart(ts3)
            case No(e) => No(e)
            case Yes(None, _) => No(EmptyPredicate)
            case Yes(Some(p), rest) => Yes(Some(p), rest)
  }

  function MorePredicates(ts: Tokens): Parsed<seq<Predicate>>
    decreases Count(ts)
  {
    match CommaPredicate(ts)
    case No(e) => No(e)
    case Yes(None, rest) => Yes([], rest)
    case Yes(Some(p), rest) =>
      match MorePredicates(rest)
      case No(e) => No(e)
      case Yes(ps, rest') => Yes([p] + ps, rest')
  }

  function RangePart(ts: Tokens): Parsed<Range> {
    match PredicatePart(ts)
    case No(e) => No(e)
    case Yes(None, rest) => Yes(Range([]), rest)
    case Yes(Some(p), rest) =>
      match MorePredicates(rest)
      case No(e) => No(e)
      case Yes(ps, rest') => Yes(Range([p] + ps), rest')
  }

  function VersionPart(ts: Tokens): Parsed<Version> {
    match SkipWhitespace(ts)
    case No(e) => No(e)
    case Yes(_, ts0) =>
      match NumericPart(ts0)
      case No(e) => No(e)
      case Yes(major, ts1) =>
        match DotNumeric(ts1)
        case No(e) => No(e)
        case Yes(minor, ts2) =>
          match DotNumeric(ts2)
          case No(e) => No(e)
          case Yes(patch, ts3) => VersionTail(major, minor, patch, ts3)
  }

  function VersionTail(major: nat, minor: nat, patch: nat, ts: Tokens): Parsed<Version> {
    match Prefixed(ts, HyphenT)
    case No(e) => No(e)
    case Yes(pre, ts1) =>
      match Prefixed(ts1, PlusT)
      case No(e) => No(e)
      case Yes(build, ts2) =>
        match SkipWhitespace(ts2)
        case No(e) => No(e)
        case Yes(_, rest) => Yes(Version(major, minor, patch, pre, build), rest)
  }

  /** Running a parser over a whole input: the lookahead token is read first. */
  function Complete<T>(s: string, r: Parsed<T>): Result<T, Error> {
    if Lex(s).Bad? then Failure(LexerError)
    else
      match r
      case No(e) => Failure(e)
      case Yes(value, rest) => if rest.End? then Success(value) else Failure(MoreInput)
  }

  function ParseVersion(s: string): Result<Version, Error> { Complete(s, VersionPart(Lex(s))) }

  function ParseRange(s: string): Result<Range, Error> { Complete(s, RangePart(Lex(s))) }

  // Printing

  function PrintIdentifier(id: Identifier): string {
    match id
    case Numeric(n) => Decimal.Digits(n)
    case AlphaNumeric(s) => s
  }

  function PrintIdentifiers(ids: seq<Identifier>): string {
    if ids == [] then ""
    else if |ids| == 1 then PrintIdentifier(ids[0])
    else PrintIdentifier(ids[0]) + "." + PrintIdentifiers(ids[1..])
  }

  function PrintSection(mark: string, ids: seq<Identifier>): string {
    if ids == [] then "" else mark + PrintIdentifiers(ids)
  }

  function PrintVersion(v: Version): string {
    Decimal.Digits(v.major) + "." + Decimal.Digits(v.minor) + "." + Decimal.Digits(v.patch)
    + PrintSection("-", v.pre) + PrintSection("+", v.build)
  }

  function PrintOp(op: Op): string {
    match op
    case Ex => "= "
    case Gt => "> "
    case GtEq => ">= "
    case Lt => "< "
    case LtEq => "<= "
    case Tilde => "~"
    case Compatible => "^"
    case Wildcard(_) => ""
  }

  function PrintDotted(n: Option<nat>): string {
    match n
    case None => ""
    case Some(k) => "." + Decimal.Digits(k)
  }

  function PrintPredicate(p: Predicate): string {
    match p.op
    case Wildcard(Minor) => Decimal.Digits(p.major) + ".*"
    case Wildcard(Patch) =>
      if p.minor.Some? then Decimal.Digits(p.major) + "." + Decimal.Digits(p.minor.value) + ".*"
      else Decimal.Digits(p.major) + ".*.*"
    case _ =>
      PrintOp(p.op) + Decimal.Digits(p.major) + PrintDotted(p.minor) + PrintDotted(p.patch)
      + PrintSection("-", p.pre)
  }

  function PrintPredicates(ps: seq<Predicate>): string {
    if ps == [] then ""
    else if |ps| == 1 then PrintPredicate(ps[0])
    else PrintPredicate(ps[0]) + ", " + PrintPredicates(ps[1..])
  }

  function PrintRange(r: Range): string {
    if r.predicates == [] then "*" else PrintPredicates(r.predicates)
  }
}
