/** The tokens of the schema language as functions of the text (lib/lexer/lexer.rs). Positions count
    characters. */
module IdlSyntax {
  import opened Wrappers
  import Decimal
  import opened IdlNumber

  datatype Symbol =
    | LeftCurly | RightCurly | LeftBracket | RightBracket | LeftParen | RightParen | SemiColon | Colon | Comma | Dot
    | QuestionMark | Hash | Bang | Equal | Scope | RightArrow

  datatype Token =
    | Identifier(name: string)
    | TypeIdentifier(name: string)
    | KeywordToken(keyword: Keyword)
    | PackageDocComment(lines: seq<string>)
    | DocComment(lines: seq<string>)
    | Number(n: RpNumber)
    | QuotedString(text: string)
    | Symbol(symbol: Symbol)
    | CodeOpen
    | CodeContent(text: string)
    | CodeClose

  datatype Keyword =
    | AnyWord | InterfaceWord | TypeWord | EnumWord | TupleWord | ServiceWord | UseWord | AsWord
    | FloatWord | DoubleWord | I32Word | I64Word | U32Word | U64Word | BooleanWord | StringWord
    | DatetimeWord | BytesWord | StreamWord
  {
    /** The keyword as an identifier. */
    function Ident(): string {
      match this
      case AnyWord => "any"
      case InterfaceWord => "interface"
      case TypeWord => "type"
      case EnumWord => "enum"
      case TupleWord => "tuple"
      case ServiceWord => "service"
      case UseWord => "use"
      case AsWord => "as"
      case FloatWord => "float"
      case DoubleWord => "double"
      case I32Word => "i32"
      case I64Word => "i64"
      case U32Word => "u32"
      case U64Word => "u64"
      case BooleanWord => "boolean"
      case StringWord => "string"
      case DatetimeWord => "datetime"
      case BytesWord => "bytes"
      case StreamWord => "stream"
    }

    /** The identifier that is not read as the keyword. */
    function Safe(): string {
      match this
      case AnyWord => "_any"
      case InterfaceWord => "_interface"
      case TypeWord => "_type"
      case EnumWord => "_enum"
      case TupleWord => "_tuple"
      case ServiceWord => "_service"
      case UseWord => "_use"
      case AsWord => "_as"
      case FloatWord => "_float"
      case DoubleWord => "_double"
      case I32Word => "_i32"
      case I64Word => "_i64"
      case U32Word => "_u32"
      case U64Word => "_u64"
      case BooleanWord => "_boolean"
      case StringWord => "_string"
      case DatetimeWord => "_datetime"
      case BytesWord => "_bytes"
      case StreamWord => "_stream"
    }
  }

  function MatchKeyword(content: string): Option<Keyword> {
    if content == "any" then Some(AnyWord)
    else if content == "interface" then Some(InterfaceWord)
    else if content == "type" then Some(TypeWord)
    else if content == "enum" then Some(EnumWord)
    else if content == "tuple" then Some(TupleWord)
    else if content == "service" then Some(ServiceWord)
    else if content == "use" then Some(UseWord)
    else if content == "as" then Some(AsWord)
    else if content == "float" then Some(FloatWord)
    else if content == "double" then Some(DoubleWord)
    else if content == "i32" then Some(I32Word)
    else if content == "i64" then Some(I64Word)
    else if content == "u32" then Some(U32Word)
    else if content == "u64" then Some(U64Word)
    else if content == "boolean" then Some(BooleanWord)
    else if content == "string" then Some(StringWord)
    else if content == "datetime" then Some(DatetimeWord)
    else if content == "bytes" then Some(BytesWord)
    else if content == "stream" then Some(StreamWord)
    else None
  }

  // Character classes

  predicate IsSpace(c: char) { c == ' ' || c == '\n' || c == '\r' || c == '\t' }

  predicate IsLineEnd(c: char) { c == '\n' || c == '\r' }

  predicate InLine(c: char) { !IsLineEnd(c) }

  predicate IsUnderscore(c: char) { c == '_' }

  predicate IsIdentChar(c: char) { 'a' <= c <= 'z' || c == '_' || '0' <= c <= '9' }

  predicate IsTypeChar(c: char) { 'A' <= c <= 'Z' || 'a' <= c <= 'z' || '0' <= c <= '9' }

  predicate IsExponentChar(c: char) { c == '-' || '0' <= c <= '9' }

  /** Where the run of characters in `class_` that starts at `i` ends. */
  function Run(s: string, i: nat, class_: char -> bool): (r: nat)
    requires i <= |s|
    ensures i <= r <= |s| && (forall k :: i <= k < r ==> class_(s[k])) && (r < |s| ==> !class_(s[r]))
    decreases |s| - i
  {
    if i < |s| && class_(s[i]) then Run(s, i + 1, class_) else i
  }

  predicate At(s: string, i: nat, text: string) { i + |text| <= |s| && s[i..i + |text|] == text }

  // Skipping

  function LineEnd(s: string, i: nat): (r: nat)
    requires i <= |s|
    ensures i <= r <= |s|
  {
    Run(s, Run(s, i, InLine), IsLineEnd)
  }

  /** After the next star and slash; an unterminated block comment ends before its last character. */
  function BlockEnd(s: string, i: nat): (r: nat)
    requires i <= |s|
    ensures i <= r <= |s|
    decreases |s| - i
  {
    if i + 2 > |s| then i else if At(s, i, "*/") then i + 2 else BlockEnd(s, i + 1)
  }

  predicate AtDoc(s: string, i: nat) { At(s, i, "//!") || At(s, i, "///") }

  /** Skips whitespace and comments that are not documentation. */
  function Skip(s: string, i: nat): (r: nat)
    requires i <= |s|
    ensures i <= r <= |s|
    decreases |s| - i
  {
    if AtDoc(s, i) then i
    else if At(s, i, "//") then Skip(s, LineEnd(s, i + 2))
    else if At(s, i, "/*") then Skip(s, BlockEnd(s, i + 2))
    else if i < |s| && IsSpace(s[i]) then Skip(s, i + 1)
    else i
  }

  // Tokens

  datatype Scanned = Good(token: Token, end: nat) | Wrong

  function IdentifierAt(s: string, i: nat): (r: Scanned)
    requires i <= |s|
    ensures r.Good? && i <= r.end <= |s|
  {
    var stripped := Run(s, i, IsUnderscore);
    var end := Run(s, stripped, IsIdentChar);
    var content := s[stripped..end];
    var keyword := MatchKeyword(content);
    Good(if stripped == i && keyword.Some? then KeywordToken(keyword.value) else Identifier(content), end)
  }

  function TypeIdentifierAt(s: string, i: nat): (r: Scanned)
    requires i <= |s|
    ensures r.Good? && i <= r.end <= |s|
  {
    var end := Run(s, i, IsTypeChar);
    Good(TypeIdentifier(s[i..end]), end)
  }

  /** `i32::from_str` on text made of dashes and digits. */
  function ParseI32(content: string): Option<int> {
    var negative := content != [] && content[0] == '-';
    var digits := if negative then content[1..] else content;
    if digits == [] || !Decimal.AllDigits(digits) then None
    else
      var n: int := if negative then -(Decimal.Value(digits) as int) else Decimal.Value(digits);
      if I32_MIN <= n <= I32_MAX then Some(n) else None
  }

  /** What may follow the whole part. An exponent is only read after a fraction, and the smallest exponent
      has no absolute value in 32 bits. */
  function DecimalsAt(s: string, i: nat): (r: Option<(Option<string>, Option<int>, nat)>)
    requires i <= |s|
    ensures r.Some? ==>
      && i <= r.value.2 <= |s|
      && (r.value.0.Some? ==> r.value.0.value != [] && Decimal.AllDigits(r.value.0.value))
      && (r.value.1.Some? ==> r.value.0.Some? && I32_MIN <= r.value.1.value <= I32_MAX)
  {
    if !At(s, i, ".") then Some((None, None, i))
    else
      var fraction := Run(s, i + 1, Decimal.IsDigit);
      if fraction == i + 1 then None
      else
        var text := s[i + 1..fraction];
        if !At(s, fraction, "e") then Some((Some(text), None, fraction))
        else
          var end := Run(s, fraction + 1, IsExponentChar);
          var exponent := ParseI32(s[fraction + 1..end]);
          if exponent.None? || exponent.value == I32_MIN then None else Some((Some(text), exponent, end))
  }

  /** The literal that starts at `i`, and where it ends. */
  function LiteralAt(s: string, i: nat): (r: Option<(Literal, nat)>)
    requires i <= |s|
    ensures r.Some? ==> LiteralOk(r.value.0) && i < r.value.1 <= |s|
  {
    var negative := At(s, i, "-");
    var start := if negative then i + 1 else i;
    var whole := Run(s, start, Decimal.IsDigit);
    if whole == start then None
    else
      match DecimalsAt(s, whole)
      case None => None
      case Some((fraction, exponent, end)) => Some((Literal(negative, s[start..whole], fraction, exponent), end))
  }

  function NumberAt(s: string, i: nat): (r: Scanned)
    requires i <= |s|
    ensures r.Good? ==> i < r.end <= |s|
  {
    match LiteralAt(s, i)
    case None => Wrong
    case Some((literal, end)) => Good(Number(NumberOf(literal)), end)
  }

  function HexValue(c: char): Option<nat> {
    if '0' <= c <= '9' then Some((c - '0') as nat)
    else if 'a' <= c <= 'f' then Some((c - 'a') as nat + 10)
    else if 'A' <= c <= 'F' then Some((c - 'A') as nat + 10)
    else None
  }

  /** The value of `n` hexadecimal digits. */
  function Hex(s: string, i: nat, n: nat): (r: Option<nat>)
    ensures r.Some? ==> i <= i + n && (n > 0 ==> i + n <= |s|)
  {
    if n == 0 then Some(0)
    else
      var prefix := Hex(s, i, n - 1);
      if prefix.None? || i + n > |s| || HexValue(s[i + n - 1]).None? then None
      else Some(16 * prefix.value + HexValue(s[i + n - 1]).value)
  }

  /** Four hexadecimal digits that name a character. */
  function Unicode4(s: string, i: nat): (r: Option<char>)
    ensures r.Some? ==> i + 4 <= |s|
  {
    var code := Hex(s, i, 4);
    if code.Some? && (code.value < 0xD800 || 0xE000 <= code.value < 0x10000) then Some(code.value as char) else None
  }

  /** The character that the escape sequence at `i` stands for, and where the sequence ends; `s[i]` is the
      backslash. */
  function EscapeAt(s: string, i: nat): (r: Option<(char, nat)>)
    requires i < |s|
    ensures r.Some? ==> i + 2 <= r.value.1 <= |s|
  {
    if i + 1 >= |s| then None
    else
      match s[i + 1]
      case 'n' => Some(('\n', i + 2))
      case 'r' => Some(('\r', i + 2))
      case 't' => Some(('\t', i + 2))
      case '\\' => Some(('\\', i + 2))
      case '\"' => Some(('\"', i + 2))
      case 'u' => if Unicode4(s, i + 2).Some? then Some((Unicode4(s, i + 2).value, i + 6)) else None
      case _ => None
  }

  /** The rest of a string whose contents so far are `buffer`. */
  function StringFrom(s: string, i: nat, buffer: string): (r: Option<(string, nat)>)
    requires i <= |s|
    ensures r.Some? ==> i < r.value.1 <= |s|
    decreases |s| - i
  {
    if i == |s| then None
    else if s[i] == '\\' then
      match EscapeAt(s, i)
      case None => None
      case Some((c, end)) => StringFrom(s, end, buffer + [c])
    else if s[i] == '\"' then Some((buffer, i + 1))
    else StringFrom(s, i + 1, buffer + [s[i]])
  }

  function StringAt(s: string, i: nat): (r: Scanned)
    requires i < |s|
    ensures r.Good? ==> i < r.end <= |s|
  {
    match StringFrom(s, i + 1, "")
    case None => Wrong
    case Some((text, end)) => Good(QuotedString(text), end)
  }

  /** The lines of a documentation comment; `mark` is what follows the two slashes. */
  function DocLines(s: string, i: nat, mark: string): (r: (seq<string>, nat))
    requires i <= |s| && |mark| == 1
    ensures i <= r.1 <= |s|
    decreases |s| - i
  {
    var start := Run(s, i, IsSpace);
    if At(s, start, "//" + mark) then
      var end := Run(s, start + 3, InLine);
      var (lines, last) := DocLines(s, Run(s, end, IsLineEnd), mark);
      ([s[start + 3..end]] + lines, last)
    else ([], start)
  }

  function TwoCharSymbol(s: string, i: nat): Option<Symbol> {
    if At(s, i, "::") then Some(Scope) else if At(s, i, "->") then Some(RightArrow) else None
  }

  function OneCharSymbol(c: char): Option<Symbol> {
    match c
    case '{' => Some(LeftCurly)
    case '}' => Some(RightCurly)
    case '[' => Some(LeftBracket)
    case ']' => Some(RightBracket)
    case '(' => Some(LeftParen)
    case ')' => Some(RightParen)
    case ';' => Some(SemiColon)
    case ':' => Some(Colon)
    case ',' => Some(Comma)
    case '.' => Some(Dot)
    case '?' => Some(QuestionMark)
    case '#' => Some(Hash)
    case '!' => Some(Bang)
    case '=' => Some(Equal)
    case _ => None
  }

  /** Where the next pair of closing braces starts. */
  function CodeEnd(s: string, i: nat): (r: Option<nat>)
    requires i <= |s|
    ensures r.Some? ==> i <= r.value && r.value + 2 <= |s|
    decreases |s| - i
  {
    if i + 2 > |s| then None else if At(s, i, "}}") then Some(i) else CodeEnd(s, i + 1)
  }

  // Steps

  /** Where the lexer is: inside a code block that was opened at `block.0`, before a closing token that is
      still to be emitted, or in normal mode. */
  datatype State = State(pos: nat, block: Option<(nat, nat)>, close: Option<(nat, nat)>)

  datatype Step = Done | Failed | Emit(start: nat, token: Token, end: nat, next: State)

  predicate StateOk(s: string, st: State) {
    && st.pos <= |s|
    && (st.block.Some? ==> st.close.None? && st.block.value.0 < st.block.value.1 == st.pos)
    && (st.close.Some? ==> st.close.value.0 < st.close.value.1 == st.pos)
  }

  function Plain(start: nat, r: Scanned): Step {
    match r
    case Wrong => Failed
    case Good(token, end) => Emit(start, token, end, State(end, None, None))
  }

  /** The token that starts at `i`, where nothing can be skipped. */
  function TokenAt(s: string, i: nat): Step
    requires i <= |s|
  {
    if At(s, i, "//!") then
      var (lines, end) := DocLines(s, i, "!");
      Plain(i, Good(PackageDocComment(lines), end))
    else if At(s, i, "///") then
      var (lines, end) := DocLines(s, i, "/");
      Plain(i, Good(DocComment(lines), end))
    else if At(s, i, "{{") then Emit(i, CodeOpen, i + 2, State(i + 2, Some((i, i + 2)), None))
    else if TwoCharSymbol(s, i).Some? then Plain(i, Good(Symbol(TwoCharSymbol(s, i).value), i + 2))
    else if i == |s| then Done
    else if OneCharSymbol(s[i]).Some? then Plain(i, Good(Symbol(OneCharSymbol(s[i]).value), i + 1))
    else if s[i] == '_' || 'a' <= s[i] <= 'z' then Plain(i, IdentifierAt(s, i))
    else if 'A' <= s[i] <= 'Z' then Plain(i, TypeIdentifierAt(s, i))
    else if s[i] == '\"' then Plain(i, StringAt(s, i))
    else if s[i] == '-' || Decimal.IsDigit(s[i]) then Plain(i, NumberAt(s, i))
    else Failed
  }

  function NextStep(s: string, st: State): Step
    requires StateOk(s, st)
  {
    if st.close.Some? then
      Emit(st.close.value.0, CodeClose, st.close.value.1, State(st.pos, st.block, None))
    else if st.block.Some? then
      match CodeEnd(s, st.pos)
      case None => Failed
      case Some(end) =>
        Emit(st.block.value.0, CodeContent(s[st.block.value.1..end]), end + 2,
             State(end + 2, None, Some((end, end + 2))))
    else TokenAt(s, Skip(s, st.pos))
  }
}
