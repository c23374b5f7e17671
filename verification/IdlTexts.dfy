/** What the tokens of the schema language are written as: the lexer reads each text as its token, and a
    text assembled from tokens as those tokens. */
module IdlTexts {
  import opened Wrappers
  import Decimal
  import opened IdlNumber
  import opened IdlSyntax
  import opened IdlPrinting
  import IdlLexer
  import IdlRuns

  // Texts

  function SymbolText(symbol: Symbol): string {
    match symbol
    case LeftCurly => "{"
    case RightCurly => "}"
    case LeftBracket => "["
    case RightBracket => "]"
    case LeftParen => "("
    case RightParen => ")"
    case SemiColon => ";"
    case Colon => ":"
    case Comma => ","
    case Dot => "."
    case QuestionMark => "?"
    case Hash => "#"
    case Bang => "!"
    case Equal => "="
    case Scope => "::"
    case RightArrow => "->"
  }

  /** An identifier as a schema has it: letters in lower case, digits and underscores. */
  predicate Name(s: string) {
    (s != "" ==> s[0] != '_') && forall i :: 0 <= i < |s| ==> 'a' <= s[i] <= 'z' || '0' <= s[i] <= '9' || s[i] == '_'
  }

  predicate TypeName(s: string) {
    && s != "" && 'A' <= s[0] <= 'Z'
    && forall i :: 0 <= i < |s| ==> 'A' <= s[i] <= 'Z' || 'a' <= s[i] <= 'z' || '0' <= s[i] <= '9'
  }

  function IntText(n: int): string { if n < 0 then "-" + Decimal.Digits(-n) else Decimal.Digits(n) }

  function LiteralText(l: Literal): string {
    (if l.negative then "-" else "") + l.whole
    + (if l.fraction.Some? then "." + l.fraction.value else "")
    + (if l.exponent.Some? then "e" + IntText(l.exponent.value) else "")
  }

  /** Characters that need no escape. */
  predicate Verbatim(c: char) { c != '\"' && c != '\\' }

  function HexChar(d: nat): char
    requires d < 16
  {
    "0123456789abcdef"[d]
  }

  /** The last `n` hexadecimal digits of a number. */
  function HexText(code: nat, n: nat): (r: string)
    ensures |r| == n
  {
    if n == 0 then "" else HexText(code / 16, n - 1) + [HexChar(code % 16)]
  }

  /** Every character can be written; those above the basic plane only as they are. */
  function CharText(c: char): string {
    if Verbatim(c) then [c] else "\\u" + HexText(c as nat, 4)
  }

  function StringText(text: string): string {
    if text == "" then "" else CharText(text[0]) + StringText(text[1..])
  }

  // Ends of runs

  /** The text at `i` does not go on with a character of the class. */
  predicate Stops(s: string, i: nat, class_: char -> bool) { i < |s| ==> !class_(s[i]) }

  predicate Next(s: string, i: nat, c: char) { i < |s| && s[i] == c }

  lemma AtIndex(s: string, i: nat, text: string)
    ensures At(s, i, text) <==> i + |text| <= |s| && forall k :: 0 <= k < |text| ==> s[i + k] == text[k]
  {
    if i + |text| <= |s| && forall k :: 0 <= k < |text| ==> s[i + k] == text[k] {
      assert s[i..i + |text|] == text;
    }
    if At(s, i, text) {
      forall k | 0 <= k < |text|
        ensures s[i + k] == text[k]
      {
        assert s[i..i + |text|][k] == text[k];
      }
    }
  }

  lemma AtFirst(s: string, i: nat, text: string)
    requires text != ""
    ensures At(s, i, text) ==> Next(s, i, text[0])
  {
    AtIndex(s, i, text);
    assert At(s, i, text) ==> s[i + 0] == text[0];
  }

  lemma AtTwo(s: string, i: nat, text: string)
    requires |text| == 2
    ensures At(s, i, text) <==> Next(s, i, text[0]) && Next(s, i + 1, text[1])
  {
    if At(s, i, text) {
      assert s[i..i + 2][0] == s[i] && s[i..i + 2][1] == s[i + 1];
    }
    if Next(s, i, text[0]) && Next(s, i + 1, text[1]) {
      assert s[i..i + 2] == text;
    }
  }

  /** What the lexer looks at before single characters. */
  lemma Openings(s: string, i: nat)
    ensures AtDoc(s, i) || At(s, i, "//") || At(s, i, "/*") ==> Next(s, i, '/')
    ensures At(s, i, "{{") <==> Next(s, i, '{') && Next(s, i + 1, '{')
    ensures At(s, i, "::") <==> Next(s, i, ':') && Next(s, i + 1, ':')
    ensures At(s, i, "->") <==> Next(s, i, '-') && Next(s, i + 1, '>')
  {
    AtFirst(s, i, "//!");
    AtFirst(s, i, "///");
    AtFirst(s, i, "//");
    AtFirst(s, i, "/*");
    AtTwo(s, i, "{{");
    AtTwo(s, i, "::");
    AtTwo(s, i, "->");
    hide At;
  }

  /** Neither a comment nor one of the pairs of characters that are tokens. */
  predicate Alone(s: string, i: nat) {
    && i < |s| && s[i] != '/'
    && !(s[i] == '{' && Next(s, i + 1, '{'))
    && !(s[i] == ':' && Next(s, i + 1, ':'))
    && !(s[i] == '-' && Next(s, i + 1, '>'))
  }

  /** Then the first character decides. */
  lemma Dispatch(s: string, i: nat)
    requires Alone(s, i)
    ensures TokenAt(s, i) ==
      if OneCharSymbol(s[i]).Some? then Plain(i, Good(IdlSyntax.Symbol(OneCharSymbol(s[i]).value), i + 1))
      else if s[i] == '_' || 'a' <= s[i] <= 'z' then Plain(i, IdentifierAt(s, i))
      else if 'A' <= s[i] <= 'Z' then Plain(i, TypeIdentifierAt(s, i))
      else if s[i] == '\"' then Plain(i, StringAt(s, i))
      else if s[i] == '-' || Decimal.IsDigit(s[i]) then Plain(i, NumberAt(s, i))
      else Failed
  {
    Openings(s, i);
    hide At, DocLines, OneCharSymbol, IdentifierAt, TypeIdentifierAt, StringAt, NumberAt;
  }

  // One token

  /** What must not follow a symbol. */
  predicate SymbolEnds(s: string, end: nat, symbol: Symbol) {
    && (symbol.LeftCurly? ==> !Next(s, end, '{'))
    && (symbol.Colon? ==> !Next(s, end, ':'))
  }

  lemma SymbolRead(s: string, i: nat, symbol: Symbol)
    requires At(s, i, SymbolText(symbol)) && SymbolEnds(s, i + |SymbolText(symbol)|, symbol)
    ensures var end := i + |SymbolText(symbol)|;
      end <= |s| && TokenAt(s, i) == Plain(i, Good(IdlSyntax.Symbol(symbol), end))
  {
    if symbol.Scope? || symbol.RightArrow? {
      PairRead(s, i, symbol);
    } else {
      AtFirst(s, i, SymbolText(symbol));
      hide At, TokenAt;
      Dispatch(s, i);
    }
  }

  lemma PairRead(s: string, i: nat, symbol: Symbol)
    requires (symbol.Scope? || symbol.RightArrow?) && At(s, i, SymbolText(symbol))
    ensures i + 2 <= |s| && TokenAt(s, i) == Plain(i, Good(IdlSyntax.Symbol(symbol), i + 2))
  {
    Openings(s, i);
    hide At, DocLines;
  }

  lemma KeywordRead(s: string, i: nat, k: Keyword)
    requires At(s, i, k.Ident()) && Stops(s, i + |k.Ident()|, IsIdentChar)
    ensures var end := i + |k.Ident()|;
      end <= |s| && TokenAt(s, i) == Plain(i, Good(KeywordToken(k), end))
  {
    KeywordName(k);
    KeywordIff(k.Ident(), k);
    hide MatchKeyword, Keyword.Ident;
    BareNameRead(s, i, k.Ident());
  }

  lemma KeywordName(k: Keyword)
    ensures Name(k.Ident()) && k.Ident() != "" && IsLower(k.Ident()[0])
  {
  }

  lemma NameRun(s: string, i: nat, name: string)
    requires Name(name) && At(s, i, name) && Stops(s, i + |name|, IsIdentChar)
    ensures var end := i + |name|;
      end <= |s| && Run(s, i, IsIdentChar) == end && s[i..end] == name && Run(s, i, IsUnderscore) == i
    ensures name != "" ==> s[i] == name[0]
  {
    AtIndex(s, i, name);
    forall k | i <= k < i + |name|
      ensures IsIdentChar(s[k])
    {
      assert s[i + (k - i)] == name[k - i];
    }
    RunOver(s, i, i + |name|, IsIdentChar);
    assert name != "" ==> s[i + 0] == name[0];
    RunOver(s, i, i, IsUnderscore);
    assert s[i..i + |name|] == name;
  }

  /** A name without underscores in front. */
  lemma BareNameRead(s: string, i: nat, name: string)
    requires Name(name) && name != "" && IsLower(name[0]) && At(s, i, name) && Stops(s, i + |name|, IsIdentChar)
    ensures var end, keyword := i + |name|, MatchKeyword(name);
      && end <= |s|
      && TokenAt(s, i) ==
           Plain(i, Good(if keyword.Some? then KeywordToken(keyword.value) else Identifier(name), end))
  {
    hide At, TokenAt, MatchKeyword, Run;
    NameRun(s, i, name);
    Dispatch(s, i);
  }

  /** A name that is not a keyword. */
  lemma IdentifierRead(s: string, i: nat, name: string)
    requires Name(name) && name != "" && IsLower(name[0]) && At(s, i, name) && Stops(s, i + |name|, IsIdentChar)
    requires forall k: Keyword :: name != k.Ident()
    ensures i + |name| <= |s| && TokenAt(s, i) == Plain(i, Good(Identifier(name), i + |name|))
  {
    BareNameRead(s, i, name);
    var keyword := MatchKeyword(name);
    if keyword.Some? {
      KeywordIff(name, keyword.value);
    }
    hide MatchKeyword;
  }

  lemma EscapeRun(s: string, i: nat, escape: string)
    requires escape != "" && (forall k :: 0 <= k < |escape| ==> escape[k] == '_') && At(s, i, escape)
    requires Stops(s, i + |escape|, IsUnderscore)
    ensures i + |escape| <= |s| && Run(s, i, IsUnderscore) == i + |escape| && s[i] == '_'
  {
    AtIndex(s, i, escape);
    forall k | i <= k < i + |escape|
      ensures IsUnderscore(s[k])
    {
      assert s[i + (k - i)] == escape[k - i];
    }
    assert s[i + 0] == escape[0];
    RunOver(s, i, i + |escape|, IsUnderscore);
  }

  /** Underscores in front are dropped, and make any name an identifier. */
  lemma EscapedRead(s: string, i: nat, escape: string, name: string)
    requires escape != "" && (forall k :: 0 <= k < |escape| ==> escape[k] == '_') && Name(name)
    requires At(s, i, escape + name) && Stops(s, i + |escape + name|, IsIdentChar)
    ensures i + |escape + name| <= |s| && TokenAt(s, i) == Plain(i, Good(Identifier(name), i + |escape + name|))
  {
    hide At, TokenAt, MatchKeyword, Run;
    AtSplit(s, i, escape, name);
    NameRun(s, i + |escape|, name);
    EscapeRun(s, i, escape);
    Dispatch(s, i);
  }

  lemma TypeIdentifierRead(s: string, i: nat, name: string)
    requires TypeName(name) && At(s, i, name) && Stops(s, i + |name|, IsTypeChar)
    ensures i + |name| <= |s| && TokenAt(s, i) == Plain(i, Good(TypeIdentifier(name), i + |name|))
  {
    AtIndex(s, i, name);
    assert s[i + 0] == name[0];
    Dispatch(s, i);
    forall k | i <= k < i + |name|
      ensures IsTypeChar(s[k])
    {
      assert s[k] == name[k - i];
    }
    RunOver(s, i, i + |name|, IsTypeChar);
    assert s[i..i + |name|] == name;
    hide At, TokenAt;
  }

  // Strings

  lemma HexCharValue(d: nat)
    requires d < 16
    ensures HexValue(HexChar(d)) == Some(d)
  {
  }

  function Pow16(n: nat): nat { if n == 0 then 1 else 16 * Pow16(n - 1) }

  lemma {:induction false} HexRead(s: string, i: nat, code: nat, n: nat)
    requires At(s, i, HexText(code, n)) && code < Pow16(n)
    ensures Hex(s, i, n) == Some(code)
  {
    if n > 0 {
      var prefix, last := HexText(code / 16, n - 1), HexChar(code % 16);
      assert HexText(code, n) == prefix + [last];
      hide At, HexText, HexChar, HexValue;
      AtSplit(s, i, prefix, [last]);
      HexRead(s, i, code / 16, n - 1);
      AtFirst(s, i + n - 1, [last]);
      HexCharValue(code % 16);
    }
  }

  /** A backslash, `u` and the four digits of a code point are read as the character with that code point. */
  lemma UnicodeRead(s: string, i: nat, c: char)
    requires (c as nat) < 0x10000 && At(s, i, "\\u" + HexText(c as nat, 4))
    ensures i + 6 <= |s| && EscapeAt(s, i) == Some((c, i + 6))
  {
    AtSplit(s, i, "\\u", HexText(c as nat, 4));
    AtTwo(s, i, "\\u");
    assert Pow16(4) == 0x10000;
    HexRead(s, i + 2, c as nat, 4);
    hide At, HexText, Hex;
  }

  lemma CharRead(s: string, i: nat, c: char, buffer: string)
    requires At(s, i, CharText(c))
    ensures i < i + |CharText(c)| <= |s|
    ensures StringFrom(s, i, buffer) == StringFrom(s, i + |CharText(c)|, buffer + [c])
  {
    AtIndex(s, i, CharText(c));
    if Verbatim(c) {
      assert s[i] == c;
    } else {
      UnicodeRead(s, i, c);
      assert s[i] == '\\';
    }
    hide At, EscapeAt, HexText;
  }

  lemma StringEnd(s: string, i: nat, buffer: string)
    requires At(s, i, "\"")
    ensures i < |s| && s[i] == '\"' && StringFrom(s, i, buffer) == Some((buffer, i + 1))
  {
    AtFirst(s, i, "\"");
  }

  lemma {:induction false} StringFromRead(s: string, i: nat, text: string, buffer: string)
    requires At(s, i, StringText(text) + "\"")
    ensures i + |StringText(text)| < |s|
    ensures StringFrom(s, i, buffer) == Some((buffer + text, i + |StringText(text)| + 1))
    decreases text
  {
    hide CharText, At, StringFrom;
    if text == "" {
      assert StringText(text) + "\"" == "\"" && buffer + text == buffer;
      StringEnd(s, i, buffer);
    } else {
      var c, rest := text[0], text[1..];
      assert StringText(text) + "\"" == CharText(c) + (StringText(rest) + "\"");
      AtSplit(s, i, CharText(c), StringText(rest) + "\"");
      CharRead(s, i, c, buffer);
      StringFromRead(s, i + |CharText(c)|, rest, buffer + [c]);
      assert (buffer + [c]) + rest == buffer + text;
    }
  }

  /** Every text can be written so that it is read back. */
  lemma StringRead(s: string, i: nat, text: string)
    requires At(s, i, "\"" + (StringText(text) + "\""))
    ensures var end := i + |StringText(text)| + 2;
      end <= |s| && TokenAt(s, i) == Plain(i, Good(QuotedString(text), end))
  {
    hide *;
    AtSplit(s, i, "\"", StringText(text) + "\"");
    QuoteStarts(s, i);
    Dispatch(s, i);
    StringFromRead(s, i + 1, text, "");
    assert "" + text == text;
    ClosedString(s, i, text, i + |StringText(text)| + 2);
  }

  lemma QuoteStarts(s: string, i: nat)
    requires At(s, i, "\"")
    ensures Alone(s, i) && s[i] == '\"' && OneCharSymbol(s[i]).None?
  {
    AtFirst(s, i, "\"");
  }

  lemma ClosedString(s: string, i: nat, text: string, end: nat)
    requires i < |s| && StringFrom(s, i + 1, "") == Some((text, end))
    ensures StringAt(s, i) == Good(QuotedString(text), end)
  {
  }

  // Numbers

  /** What must not follow a literal. */
  predicate LiteralEnds(s: string, end: nat, l: Literal) {
    && (l.exponent.None? ==> Stops(s, end, Decimal.IsDigit))
    && (l.fraction.None? ==> !Next(s, end, '.'))
    && (l.fraction.Some? && l.exponent.None? ==> !Next(s, end, 'e'))
    && (l.exponent.Some? ==> Stops(s, end, IsExponentChar))
  }

  lemma IntParsed(n: int)
    requires I32_MIN <= n <= I32_MAX
    ensures ParseI32(IntText(n)) == Some(n)
  {
    var digits := Decimal.Digits(if n < 0 then -n else n);
    Decimal.ValueOfDigits(if n < 0 then -n else n);
    if n < 0 {
      assert ("-" + digits)[1..] == digits;
    } else {
      assert Decimal.IsDigit(digits[0]);
    }
  }

  lemma IntChars(n: int)
    ensures forall k :: 0 <= k < |IntText(n)| ==> IsExponentChar(IntText(n)[k])
  {
    var digits := Decimal.Digits(if n < 0 then -n else n);
    assert forall k :: 0 <= k < |digits| ==> digits[k] in digits;
  }

  lemma DigitsRun(s: string, i: nat, digits: string)
    requires At(s, i, digits) && Decimal.AllDigits(digits) && Stops(s, i + |digits|, Decimal.IsDigit)
    ensures i + |digits| <= |s| && Run(s, i, Decimal.IsDigit) == i + |digits| && s[i..i + |digits|] == digits
  {
    AtIndex(s, i, digits);
    forall k | i <= k < i + |digits|
      ensures Decimal.IsDigit(s[k])
    {
      assert s[k] == digits[k - i];
      assert digits[k - i] in digits;
    }
    RunOver(s, i, i + |digits|, Decimal.IsDigit);
  }

  lemma ExponentRead(s: string, i: nat, n: int)
    requires I32_MIN < n <= I32_MAX && At(s, i, "e" + IntText(n))
    requires Stops(s, i + 1 + |IntText(n)|, IsExponentChar)
    ensures var end := i + 1 + |IntText(n)|;
      && end <= |s| && At(s, i, "e") && Run(s, i + 1, IsExponentChar) == end
      && ParseI32(s[i + 1..end]) == Some(n)
  {
    var text, end := IntText(n), i + 1 + |IntText(n)|;
    AtSplit(s, i, "e", text);
    AtIndex(s, i + 1, text);
    IntChars(n);
    IntParsed(n);
    hide IntText, ParseI32, IsExponentChar;
    forall k | i + 1 <= k < end
      ensures IsExponentChar(s[k])
    {
      assert s[k] == text[k - i - 1];
    }
    RunOver(s, i + 1, end, IsExponentChar);
    assert s[i + 1..end] == text;
  }

  function DecimalsText(l: Literal): string {
    (if l.fraction.Some? then "." + l.fraction.value else "")
    + (if l.exponent.Some? then "e" + IntText(l.exponent.value) else "")
  }

  function ExponentText(l: Literal): string {
    if l.exponent.Some? then "e" + IntText(l.exponent.value) else ""
  }

  lemma FractionRead(s: string, i: nat, l: Literal)
    requires LiteralOk(l) && l.exponent != Some(I32_MIN) && l.fraction.Some?
    requires At(s, i, ".") && At(s, i + 1, l.fraction.value) && At(s, i + 1 + |l.fraction.value|, ExponentText(l))
    requires LiteralEnds(s, i + 1 + |l.fraction.value| + |ExponentText(l)|, l)
    ensures var end := i + 1 + |l.fraction.value| + |ExponentText(l)|;
      end <= |s| && DecimalsAt(s, i) == Some((l.fraction, l.exponent, end))
  {
    hide *;
    var fraction, after := l.fraction.value, i + 1 + |l.fraction.value|;
    LiteralParts(l);
    EndsParts(s, after + |ExponentText(l)|, l);
    if l.exponent.Some? {
      ExponentRead(s, after, l.exponent.value);
      EMark(s, after);
      DigitsRun(s, i + 1, fraction);
      WithBoth(s, i, fraction, l.exponent.value, after + 1 + |IntText(l.exponent.value)|);
    } else {
      NoExponent(s, after);
      DigitsRun(s, i + 1, fraction);
      WithFractionOnly(s, i, fraction);
    }
  }

  lemma LiteralParts(l: Literal)
    requires LiteralOk(l)
    ensures l.whole != "" && Decimal.AllDigits(l.whole)
    ensures l.fraction.Some? ==> l.fraction.value != "" && Decimal.AllDigits(l.fraction.value)
    ensures l.exponent.Some? ==> l.fraction.Some? && I32_MIN <= l.exponent.value <= I32_MAX
    ensures ExponentText(l) == if l.exponent.Some? then "e" + IntText(l.exponent.value) else ""
    ensures l.exponent.Some? ==> |ExponentText(l)| == 1 + |IntText(l.exponent.value)|
  {
  }

  lemma EndsParts(s: string, end: nat, l: Literal)
    requires LiteralEnds(s, end, l)
    ensures l.exponent.None? ==> Stops(s, end, Decimal.IsDigit)
    ensures l.fraction.Some? && l.exponent.None? ==> !Next(s, end, 'e')
    ensures l.exponent.Some? ==> Stops(s, end, IsExponentChar)
  {
  }

  lemma NoExponent(s: string, i: nat)
    requires !Next(s, i, 'e')
    ensures !At(s, i, "e")
  {
    AtFirst(s, i, "e");
  }

  lemma EMark(s: string, i: nat)
    requires At(s, i, "e")
    ensures Stops(s, i, Decimal.IsDigit)
  {
    AtFirst(s, i, "e");
  }

  lemma WithFractionOnly(s: string, i: nat, fraction: string)
    requires i + 1 + |fraction| <= |s| && fraction != "" && At(s, i, ".") && !At(s, i + 1 + |fraction|, "e")
    requires Run(s, i + 1, Decimal.IsDigit) == i + 1 + |fraction| && s[i + 1..i + 1 + |fraction|] == fraction
    ensures DecimalsAt(s, i) == Some((Some(fraction), None, i + 1 + |fraction|))
  {
    hide At, Run;
  }

  lemma WithBoth(s: string, i: nat, fraction: string, n: int, end: nat)
    requires i + 1 + |fraction| < end <= |s| && fraction != "" && At(s, i, ".") && At(s, i + 1 + |fraction|, "e")
    requires Run(s, i + 1, Decimal.IsDigit) == i + 1 + |fraction| && s[i + 1..i + 1 + |fraction|] == fraction
    requires Run(s, i + 2 + |fraction|, IsExponentChar) == end && n != I32_MIN
    requires ParseI32(s[i + 2 + |fraction|..end]) == Some(n)
    ensures DecimalsAt(s, i) == Some((Some(fraction), Some(n), end))
  {
    hide At, Run, ParseI32;
  }

  lemma DecimalsRead(s: string, i: nat, l: Literal)
    requires LiteralOk(l) && l.exponent != Some(I32_MIN)
    requires At(s, i, DecimalsText(l)) && LiteralEnds(s, i + |DecimalsText(l)|, l)
    ensures var end := i + |DecimalsText(l)|;
      end <= |s| && DecimalsAt(s, i) == Some((l.fraction, l.exponent, end))
  {
    hide IntText;
    if l.fraction.None? {
      assert DecimalsText(l) == "";
      AtFirst(s, i, ".");
    } else {
      var fraction := l.fraction.value;
      assert DecimalsText(l) == "." + (fraction + ExponentText(l));
      AtSplit(s, i, ".", fraction + ExponentText(l));
      AtSplit(s, i + 1, fraction, ExponentText(l));
      hide At, DecimalsAt, ExponentText, LiteralEnds;
      FractionRead(s, i, l);
    }
  }

  lemma DecimalsStart(s: string, i: nat, l: Literal)
    requires LiteralOk(l) && At(s, i, DecimalsText(l)) && LiteralEnds(s, i + |DecimalsText(l)|, l)
    ensures Stops(s, i, Decimal.IsDigit)
  {
    if l.fraction.Some? {
      AtFirst(s, i, DecimalsText(l));
      assert DecimalsText(l)[0] == '.';
    } else {
      assert DecimalsText(l) == "";
    }
  }

  lemma UnsignedRead(s: string, i: nat, l: Literal)
    requires LiteralOk(l) && l.exponent != Some(I32_MIN)
    requires At(s, i, l.whole + DecimalsText(l)) && LiteralEnds(s, i + |l.whole + DecimalsText(l)|, l)
    ensures var whole, end := i + |l.whole|, i + |l.whole + DecimalsText(l)|;
      && i < whole <= end <= |s| && Decimal.IsDigit(s[i])
      && Run(s, i, Decimal.IsDigit) == whole && s[i..whole] == l.whole
      && DecimalsAt(s, whole) == Some((l.fraction, l.exponent, end))
  {
    hide *;
    var whole, decimals := l.whole, DecimalsText(l);
    LiteralParts(l);
    AtSplit(s, i, whole, decimals);
    AtFirst(s, i, whole);
    assert |whole + decimals| == |whole| + |decimals|;
    DecimalsStart(s, i + |whole|, l);
    DigitsRun(s, i, whole);
    DecimalsRead(s, i + |whole|, l);
    FirstDigit(s, i, whole);
  }

  lemma FirstDigit(s: string, i: nat, digits: string)
    requires digits != "" && Decimal.AllDigits(digits) && At(s, i, digits)
    ensures i < |s| && Decimal.IsDigit(s[i])
  {
    AtFirst(s, i, digits);
    assert digits[0] in digits;
  }

  lemma LiteralRead(s: string, i: nat, l: Literal)
    requires LiteralOk(l) && l.exponent != Some(I32_MIN)
    requires At(s, i, LiteralText(l)) && LiteralEnds(s, i + |LiteralText(l)|, l)
    ensures var end := i + |LiteralText(l)|;
      end <= |s| && LiteralAt(s, i) == Some((l, end))
    ensures Alone(s, i) && (s[i] == '-' || Decimal.IsDigit(s[i]))
  {
    hide *;
    var sign, rest := if l.negative then "-" else "", l.whole + DecimalsText(l);
    LiteralSplit(l);
    var start := i + |sign|;
    AtSplit(s, i, sign, rest);
    UnsignedRead(s, start, l);
    SignFirst(s, i, l.negative);
    Sign(s, i, l, start + |l.whole|, start + |rest|);
  }

  lemma LiteralSplit(l: Literal)
    ensures LiteralText(l) == (if l.negative then "-" else "") + (l.whole + DecimalsText(l))
  {
  }

  lemma SignFirst(s: string, i: nat, negative: bool)
    requires if negative then At(s, i, "-") && i + 1 < |s| && Decimal.IsDigit(s[i + 1])
      else i < |s| && Decimal.IsDigit(s[i])
    ensures At(s, i, "-") == negative && Alone(s, i) && (s[i] == '-' || Decimal.IsDigit(s[i]))
  {
    AtFirst(s, i, "-");
  }

  lemma Sign(s: string, i: nat, l: Literal, whole: nat, end: nat)
    requires i <= |s| && At(s, i, "-") == l.negative
    requires var start := if l.negative then i + 1 else i;
      && start < whole <= |s| && Run(s, start, Decimal.IsDigit) == whole && s[start..whole] == l.whole
      && DecimalsAt(s, whole) == Some((l.fraction, l.exponent, end))
    ensures LiteralAt(s, i) == Some((l, end))
  {
    hide At, Run, DecimalsAt;
  }

  lemma NumberRead(s: string, i: nat, l: Literal)
    requires LiteralOk(l) && l.exponent != Some(I32_MIN)
    requires At(s, i, LiteralText(l)) && LiteralEnds(s, i + |LiteralText(l)|, l)
    ensures var end := i + |LiteralText(l)|;
      end <= |s| && TokenAt(s, i) == Plain(i, Good(Number(NumberOf(l)), end))
  {
    hide At, TokenAt, LiteralAt, LiteralText, LiteralEnds, NumberOf;
    LiteralRead(s, i, l);
    Dispatch(s, i);
  }

  // Code blocks and documentation

  /** No pair of closing braces starts inside the text, or with its last character. */
  predicate CodeText(text: string) { forall k :: 0 <= k < |text| ==> !Closes(text, k) }

  predicate Closes(text: string, k: nat)
    requires k < |text|
  {
    text[k] == '}' && (k + 1 == |text| || text[k + 1] == '}')
  }

  lemma CodeStep(s: string, i: nat, text: string)
    requires text != "" && At(s, i, text + "}}") && CodeText(text)
    ensures i + |text| + 2 <= |s| && !At(s, i, "}}") && At(s, i + 1, text[1..] + "}}") && CodeText(text[1..])
  {
    var rest, all := text[1..], text + "}}";
    assert all == [text[0]] + (rest + "}}");
    AtSplit(s, i, [text[0]], rest + "}}");
    AtFirst(s, i, [text[0]]);
    AtFirst(s, i + 1, rest + "}}");
    AtTwo(s, i, "}}");
    hide At;
    assert !Closes(text, 0);
    assert |text| > 1 ==> (rest + "}}")[0] == text[1];
    forall k | 0 <= k < |rest|
      ensures !Closes(rest, k)
    {
      assert !Closes(text, k + 1);
      assert rest[k] == text[k + 1] && (k + 1 < |rest| ==> rest[k + 1] == text[k + 2]);
    }
  }

  lemma {:induction false} CodeEndRead(s: string, i: nat, text: string)
    requires At(s, i, text + "}}") && CodeText(text)
    ensures i + |text| + 2 <= |s| && CodeEnd(s, i) == Some(i + |text|)
    decreases text
  {
    hide At, CodeText;
    if text == "" {
      assert text + "}}" == "}}";
      AtTwo(s, i, "}}");
    } else {
      CodeStep(s, i, text);
      CodeEndRead(s, i + 1, text[1..]);
    }
  }

  /** A code block is read as three tokens. */
  lemma CodeRead(s: string, i: nat, text: string)
    requires At(s, i, "{{" + (text + "}}")) && CodeText(text)
    ensures var end := i + |text| + 4;
      var inside, closing := State(i + 2, Some((i, i + 2)), None), State(end, None, Some((end - 2, end)));
      && end <= |s|
      && TokenAt(s, i) == Emit(i, CodeOpen, i + 2, inside)
      && StateOk(s, inside) && NextStep(s, inside) == Emit(i, CodeContent(text), end, closing)
      && StateOk(s, closing) && NextStep(s, closing) == Emit(end - 2, CodeClose, end, State(end, None, None))
  {
    AtSplit(s, i, "{{", text + "}}");
    AtSplit(s, i + 2, text, "}}");
    AtIndex(s, i + 2, text);
    Openings(s, i);
    assert s[i + 2..i + 2 + |text|] == text;
    hide At;
    CodeEndRead(s, i + 2, text);
  }

  /** A documentation comment of some lines, each on a line of its own. */
  function DocText(mark: string, lines: seq<string>): string {
    if lines == [] then "" else "//" + mark + lines[0] + "\n" + DocText(mark, lines[1..])
  }

  predicate OneLine(line: string) { forall k :: 0 <= k < |line| ==> InLine(line[k]) }

  lemma LineRead(s: string, i: nat, line: string)
    requires At(s, i, line + "\n") && OneLine(line) && Stops(s, i + |line| + 1, IsLineEnd)
    ensures var end := i + |line|;
      end < |s| && Run(s, i, InLine) == end && s[i..end] == line && Run(s, end, IsLineEnd) == end + 1
  {
    AtSplit(s, i, line, "\n");
    AtIndex(s, i, line);
    AtFirst(s, i + |line|, "\n");
    forall k | i <= k < i + |line|
      ensures InLine(s[k])
    {
      assert s[i + (k - i)] == line[k - i];
    }
    RunOver(s, i, i + |line|, InLine);
    RunOver(s, i + |line|, i + |line| + 1, IsLineEnd);
  }

  lemma {:induction false} DocLinesRead(s: string, i: nat, mark: string, lines: seq<string>)
    requires |mark| == 1 && At(s, i, DocText(mark, lines)) && forall k :: 0 <= k < |lines| ==> OneLine(lines[k])
    requires var end := i + |DocText(mark, lines)|;
      end <= |s| && Stops(s, end, IsSpace) && !At(s, end, "//" + mark)
    ensures DocLines(s, i, mark) == (lines, i + |DocText(mark, lines)|)
    decreases lines
  {
    NoDoc(mark);
    hide *;
    if lines == [] {
      DocOver(s, i, mark);
    } else {
      var line, rest := lines[0], lines[1..];
      var tail := DocText(mark, rest);
      DocSplit(mark, lines);
      AtSplit(s, i, "//" + mark, (line + "\n") + tail);
      AtSplit(s, i + 3, line + "\n", tail);
      DocStart(s, i + 4 + |line|, mark, rest);
      LineRead(s, i + 3, line);
      OpenRead(s, i, mark);
      DocNext(s, i, mark, line);
      DocLinesRead(s, i + 4 + |line|, mark, rest);
      assert [line] + rest == lines;
    }
  }

  lemma NoDoc(mark: string)
    ensures DocText(mark, []) == ""
  {
  }

  lemma DocOver(s: string, i: nat, mark: string)
    requires |mark| == 1 && i <= |s| && Stops(s, i, IsSpace) && !At(s, i, "//" + mark)
    ensures DocText(mark, []) == "" && DocLines(s, i, mark) == ([], i)
  {
    RunOver(s, i, i, IsSpace);
  }

  lemma DocNext(s: string, i: nat, mark: string, line: string)
    requires |mark| == 1 && At(s, i, "//" + mark) && i + 3 + |line| < |s| && Run(s, i, IsSpace) == i
    requires Run(s, i + 3, InLine) == i + 3 + |line| && s[i + 3..i + 3 + |line|] == line
    requires Run(s, i + 3 + |line|, IsLineEnd) == i + 4 + |line|
    ensures var rest := DocLines(s, i + 4 + |line|, mark); DocLines(s, i, mark) == ([line] + rest.0, rest.1)
  {
    hide *;
    LineSkipped(s, i + 3, line);
    IdlLexer.DocStep(s, i, mark);
  }

  lemma DocSplit(mark: string, lines: seq<string>)
    requires lines != []
    ensures DocText(mark, lines) == "//" + mark + ((lines[0] + "\n") + DocText(mark, lines[1..]))
    ensures |mark| == 1 ==> |DocText(mark, lines)| == 4 + |lines[0]| + |DocText(mark, lines[1..])|
  {
  }

  lemma OpenRead(s: string, i: nat, mark: string)
    requires |mark| == 1 && At(s, i, "//" + mark)
    ensures i + 3 <= |s| && Run(s, i, IsSpace) == i
  {
    AtFirst(s, i, "//" + mark);
    RunOver(s, i, i, IsSpace);
  }

  lemma LineSkipped(s: string, i: nat, line: string)
    requires i + |line| < |s| && Run(s, i, InLine) == i + |line| && Run(s, i + |line|, IsLineEnd) == i + |line| + 1
    ensures LineEnd(s, i) == i + |line| + 1
  {
  }

  /** Neither a line of documentation nor what follows it starts with a line break. */
  lemma DocStart(s: string, i: nat, mark: string, lines: seq<string>)
    requires |mark| == 1 && At(s, i, DocText(mark, lines))
    requires lines == [] ==> Stops(s, i, IsSpace)
    ensures Stops(s, i, IsLineEnd)
  {
    if lines != [] {
      AtFirst(s, i, DocText(mark, lines));
      assert DocText(mark, lines)[0] == '/';
    }
  }

  /** Documentation is read line by line. */
  lemma DocRead(s: string, i: nat, package: bool, lines: seq<string>)
    requires lines != [] && forall k :: 0 <= k < |lines| ==> OneLine(lines[k])
    requires var mark := if package then "!" else "/";
      var end := i + |DocText(mark, lines)|;
      At(s, i, DocText(mark, lines)) && end <= |s| && Stops(s, end, IsSpace) && !At(s, end, "//" + mark)
    ensures var end := i + |DocText(if package then "!" else "/", lines)|;
      TokenAt(s, i) == Plain(i, Good(if package then PackageDocComment(lines) else DocComment(lines), end))
  {
    hide *;
    var mark := if package then "!" else "/";
    DocLinesRead(s, i, mark, lines);
    DocSplit(mark, lines);
    AtSplit(s, i, "//" + mark, (lines[0] + "\n") + DocText(mark, lines[1..]));
    DocDispatch(s, i, package, lines, i + |DocText(mark, lines)|);
  }

  lemma DocDispatch(s: string, i: nat, package: bool, lines: seq<string>, end: nat)
    requires var mark := if package then "!" else "/";
      i <= |s| && At(s, i, "//" + mark) && DocLines(s, i, mark) == (lines, end)
    ensures TokenAt(s, i) == Plain(i, Good(if package then PackageDocComment(lines) else DocComment(lines), end))
  {
    AtIndex(s, i, "///");
    AtIndex(s, i, "//!");
    if package {
      assert "//" + "!" == "//!";
    } else {
      assert "//" + "/" == "///" && s[i + 2] == "///"[2];
    }
    hide DocLines, At;
  }

  // Whole texts

  /** What can be written between blanks. */
  datatype Written =
    | WrittenSymbol(symbol: Symbol)
    | WrittenKeyword(keyword: Keyword)
    | WrittenName(name: string)
    | WrittenTypeName(name: string)
    | WrittenNumber(literal: Literal)
    | WrittenString(text: string)

  predicate Writable(w: Written) {
    match w
    case WrittenName(name) => Name(name)
    case WrittenTypeName(name) => TypeName(name)
    case WrittenNumber(literal) => LiteralOk(literal) && literal.exponent != Some(I32_MIN)
    case _ => true
  }

  /** Names are written with an underscore, which makes every name an identifier. */
  function TextOf(w: Written): string {
    match w
    case WrittenSymbol(symbol) => SymbolText(symbol)
    case WrittenKeyword(keyword) => keyword.Ident()
    case WrittenName(name) => "_" + name
    case WrittenTypeName(name) => name
    case WrittenNumber(literal) => LiteralText(literal)
    case WrittenString(text) => "\"" + (StringText(text) + "\"")
  }

  function TokenOf(w: Written): Token
    requires Writable(w)
  {
    match w
    case WrittenSymbol(symbol) => IdlSyntax.Symbol(symbol)
    case WrittenKeyword(keyword) => KeywordToken(keyword)
    case WrittenName(name) => Identifier(name)
    case WrittenTypeName(name) => TypeIdentifier(name)
    case WrittenNumber(literal) => Number(NumberOf(literal))
    case WrittenString(text) => QuotedString(text)
  }

  function TextOfAll(ws: seq<Written>): string {
    if ws == [] then "" else TextOf(ws[0]) + " " + TextOfAll(ws[1..])
  }

  lemma WrittenRead(s: string, i: nat, w: Written)
    requires Writable(w) && At(s, i, TextOf(w)) && Next(s, i + |TextOf(w)|, ' ')
    ensures TokenAt(s, i) == Plain(i, Good(TokenOf(w), i + |TextOf(w)|))
  {
    hide At, TokenAt, NumberOf, StringText, LiteralText, SymbolText, Keyword.Ident;
    match w {
      case WrittenSymbol(symbol) => SymbolRead(s, i, symbol);
      case WrittenKeyword(keyword) => KeywordRead(s, i, keyword);
      case WrittenName(name) => EscapedRead(s, i, "_", name);
      case WrittenTypeName(name) => TypeIdentifierRead(s, i, name);
      case WrittenNumber(literal) => NumberRead(s, i, literal);
      case WrittenString(text) => StringRead(s, i, text);
    }
  }

  /** The text of a token starts with something that is not skipped. */
  lemma WrittenStarts(w: Written)
    requires Writable(w)
    ensures TextOf(w) != "" && TextOf(w)[0] != ' ' && TextOf(w)[0] != '/' && !IsSpace(TextOf(w)[0])
  {
    if w.WrittenNumber? {
      LiteralSplit(w.literal);
      assert w.literal.whole[0] in w.literal.whole;
    }
  }

  function TokensOf(ws: seq<Written>): seq<Token>
    requires forall i :: 0 <= i < |ws| ==> Writable(ws[i])
  {
    if ws == [] then [] else [TokenOf(ws[0])] + TokensOf(ws[1..])
  }

  function Read(ts: IdlRuns.Tokens): seq<Token> { if ts.Next? then [ts.token] + Read(ts.rest) else [] }

  /** Nothing is skipped before a token. */
  lemma NothingSkipped(s: string, i: nat)
    requires i <= |s| && (i < |s| ==> s[i] != '/' && !IsSpace(s[i]))
    ensures Skip(s, i) == i
  {
    Openings(s, i);
    hide At;
  }

  lemma BlankSkipped(s: string, i: nat)
    requires Next(s, i, ' ')
    ensures Skip(s, i) == Skip(s, i + 1)
  {
    Openings(s, i);
    hide At;
  }

  lemma LastStep(s: string, st: State)
    requires StateOk(s, st) && st.close.None? && st.block.None? && Skip(s, st.pos) == |s|
    ensures IdlRuns.LexFrom(s, st) == IdlRuns.Finished
  {
    Openings(s, |s|);
    hide At, Skip;
  }

  lemma TokenStep(s: string, st: State, i: nat, token: Token, end: nat)
    requires StateOk(s, st) && st.close.None? && st.block.None? && Skip(s, st.pos) == i
    requires TokenAt(s, i) == Plain(i, Good(token, end))
    ensures StateOk(s, State(end, None, None))
    ensures IdlRuns.LexFrom(s, st) == IdlRuns.Next(i, token, end, IdlRuns.LexFrom(s, State(end, None, None)))
  {
    IdlRuns.StepProgress(s, st);
    hide Skip, TokenAt;
  }

  /** From a place after which only tokens and blanks come. */
  lemma {:induction false} RunReads(s: string, st: State, i: nat, ws: seq<Written>)
    requires forall k :: 0 <= k < |ws| ==> Writable(ws[k])
    requires StateOk(s, st) && st.close.None? && st.block.None?
    requires i <= |s| && s[i..] == TextOfAll(ws) && Skip(s, st.pos) == Skip(s, i)
    ensures Read(IdlRuns.LexFrom(s, st)) == TokensOf(ws) && IdlRuns.Succeeds(IdlRuns.LexFrom(s, st))
    decreases ws
  {
    hide *;
    if ws == [] {
      NoTokens();
      NothingSkipped(s, i);
      LastStep(s, st);
    } else {
      var w, end := ws[0], i + |TextOf(ws[0])|;
      FirstToken(ws, IdlRuns.LexFrom(s, st));
      PlaceOf(s, i, TextOf(w), TextOfAll(ws[1..]));
      WrittenStarts(w);
      NothingSkipped(s, i);
      WrittenRead(s, i, w);
      TokenStep(s, st, i, TokenOf(w), end);
      BlankSkipped(s, end);
      RunReads(s, State(end, None, None), end + 1, ws[1..]);
    }
  }

  lemma NoTokens()
    ensures TextOfAll([]) == "" && TokensOf([]) == []
    ensures Read(IdlRuns.Finished) == [] && IdlRuns.Succeeds(IdlRuns.Finished)
  {
  }

  lemma FirstToken(ws: seq<Written>, ts: IdlRuns.Tokens)
    requires ws != [] && forall k :: 0 <= k < |ws| ==> Writable(ws[k])
    ensures TextOfAll(ws) == TextOf(ws[0]) + " " + TextOfAll(ws[1..])
    ensures TokensOf(ws) == [TokenOf(ws[0])] + TokensOf(ws[1..])
    ensures ts.Next? ==>
      Read(ts) == [ts.token] + Read(ts.rest) && (IdlRuns.Succeeds(ts) <==> IdlRuns.Succeeds(ts.rest))
  {
  }

  lemma PlaceOf(s: string, i: nat, text: string, rest: string)
    requires i <= |s| && s[i..] == text + " " + rest
    ensures At(s, i, text) && Next(s, i + |text|, ' ') && s[i + |text| + 1..] == rest
    ensures text != "" ==> s[i] == text[0]
  {
    var tail := s[i..];
    assert tail[..|text|] == text && s[i..i + |text|] == tail[..|text|];
    assert tail[|text|] == ' ' == s[i + |text|];
    assert tail[|text| + 1..] == rest && s[i + |text| + 1..] == tail[|text| + 1..];
    if text != "" {
      assert tail[0] == text[0] == s[i];
    }
  }

  /** The lexer reads a text assembled from tokens as exactly those tokens. */
  lemma WrittenTextRead(ws: seq<Written>)
    requires forall k :: 0 <= k < |ws| ==> Writable(ws[k])
    ensures var run := IdlRuns.LexFrom(TextOfAll(ws), IdlRuns.START);
      Read(run) == TokensOf(ws) && IdlRuns.Succeeds(run)
  {
    var s := TextOfAll(ws);
    assert s[0..] == s;
    RunReads(s, IdlRuns.START, 0, ws);
  }
}
