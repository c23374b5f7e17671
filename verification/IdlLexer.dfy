/** The lexer of the schema language (lib/lexer/lexer.rs), one character at a time, proved to produce the
    tokens that `IdlSyntax` describes. */
module IdlLexer {
  import opened Wrappers
  import Decimal
  import opened IdlNumber
  import opened IdlSyntax

  class Lexer {
    const source: string
    var pos: nat
    var buffer: string
    var codeBlock: Option<(nat, nat)>
    var codeClose: Option<(nat, nat)>

    ghost predicate Valid()
      reads this
    {
      StateOk(source, Now())
    }

    function Now(): State
      reads this
    {
      State(pos, codeBlock, codeClose)
    }

    constructor (source: string)
      ensures Valid() && this.source == source && Now() == State(0, None, None)
    {
      this.source := source;
      pos, buffer, codeBlock, codeClose := 0, "", None, None;
    }

    function One(): Option<char>
      reads this
    {
      if pos < |source| then Some(source[pos]) else None
    }

    predicate Ahead(text: string)
      reads this
    {
      At(source, pos, text)
    }

    method StepN(n: nat)
      requires pos + n <= |source|
      modifies `pos
      ensures pos == old(pos) + n
    {
      pos := pos + n;
    }

    /** Consumes the characters of a class; yields where they end and the text since `start`. */
    method Take(start: nat, class_: char -> bool) returns (end: nat, content: string)
      requires start <= pos <= |source|
      modifies `pos
      ensures end == pos == Run(source, old(pos), class_) && content == source[start..end]
    {
      while One().Some? && class_(One().value)
        invariant old(pos) <= pos <= |source| && Run(source, pos, class_) == Run(source, old(pos), class_)
        decreases |source| - pos
      {
        StepN(1);
      }
      end := pos;
      content := source[start..end];
    }

    /** Consumes a line with the line breaks after it; yields the text of the line. */
    method TakeLine() returns (content: string)
      requires pos <= |source|
      modifies `pos
      ensures pos == LineEnd(source, old(pos)) && content == source[old(pos)..Run(source, old(pos), InLine)]
    {
      var start := pos;
      while One().Some? && !IsLineEnd(One().value)
        invariant start <= pos <= |source| && Run(source, pos, InLine) == Run(source, start, InLine)
        decreases |source| - pos
      {
        StepN(1);
      }
      content := source[start..pos];
      var end, ends := Take(pos, IsLineEnd);
    }

    method Identifier(start: nat) returns (r: Scanned)
      requires start == pos <= |source|
      modifies `pos
      ensures r == IdentifierAt(source, start) && pos == r.end
    {
      var stripped, underscores := Take(start, IsUnderscore);
      var end, content := Take(stripped, IsIdentChar);
      if stripped != start {
        return Good(IdlSyntax.Identifier(content), end);
      }
      match MatchKeyword(content) {
        case Some(keyword) => return Good(KeywordToken(keyword), end);
        case None => return Good(IdlSyntax.Identifier(content), end);
      }
    }

    method TypeIdentifier(start: nat) returns (r: Scanned)
      requires start == pos <= |source|
      modifies `pos
      ensures r == TypeIdentifierAt(source, start) && pos == r.end
    {
      var end, content := Take(start, IsTypeChar);
      return Good(IdlSyntax.TypeIdentifier(content), end);
    }

    /** Fraction and exponent, each folded into the number as it is read. */
    method ParseDecimals(whole: RpNumber) returns (r: Option<RpNumber>)
      requires pos <= |source|
      modifies `pos
      ensures var decimals := DecimalsAt(source, old(pos));
        && (r.Some? <==> decimals.Some?)
        && (r.Some? ==> r.value == Scaled(whole, decimals.value.0, decimals.value.1) && pos == decimals.value.2)
    {
      hide WithFraction, WithExponent, Decimal.Value, SkippedZeros, ParseI32, Run;
      if !Ahead(".") {
        return Some(whole);
      }
      StepN(1);
      var start := pos;
      var end, text := Take(start, Decimal.IsDigit);
      DigitRun(source, start, end);
      var fraction := ParseFraction(text);
      if fraction.None? {
        return None;
      }
      var number := ApplyFraction(whole, fraction.value.0, fraction.value.1, text);
      if !Ahead("e") {
        return Some(number);
      }
      StepN(1);
      var last, content := Take(pos, IsExponentChar);
      var exponent := ParseI32(content);
      if exponent.None? || exponent.value == I32_MIN {
        return None;
      }
      number := ApplyExponent(number, exponent.value);
      return Some(number);
    }

    method ParseNumber(start: nat) returns (r: Option<RpNumber>)
      requires start == pos <= |source|
      modifies `pos
      ensures var literal := LiteralAt(source, start);
        && (r.Some? <==> literal.Some?)
        && (r.Some? ==> r.value == NumberOf(literal.value.0) && pos == literal.value.1)
    {
      var negative := Ahead("-");
      if negative {
        StepN(1);
      }
      var offset := pos;
      var end, whole := Take(offset, Decimal.IsDigit);
      if whole == [] {
        return None;
      }
      DigitRun(source, offset, end);
      var number := ParseDecimals(RpNumber(Decimal.Value(whole), 0));
      if number.None? {
        return None;
      }
      return Some(if negative then number.value.(digits := -number.value.digits) else number.value);
    }

    method NumberToken(start: nat) returns (r: Scanned)
      requires start == pos <= |source|
      modifies `pos
      ensures r == NumberAt(source, start) && (r.Good? ==> pos == r.end)
    {
      var number := ParseNumber(start);
      return if number.Some? then Good(Number(number.value), pos) else Wrong;
    }

    /** Four hexadecimal digits, most significant first. */
    method DecodeUnicode4() returns (r: Option<char>)
      requires pos <= |source|
      modifies `pos
      ensures r == Unicode4(source, old(pos)) && (r.Some? ==> pos == old(pos) + 4)
    {
      var res := 0;
      ghost var start := pos;
      for x := 0 to 4
        invariant pos == start + x <= |source|
        invariant Hex(source, start, x).Some? && res == Hex(source, start, x).value * Place(x)
        invariant forall n :: x <= n <= 4 && Hex(source, start, n).Some? ==> start + n <= |source|
      {
        hide Place, HexValue;
        HexPrefix(source, start, x + 1);
        if One().None? {
          return None;
        }
        var c := HexValue(One().value);
        if c.None? {
          return None;
        }
        PlaceStep(Hex(source, start, x).value, c.value, x);
        res := res + c.value * Place(x + 1);
        StepN(1);
      }
      return if res < 0xD800 || 0xE000 <= res < 0x10000 then Some(res as char) else None;
    }

    /** At a backslash: the character it stands for. */
    method Escape() returns (r: Option<char>)
      requires pos < |source|
      modifies `pos
      ensures var found := EscapeAt(source, old(pos));
        && (r.Some? <==> found.Some?)
        && (r.Some? ==> r.value == found.value.0 && pos == found.value.1)
    {
      StepN(1);
      if One().None? {
        return None;
      }
      var escaped;
      match One().value {
        case 'n' => escaped := '\n';
        case 'r' => escaped := '\r';
        case 't' => escaped := '\t';
        case '\\' => escaped := '\\';
        case '\"' => escaped := '\"';
        case 'u' =>
          StepN(1);
          r := DecodeUnicode4();
          return;
        case _ => return None;
      }
      StepN(1);
      return Some(escaped);
    }

    method StringToken(start: nat) returns (r: Scanned)
      requires start == pos < |source|
      modifies `pos, `buffer
      ensures r == StringAt(source, start) && (r.Good? ==> pos == r.end)
    {
      buffer := "";
      StepN(1);
      while One().Some?
        invariant start < pos <= |source| && StringFrom(source, pos, buffer) == StringFrom(source, start + 1, "")
        decreases |source| - pos
      {
        var c := One().value;
        if c == '\\' {
          var escaped := Escape();
          if escaped.None? {
            return Wrong;
          }
          buffer := buffer + [escaped.value];
          continue;
        }
        if c == '\"' {
          StepN(1);
          return Good(QuotedString(buffer), pos);
        }
        buffer := buffer + [c];
        StepN(1);
      }
      return Wrong;
    }

    method DocComments(mark: string) returns (lines: seq<string>)
      requires pos <= |source| && |mark| == 1
      modifies `pos
      ensures (lines, pos) == DocLines(source, old(pos), mark)
    {
      hide DocLines, Run;
      lines := [];
      ghost var all := DocLines(source, pos, mark);
      assert lines + all.0 == all.0;
      while true
        invariant old(pos) <= pos <= |source|
        invariant all == (lines + DocLines(source, pos, mark).0, DocLines(source, pos, mark).1)
        decreases |source| - pos
      {
        DocStep(source, pos, mark);
        var start, spaces := Take(pos, IsSpace);
        if !Ahead("//" + mark) {
          assert lines + [] == lines;
          return;
        }
        StepN(3);
        ghost var rest := DocLines(source, LineEnd(source, pos), mark).0;
        var content := TakeLine();
        assert lines + ([content] + rest) == (lines + [content]) + rest;
        lines := lines + [content];
      }
    }

    /** Inside a code block: everything up to the closing braces. */
    method CodeBlock() returns (step: Step)
      requires Valid() && codeClose.None? && codeBlock.Some?
      modifies `pos, `codeBlock, `codeClose
      ensures step == NextStep(source, old(Now()))
      ensures step.Emit? ==> Now() == step.next
    {
      var (codeStart, start) := codeBlock.value;
      while pos + 2 <= |source|
        invariant start <= pos <= |source| && CodeEnd(source, pos) == CodeEnd(source, start)
        invariant codeBlock == old(codeBlock) && codeClose.None?
        decreases |source| - pos
      {
        if Ahead("}}") {
          var end := pos;
          StepN(2);
          var out := source[start..end];
          codeBlock := None;
          codeClose := Some((end, pos));
          return Emit(codeStart, CodeContent(out), pos, Now());
        }
        StepN(1);
      }
      return Failed;
    }

    method BlockComment()
      requires Ahead("/*")
      modifies `pos
      ensures pos == BlockEnd(source, old(pos) + 2)
    {
      StepN(2);
      while pos + 2 <= |source|
        invariant old(pos) + 2 <= pos <= |source| && BlockEnd(source, pos) == BlockEnd(source, old(pos) + 2)
        decreases |source| - pos
      {
        if Ahead("*/") {
          StepN(2);
          break;
        }
        StepN(1);
      }
    }

    /** Whitespace and comments in front of the next token. */
    method SkipBlanks()
      requires pos <= |source|
      modifies `pos
      ensures pos == Skip(source, old(pos))
    {
      hide Skip, LineEnd, BlockEnd;
      while true
        invariant old(pos) <= pos <= |source| && Skip(source, pos) == Skip(source, old(pos))
        decreases |source| - pos
      {
        SkipStep(source, pos);
        if AtDoc(source, pos) {
          return;
        }
        if Ahead("//") {
          StepN(2);
          var comment := TakeLine();
        } else if Ahead("/*") {
          BlockComment();
        } else if One().Some? && IsSpace(One().value) {
          StepN(1);
        } else {
          return;
        }
      }
    }

    /** The next token. */
    method Next() returns (step: Step)
      requires Valid()
      modifies this
      ensures step == NextStep(source, old(Now()))
      ensures step.Emit? ==> Now() == step.next && Valid()
    {
      if codeClose.Some? {
        var (start, end) := codeClose.value;
        codeClose := None;
        return Emit(start, CodeClose, end, Now());
      }
      if codeBlock.Some? {
        step := CodeBlock();
        return;
      }
      SkipBlanks();
      step := NormalToken();
    }

    method NormalToken() returns (step: Step)
      requires Valid() && codeClose.None? && codeBlock.None?
      modifies this
      ensures step == TokenAt(source, old(pos))
      ensures step.Emit? ==> Now() == step.next && Valid()
    {
      var start := pos;
      var scanned;
      if Ahead("//!") {
        var lines := DocComments("!");
        scanned := Good(PackageDocComment(lines), pos);
      } else if Ahead("///") {
        var lines := DocComments("/");
        scanned := Good(DocComment(lines), pos);
      } else if Ahead("{{") {
        StepN(2);
        codeBlock := Some((start, pos));
        return Emit(start, CodeOpen, pos, Now());
      } else if TwoCharSymbol(source, pos).Some? {
        var symbol := TwoCharSymbol(source, pos).value;
        StepN(2);
        scanned := Good(Symbol(symbol), pos);
      } else if One().None? {
        return Done;
      } else {
        var c := One().value;
        if OneCharSymbol(c).Some? {
          StepN(1);
          scanned := Good(Symbol(OneCharSymbol(c).value), pos);
        } else if c == '_' || 'a' <= c <= 'z' {
          scanned := Identifier(start);
        } else if 'A' <= c <= 'Z' {
          scanned := TypeIdentifier(start);
        } else if c == '\"' {
          scanned := StringToken(start);
        } else if c == '-' || Decimal.IsDigit(c) {
          scanned := NumberToken(start);
        } else {
          scanned := Wrong;
        }
      }
      return if scanned.Good? then Emit(start, scanned.token, scanned.end, Now()) else Failed;
    }
  }

  lemma DigitRun(s: string, start: nat, end: nat)
    requires start <= end <= |s| && forall k :: start <= k < end ==> Decimal.IsDigit(s[k])
    ensures Decimal.AllDigits(s[start..end])
  {
  }

  /** The weight of the first of `4 - x` hexadecimal digits that are still to be read, times 16. */
  function Place(x: nat): nat {
    if x == 0 then 65536 else if x == 1 then 4096 else if x == 2 then 256 else if x == 3 then 16 else 1
  }

  lemma PlaceStep(high: nat, digit: nat, x: nat)
    requires x < 4
    ensures high * Place(x) + digit * Place(x + 1) == (16 * high + digit) * Place(x + 1)
  {
  }

  lemma {:induction false} HexPrefix(s: string, i: nat, n: nat)
    requires n <= 4
    ensures Hex(s, i, n).None? ==> Hex(s, i, 4).None?
    decreases 4 - n
  {
    if n < 4 {
      HexPrefix(s, i, n + 1);
    }
  }

  lemma DocStep(s: string, i: nat, mark: string)
    requires i <= |s| && |mark| == 1
    ensures var start := Run(s, i, IsSpace);
      DocLines(s, i, mark) ==
        if At(s, start, "//" + mark) then
          var rest := DocLines(s, LineEnd(s, start + 3), mark);
          ([s[start + 3..Run(s, start + 3, InLine)]] + rest.0, rest.1)
        else ([], start)
  {
  }

  /** One step of skipping. */
  lemma SkipStep(s: string, i: nat)
    requires i <= |s|
    ensures Skip(s, i) ==
      if AtDoc(s, i) then i
      else if At(s, i, "//") then Skip(s, LineEnd(s, i + 2))
      else if At(s, i, "/*") then Skip(s, BlockEnd(s, i + 2))
      else if i < |s| && IsSpace(s[i]) then Skip(s, i + 1)
      else i
  {
    hide LineEnd, BlockEnd;
  }
}
