/** Printing strings and field names so that the lexer reads them back (lib/backend-reproto/lib.rs,
    lib/lexer/token.rs). */
module IdlPrinting {
  import opened Wrappers
  import opened IdlSyntax

  // Quoted strings

  function QuoteChar(c: char): string {
    match c
    case '\t' => "\\t"
    case '\U{7}' => "\\b"
    case '\n' => "\\n"
    case '\r' => "\\r"
    case '\U{14}' => "\\f"
    case '\'' => "\\'"
    case '\"' => "\\\""
    case '\\' => "\\\\"
    case _ => [c]
  }

  function Quote(text: string): string {
    if text == "" then "" else QuoteChar(text[0]) + Quote(text[1..])
  }

  method WriteQuoted(input: string) returns (out: string)
    ensures out == Quote(input)
  {
    out := "";
    for n := 0 to |input|
      invariant out == Quote(input[..n])
    {
      var piece;
      match input[n] {
        case '\t' => piece := "\\t";
        case '\U{7}' => piece := "\\b";
        case '\n' => piece := "\\n";
        case '\r' => piece := "\\r";
        case '\U{14}' => piece := "\\f";
        case '\'' => piece := "\\'";
        case '\"' => piece := "\\\"";
        case '\\' => piece := "\\\\";
        case _ => piece := [input[n]];
      }
      assert piece == QuoteChar(input[n]);
      QuoteSnoc(input[..n], input[n]);
      assert input[..n + 1] == input[..n] + [input[n]];
      out := out + piece;
    }
    assert input[..|input|] == input;
  }

  lemma {:induction false} QuoteSnoc(text: string, c: char)
    ensures Quote(text + [c]) == Quote(text) + QuoteChar(c)
  {
    hide QuoteChar;
    if text == "" {
      assert Quote([c]) == QuoteChar(c) + Quote([c][1..]);
    } else {
      QuoteSnoc(text[1..], c);
      assert (text + [c])[1..] == text[1..] + [c];
      assert QuoteChar(text[0]) + (Quote(text[1..]) + QuoteChar(c)) == Quote(text) + QuoteChar(c);
    }
  }

  /** Characters whose printed escape the lexer knows. */
  predicate Known(c: char) { c != '\'' && c != '\U{7}' && c != '\U{14}' }

  predicate AllKnown(text: string) { forall i :: 0 <= i < |text| ==> Known(text[i]) }

  lemma OneChar(s: string, i: nat, c: char, buffer: string)
    requires At(s, i, QuoteChar(c))
    ensures i < |s| && i + |QuoteChar(c)| <= |s|
    ensures StringFrom(s, i, buffer) ==
      if Known(c) then StringFrom(s, i + |QuoteChar(c)|, buffer + [c]) else None
  {
    var q := QuoteChar(c);
    assert s[i..i + |q|][0] == s[i];
    if |q| == 2 {
      assert s[i..i + |q|][1] == s[i + 1];
    }
  }

  lemma AtSplit(s: string, i: nat, a: string, b: string)
    requires At(s, i, a + b)
    ensures At(s, i, a) && At(s, i + |a|, b)
  {
    var whole := s[i..i + |a + b|];
    assert s[i..i + |a|] == whole[..|a|] && s[i + |a|..i + |a| + |b|] == whole[|a|..];
  }

  lemma QuoteEnd(s: string, i: nat, buffer: string)
    requires At(s, i, "\"")
    ensures StringFrom(s, i, buffer) == Some((buffer + "", i + 1)) && AllKnown("")
  {
    assert s[i..i + 1][0] == s[i] && buffer + "" == buffer;
  }

  /** Reading a printed string up to its closing quote. */
  lemma {:induction false} QuoteFrom(s: string, i: nat, text: string, buffer: string)
    requires At(s, i, Quote(text)) && At(s, i + |Quote(text)|, "\"")
    ensures StringFrom(s, i, buffer) ==
      if AllKnown(text) then Some((buffer + text, i + |Quote(text)| + 1)) else None
    decreases text
  {
    hide QuoteChar, StringFrom, Known, AllKnown, At;
    if text == "" {
      QuoteEnd(s, i, buffer);
    } else {
      var c, rest := text[0], text[1..];
      AtSplit(s, i, QuoteChar(c), Quote(rest));
      OneChar(s, i, c, buffer);
      KnownStep(text);
      if Known(c) {
        QuoteFrom(s, i + |QuoteChar(c)|, rest, buffer + [c]);
        assert (buffer + [c]) + rest == buffer + text;
      }
    }
  }

  lemma KnownStep(text: string)
    requires text != ""
    ensures AllKnown(text) <==> Known(text[0]) && AllKnown(text[1..])
  {
    var rest := text[1..];
    assert forall i :: 0 <= i < |rest| ==> rest[i] == text[i + 1];
    assert forall i :: 0 < i < |text| ==> text[i] == rest[i - 1];
  }

  /** A printed string is read back as one token with the original text exactly if none of its characters
      is printed as an escape that the lexer does not know. */
  lemma QuotedRoundTrip(text: string, after: string)
    ensures StringAt("\"" + Quote(text) + "\"" + after, 0) ==
      if AllKnown(text) then Good(QuotedString(text), |Quote(text)| + 2) else Wrong
  {
    var s := "\"" + Quote(text) + "\"" + after;
    assert s[1..1 + |Quote(text)|] == Quote(text) && s[1 + |Quote(text)|..2 + |Quote(text)|] == "\"";
    QuoteFrom(s, 1, text, "");
    assert "" + text == text;
  }

  // Field names

  predicate IsLower(c: char) { 'a' <= c <= 'z' }

  predicate FieldName(name: string) {
    name != "" && IsLower(name[0]) && forall i :: 0 <= i < |name| ==> IsIdentChar(name[i])
  }

  // Keywords

  /** A keyword is read from its own text only. */
  lemma KeywordIff(text: string, k: Keyword)
    ensures MatchKeyword(text) == Some(k) <==> text == k.Ident()
  {
    KeywordMatches(k);
    KeywordText(text);
    hide MatchKeyword, Keyword.Ident;
  }

  lemma KeywordMatches(k: Keyword)
    ensures MatchKeyword(k.Ident()) == Some(k)
  {
  }

  lemma KeywordText(text: string)
    ensures MatchKeyword(text).Some? ==> text == MatchKeyword(text).value.Ident()
  {
  }

  /** The first half of the keywords. */
  predicate EarlyKeyword(k: Keyword) {
    k.AnyWord? || k.InterfaceWord? || k.TypeWord? || k.EnumWord? || k.TupleWord? || k.ServiceWord? ||
    k.UseWord? || k.AsWord? || k.FloatWord? || k.DoubleWord?
  }

  lemma EarlySafe(k: Keyword)
    requires EarlyKeyword(k)
    ensures k.Safe() == "_" + k.Ident()
  {
  }

  lemma LateSafe(k: Keyword)
    requires !EarlyKeyword(k)
    ensures k.Safe() == "_" + k.Ident()
  {
  }

  lemma KeywordSafe(k: Keyword)
    ensures k.Safe() == "_" + k.Ident()
  {
    hide *;
    if EarlyKeyword(k) {
      EarlySafe(k);
    } else {
      LateSafe(k);
    }
  }

  /** The keyword guard: keywords are printed with an underscore in front. */
  function Guarded(name: string): string {
    match MatchKeyword(name)
    case Some(k) => k.Safe()
    case None => name
  }

  lemma RunOver(s: string, i: nat, end: nat, class_: char -> bool)
    requires i <= end <= |s| && forall k :: i <= k < end ==> class_(s[k])
    requires end < |s| ==> !class_(s[end])
    ensures Run(s, i, class_) == end
  {
  }

  /** What a name and whatever follows it is read as. */
  lemma NameToken(underscore: bool, name: string, after: string)
    requires FieldName(name) && (after != "" ==> !IsIdentChar(after[0]))
    ensures var text, keyword := if underscore then "_" + name else name, MatchKeyword(name);
      IdentifierAt(text + after, 0) ==
        Good(if !underscore && keyword.Some? then KeywordToken(keyword.value) else Identifier(name), |text|)
  {
    hide MatchKeyword;
    var text := if underscore then "_" + name else name;
    var s, n := text + after, if underscore then 1 else 0;
    assert forall k :: 0 <= k < |name| ==> s[n + k] == name[k];
    assert s[n] == name[0];
    RunOver(s, 0, n, IsUnderscore);
    assert forall k :: n <= k < |text| ==> s[k] == name[k - n];
    RunOver(s, n, |text|, IsIdentChar);
    assert s[n..|text|] == name;
  }

  /** A printed field name is always read back as that identifier. */
  lemma GuardedRoundTrip(name: string, after: string)
    requires FieldName(name) && (after != "" ==> !IsIdentChar(after[0]))
    ensures IdentifierAt(Guarded(name) + after, 0) == Good(Identifier(name), |Guarded(name)|)
  {
    var keyword := MatchKeyword(name);
    if keyword.Some? {
      KeywordIff(name, keyword.value);
      KeywordSafe(keyword.value);
    }
    hide MatchKeyword;
    NameToken(keyword.Some?, name, after);
  }

  /** Without the guard this is so exactly for names that are not keywords. */
  lemma UnguardedRoundTrip(name: string, after: string)
    requires FieldName(name) && (after != "" ==> !IsIdentChar(after[0]))
    ensures IdentifierAt(name + after, 0) == Good(Identifier(name), |name|) <==>
      forall k: Keyword :: name != k.Ident()
  {
    NameToken(false, name, after);
    var keyword := MatchKeyword(name);
    forall k: Keyword
      ensures name == k.Ident() <==> keyword == Some(k)
    {
      KeywordIff(name, k);
    }
    hide MatchKeyword, IdentifierAt;
    if keyword.Some? {
      assert name == keyword.value.Ident();
    }
  }

  /** Both are what the lexer does at the start of a text. */
  lemma FirstToken(s: string)
    requires s != "" && (s[0] == '\"' || s[0] == '_' || IsLower(s[0]))
    ensures NextStep(s, State(0, None, None)) ==
      Plain(0, if s[0] == '\"' then StringAt(s, 0) else IdentifierAt(s, 0))
  {
    Starts(s, "//");
    Starts(s, "/*");
    Starts(s, "//!");
    Starts(s, "///");
    Starts(s, "{{");
    Starts(s, "::");
    Starts(s, "->");
    assert Skip(s, 0) == 0;
  }

  lemma Starts(s: string, text: string)
    requires s != "" && text != ""
    ensures At(s, 0, text) ==> s[0] == text[0]
  {
    if At(s, 0, text) {
      assert s[0..|text|][0] == s[0];
    }
  }
}
