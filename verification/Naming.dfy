/** The naming transducer (lib/naming/lib.rs), for ASCII identifiers. */
module Naming {
  datatype Case = Lower | Upper

  /** How the first character, the first character of a later section, and all others are written, and
      what is put between sections. */
  datatype Style = Style(first: Case, open: Case, rest: Case, sep: string)

  const LOWER_CAMEL: Style := Style(Lower, Upper, Lower, "")
  const UPPER_CAMEL: Style := Style(Upper, Upper, Lower, "")
  const LOWER_SNAKE: Style := Style(Lower, Lower, Lower, "_")
  const UPPER_SNAKE: Style := Style(Upper, Upper, Upper, "_")

  predicate IsUpper(c: char) { 'A' <= c <= 'Z' }

  predicate IsLower(c: char) { 'a' <= c <= 'z' }

  predicate IsLetter(c: char) { IsUpper(c) || IsLower(c) }

  function Convert(case_: Case, c: char): char {
    match case_
    case Lower => if IsUpper(c) then c - 'A' + 'a' else c
    case Upper => if IsLower(c) then c - 'a' + 'A' else c
  }

  /** The output for the rest of an input; `first` until a character other than an underscore was seen,
      `open` after an underscore. */
  function From(style: Style, s: string, open: bool, first: bool): string {
    if s == "" then ""
    else
      var c, rest := s[0], s[1..];
      if c == '_' then if first then "_" + From(style, rest, open, first) else From(style, rest, true, first)
      else if first then [Convert(style.first, c)] + From(style, rest, false, false)
      else if IsUpper(c) || open then style.sep + [Convert(style.open, c)] + From(style, rest, false, false)
      else [Convert(style.rest, c)] + From(style, rest, false, false)
  }

  function Format(style: Style, s: string): string { From(style, s, true, true) }

  method InternalFormat(style: Style, input: string) returns (out: string)
    ensures out == Format(style, input)
  {
    hide Convert, IsUpper, From;
    out := "";
    var openSection, first := true, true;
    assert input[0..] == input && "" + Format(style, input) == Format(style, input);
    for n := 0 to |input|
      invariant out + From(style, input[n..], openSection, first) == Format(style, input)
    {
      var c := input[n];
      assert input[n..][0] == c && input[n..][1..] == input[n + 1..];
      FromStep(style, out, input[n..], openSection, first);
      if c == '_' && first {
        out := out + "_";
      } else if c == '_' {
        openSection := true;
      } else if first {
        out := out + [Convert(style.first, c)];
        first := false;
        openSection := false;
      } else if IsUpper(c) || openSection {
        out := out + style.sep;
        out := out + [Convert(style.open, c)];
        openSection := false;
      } else {
        out := out + [Convert(style.rest, c)];
      }
    }
    assert input[|input|..] == "" && From(style, "", openSection, first) == "" by {
      FromNothing(style, openSection, first);
    }
  }

  lemma FromNothing(style: Style, open: bool, first: bool)
    ensures From(style, "", open, first) == ""
  {
  }

  /** One character of input, with the output so far. */
  lemma FromStep(style: Style, out: string, s: string, open: bool, first: bool)
    requires s != ""
    ensures var c, rest := s[0], s[1..];
      out + From(style, s, open, first) ==
        if c == '_' && first then (out + "_") + From(style, rest, open, first)
        else if c == '_' then out + From(style, rest, true, first)
        else if first then (out + [Convert(style.first, c)]) + From(style, rest, false, false)
        else if IsUpper(c) || open then (out + style.sep + [Convert(style.open, c)]) + From(style, rest, false, false)
        else (out + [Convert(style.rest, c)]) + From(style, rest, open, false)
  {
    hide Convert, IsUpper;
  }

  lemma ConvertTwice(a: Case, b: Case, c: char)
    requires c != '_'
    ensures Convert(a, Convert(b, c)) == Convert(a, c) && Convert(b, c) != '_'
    ensures IsUpper(Convert(b, c)) <==> (b.Upper? && IsLetter(c)) || (b.Lower? && false)
  {
  }

  // Snake case loses nothing

  lemma {:induction false} ThroughSnakeFrom(style: Style, s: string, open: bool)
    ensures From(style, From(LOWER_SNAKE, s, open, false), false, false) == From(style, s, open, false)
  {
    if s != "" {
      var c, rest := s[0], s[1..];
      if c == '_' {
        ThroughSnakeFrom(style, rest, true);
      } else {
        ThroughSnakeFrom(style, rest, false);
        ConvertTwice(style.open, Lower, c);
        ConvertTwice(style.rest, Lower, c);
        var inner := From(LOWER_SNAKE, rest, false, false);
        var section := [Convert(Lower, c)] + inner;
        assert section[1..] == inner;
        if IsUpper(c) || open {
          assert ("_" + [Convert(Lower, c)] + inner)[1..] == section;
        }
      }
    }
  }

  lemma {:induction false} ThroughSnakeFirst(style: Style, s: string, open: bool)
    ensures From(style, From(LOWER_SNAKE, s, open, true), open, true) == From(style, s, open, true)
  {
    if s != "" {
      var c, rest := s[0], s[1..];
      if c == '_' {
        ThroughSnakeFirst(style, rest, open);
        assert ("_" + From(LOWER_SNAKE, rest, open, true))[1..] == From(LOWER_SNAKE, rest, open, true);
      } else {
        ThroughSnakeFrom(style, rest, false);
        ConvertTwice(style.first, Lower, c);
        var inner := From(LOWER_SNAKE, rest, false, false);
        assert ([Convert(Lower, c)] + inner)[1..] == inner;
      }
    }
  }

  /** Converting the lower-snake form is converting the original, into any style. */
  lemma ThroughSnake(style: Style, s: string)
    ensures Format(style, Format(LOWER_SNAKE, s)) == Format(style, s)
  {
    ThroughSnakeFirst(style, s, true);
  }

  // Camel case keeps sections apart for camel case

  predicate Camel(style: Style) { style.open.Upper? && style.rest.Lower? && style.sep == "" }

  lemma {:induction false} ThroughCamelFrom(style: Style, camel: Style, s: string, open: bool)
    requires Camel(style) && Camel(camel)
    ensures From(style, From(camel, s, open, false), false, false) == From(style, s, open, false)
  {
    if s != "" {
      var c, rest := s[0], s[1..];
      if c == '_' {
        ThroughCamelFrom(style, camel, rest, true);
      } else {
        ThroughCamelFrom(style, camel, rest, false);
        var inner := From(camel, rest, false, false);
        var written := if IsUpper(c) || open then Convert(Upper, c) else Convert(Lower, c);
        assert From(camel, s, open, false) == [written] + inner;
        assert ([written] + inner)[1..] == inner;
      }
    }
  }

  lemma {:induction false} ThroughCamelFirst(style: Style, camel: Style, s: string, open: bool)
    requires Camel(style) && Camel(camel)
    ensures From(style, From(camel, s, open, true), open, true) == From(style, s, open, true)
  {
    if s != "" {
      var c, rest := s[0], s[1..];
      if c == '_' {
        ThroughCamelFirst(style, camel, rest, open);
        assert ("_" + From(camel, rest, open, true))[1..] == From(camel, rest, open, true);
      } else {
        ThroughCamelFrom(style, camel, rest, false);
        ConvertTwice(style.first, camel.first, c);
        var inner := From(camel, rest, false, false);
        assert ([Convert(camel.first, c)] + inner)[1..] == inner;
      }
    }
  }

  /** Going from one camel case to another, or to the same one again, forgets the first step. */
  lemma ThroughCamel(style: Style, camel: Style, s: string)
    requires Camel(style) && Camel(camel)
    ensures Format(style, Format(camel, s)) == Format(style, s)
  {
    ThroughCamelFirst(style, camel, s, true);
  }

  lemma Idempotent(style: Style, s: string)
    requires style == LOWER_SNAKE || style == LOWER_CAMEL || style == UPPER_CAMEL
    ensures Format(style, Format(style, s)) == Format(style, s)
  {
    if style == LOWER_SNAKE {
      ThroughSnake(style, s);
    } else {
      ThroughCamel(style, style, s);
    }
  }

  // Upper snake case, once and twice

  /** Lower-case letters that do not directly follow an underscore, after the first character that is
      not one: upper snake case writes them in upper case, so that they open a section the next time. */
  function Grown(s: string, open: bool, first: bool): nat {
    if s == "" then 0
    else
      var c, rest := s[0], s[1..];
      if c == '_' then Grown(rest, if first then open else true, first)
      else (if !first && !open && IsLower(c) then 1 else 0) + Grown(rest, false, false)
  }

  lemma {:induction false} UpperSnakeTwiceFrom(s: string, open: bool)
    ensures var once := From(UPPER_SNAKE, s, open, false);
      var twice := From(UPPER_SNAKE, once, false, false);
      && |twice| == |once| + Grown(s, open, false)
      && (Grown(s, open, false) == 0 ==> twice == once)
  {
    if s != "" {
      var c, rest := s[0], s[1..];
      if c == '_' {
        UpperSnakeTwiceFrom(rest, true);
      } else {
        UpperSnakeTwiceFrom(rest, false);
        ConvertTwice(Upper, Upper, c);
        var inner := From(UPPER_SNAKE, rest, false, false);
        var section := [Convert(Upper, c)] + inner;
        assert section[1..] == inner;
        if IsUpper(c) || open {
          var once := "_" + [Convert(Upper, c)] + inner;
          assert once[1..] == section;
          assert From(UPPER_SNAKE, section, true, false) ==
            "_" + [Convert(Upper, c)] + From(UPPER_SNAKE, inner, false, false);
        }
      }
    }
  }

  lemma {:induction false} UpperSnakeTwiceFirst(s: string, open: bool)
    ensures var once := From(UPPER_SNAKE, s, open, true);
      var twice := From(UPPER_SNAKE, once, open, true);
      && |twice| == |once| + Grown(s, open, true)
      && (Grown(s, open, true) == 0 ==> twice == once)
  {
    if s != "" {
      var c, rest := s[0], s[1..];
      if c == '_' {
        UpperSnakeTwiceFirst(rest, open);
        assert ("_" + From(UPPER_SNAKE, rest, open, true))[1..] == From(UPPER_SNAKE, rest, open, true);
      } else {
        UpperSnakeTwiceFrom(rest, false);
        ConvertTwice(Upper, Upper, c);
        var inner := From(UPPER_SNAKE, rest, false, false);
        assert ([Convert(Upper, c)] + inner)[1..] == inner;
      }
    }
  }

  /** Whether nothing but underscores precedes position `i`. */
  predicate Leading(s: string, i: nat)
    requires i <= |s|
  {
    forall k :: 0 <= k < i ==> s[k] == '_'
  }

  /** Whether the character at `i` opens a section or is the first of all. */
  predicate Opens(s: string, i: nat, open: bool, first: bool)
    requires i < |s|
  {
    (if i == 0 then open else s[i - 1] == '_') || (first && Leading(s, i))
  }

  predicate AllOpen(s: string, open: bool, first: bool) {
    forall i :: 0 <= i < |s| && IsLower(s[i]) ==> Opens(s, i, open, first)
  }

  /** Position `i` of the tail, read with the flags after the first character, is position `i + 1`. */
  predicate OpensNext(s: string, rest: string, i: nat, open: bool, first: bool, open': bool, first': bool)
    requires i < |rest| && i + 1 < |s|
  {
    Opens(rest, i, open', first') <==> Opens(s, i + 1, open, first)
  }

  lemma {:induction false} GrownAt(s: string, open: bool, first: bool)
    ensures Grown(s, open, first) == 0 <==> AllOpen(s, open, first)
  {
    if s != "" {
      var c, rest := s[0], s[1..];
      var open', first' := if c != '_' then false else if first then open else true, first && c == '_';
      GrownAt(rest, open', first');
      assert Grown(s, open, first) ==
        (if IsLower(c) && !Opens(s, 0, open, first) then 1 else 0) + Grown(rest, open', first');
      forall i | 0 <= i < |rest| && IsLower(rest[i])
        ensures OpensNext(s, rest, i, open, first, open', first')
      {
        LeadingTail(s, rest, i);
      }
      TailPositions(s, rest, open, first, open', first');
    }
  }

  lemma LeadingTail(s: string, rest: string, i: nat)
    requires s != "" && rest == s[1..] && i <= |rest|
    ensures Leading(s, i + 1) <==> s[0] == '_' && Leading(rest, i)
  {
    if Leading(s, i + 1) {
      forall k | 0 <= k < i
        ensures rest[k] == '_'
      {
        assert s[k + 1] == '_';
      }
    }
  }

  lemma TailPositions(s: string, rest: string, open: bool, first: bool, open': bool, first': bool)
    requires s != "" && rest == s[1..]
    requires forall i :: 0 <= i < |rest| && IsLower(rest[i]) ==> OpensNext(s, rest, i, open, first, open', first')
    ensures AllOpen(s, open, first) <==>
      (IsLower(s[0]) ==> Opens(s, 0, open, first)) && AllOpen(rest, open', first')
  {
    hide Opens, IsLower;
    if (IsLower(s[0]) ==> Opens(s, 0, open, first)) && AllOpen(rest, open', first') {
      forall i | 0 <= i < |s| && IsLower(s[i])
        ensures Opens(s, i, open, first)
      {
        if i > 0 {
          assert rest[i - 1] == s[i] && OpensNext(s, rest, i - 1, open, first, open', first');
        }
      }
    }
    if AllOpen(s, open, first) {
      forall i | 0 <= i < |rest| && IsLower(rest[i])
        ensures Opens(rest, i, open', first')
      {
        assert rest[i] == s[i + 1] && OpensNext(s, rest, i, open, first, open', first');
      }
    }
  }

  /** Every lower-case letter after the first character that is not an underscore directly follows one. */
  predicate AllMarked(s: string) {
    forall i :: 0 < i < |s| && IsLower(s[i]) && !Leading(s, i) ==> s[i - 1] == '_'
  }

  lemma OpenIsMarked(s: string)
    ensures AllOpen(s, true, true) <==> AllMarked(s)
  {
    if AllMarked(s) {
      forall i | 0 <= i < |s| && IsLower(s[i])
        ensures Opens(s, i, true, true)
      {
      }
    }
    if AllOpen(s, true, true) {
      forall i | 0 < i < |s| && IsLower(s[i]) && !Leading(s, i)
        ensures s[i - 1] == '_'
      {
        assert Opens(s, i, true, true);
      }
    }
  }

  /** Upper snake case is idempotent on exactly the texts whose lower-case letters are all marked. */
  lemma UpperSnakeTwice(s: string)
    ensures Format(UPPER_SNAKE, Format(UPPER_SNAKE, s)) == Format(UPPER_SNAKE, s) <==> AllMarked(s)
  {
    UpperSnakeTwiceFirst(s, true);
    GrownAt(s, true, true);
    OpenIsMarked(s);
  }

  /** `ab` does not meet that condition, and grows with every pass. */
  lemma UpperSnakeGrows()
    ensures Format(UPPER_SNAKE, "ab") == "AB" && Format(UPPER_SNAKE, "AB") == "A_B"
  {
    assert "ab"[1..] == "b" && "b"[1..] == "" && "AB"[1..] == "B" && "B"[1..] == "";
    assert From(UPPER_SNAKE, "b", false, false) == "B";
    assert From(UPPER_SNAKE, "B", false, false) == "_B";
  }

  // From camel case back to snake case

  /** Sections after the first that do not start with a letter: camel case does not mark them. */
  function Unmarked(s: string, open: bool, first: bool): nat {
    if s == "" then 0
    else
      var c, rest := s[0], s[1..];
      if c == '_' then Unmarked(rest, if first then open else true, first)
      else (if !first && open && !IsLetter(c) then 1 else 0) + Unmarked(rest, false, false)
  }

  lemma {:induction false} CamelToSnakeFrom(s: string, open: bool)
    ensures var back, direct :=
        From(LOWER_SNAKE, From(UPPER_CAMEL, s, open, false), false, false), From(LOWER_SNAKE, s, open, false);
      && |back| + Unmarked(s, open, false) == |direct|
      && (Unmarked(s, open, false) == 0 ==> back == direct)
  {
    if s != "" {
      var c, rest := s[0], s[1..];
      if c == '_' {
        CamelToSnakeFrom(rest, true);
      } else {
        CamelToSnakeFrom(rest, false);
        var inner := From(UPPER_CAMEL, rest, false, false);
        var written := if IsUpper(c) || open then Convert(Upper, c) else Convert(Lower, c);
        assert From(UPPER_CAMEL, s, open, false) == [written] + inner;
        assert ([written] + inner)[1..] == inner;
      }
    }
  }

  lemma {:induction false} CamelToSnakeFirst(s: string, open: bool)
    ensures var back, direct :=
        From(LOWER_SNAKE, From(UPPER_CAMEL, s, open, true), open, true), From(LOWER_SNAKE, s, open, true);
      && |back| + Unmarked(s, open, true) == |direct|
      && (Unmarked(s, open, true) == 0 ==> back == direct)
  {
    if s != "" {
      var c, rest := s[0], s[1..];
      if c == '_' {
        CamelToSnakeFirst(rest, open);
        assert ("_" + From(UPPER_CAMEL, rest, open, true))[1..] == From(UPPER_CAMEL, rest, open, true);
      } else {
        CamelToSnakeFrom(rest, false);
        ConvertTwice(Lower, Upper, c);
        var inner := From(UPPER_CAMEL, rest, false, false);
        assert ([Convert(Upper, c)] + inner)[1..] == inner;
      }
    }
  }

  /** Lower snake case survives a detour over upper camel case exactly when every section after the first
      starts with a letter. */
  lemma CamelToSnake(s: string)
    ensures Format(LOWER_SNAKE, Format(UPPER_CAMEL, s)) == Format(LOWER_SNAKE, s) <==> Unmarked(s, true, true) == 0
  {
    CamelToSnakeFirst(s, true);
  }

  // Words

  /** A section of a name: a letter in lower case, then such letters and digits. */
  predicate Word(w: string) { w != "" && IsLower(w[0]) && WordChars(w) }

  predicate WordChars(w: string) { forall i :: 0 <= i < |w| ==> IsLower(w[i]) || '0' <= w[i] <= '9' }

  predicate Words(ws: seq<string>) { forall i :: 0 <= i < |ws| ==> Word(ws[i]) }

  function Raised(c: char): char { if IsLower(c) then "ABCDEFGHIJKLMNOPQRSTUVWXYZ"[c as int - 'a' as int] else c }

  function Shouted(w: string): string { if w == "" then "" else [Raised(w[0])] + Shouted(w[1..]) }

  function Capital(w: string): string
    requires w != ""
  {
    [Raised(w[0])] + w[1..]
  }

  /** `fooBar`, `FooBar`, `foo_bar` and `FOO_BAR`. */
  datatype Spelling = LowerCamel | UpperCamel | LowerSnake | UpperSnake {
    function Policy(): Style {
      match this
      case LowerCamel => LOWER_CAMEL
      case UpperCamel => UPPER_CAMEL
      case LowerSnake => LOWER_SNAKE
      case UpperSnake => UPPER_SNAKE
    }

    function First(w: string): string
      requires w != ""
    {
      match this
      case LowerCamel => w
      case UpperCamel => Capital(w)
      case LowerSnake => w
      case UpperSnake => Shouted(w)
    }

    function Later(w: string): string
      requires w != ""
    {
      match this
      case LowerCamel => Capital(w)
      case UpperCamel => Capital(w)
      case LowerSnake => "_" + w
      case UpperSnake => "_" + Shouted(w)
    }

    function Rest(ws: seq<string>): string
      requires Words(ws)
    {
      if ws == [] then "" else Later(ws[0]) + Rest(ws[1..])
    }

    function Spell(ws: seq<string>): string
      requires Words(ws)
    {
      if ws == [] then "" else First(ws[0]) + Rest(ws[1..])
    }

    function Tail(w: string): string { if UpperSnake? then Shouted(w) else w }
  }

  lemma RaisedIs(c: char)
    requires IsLower(c) || '0' <= c <= '9'
    ensures Convert(Upper, c) == Raised(c) && Convert(Lower, c) == c
    ensures Convert(Upper, Raised(c)) == Raised(c) && Convert(Lower, Raised(c)) == c
    ensures c != '_' && Raised(c) != '_' && !IsUpper(c) && (IsLower(c) ==> IsUpper(Raised(c)))
  {
  }

  lemma PlainStep(style: Style, c: char, s: string)
    requires c != '_' && !IsUpper(c)
    ensures From(style, [c] + s, false, false) == [Convert(style.rest, c)] + From(style, s, false, false)
  {
    assert ([c] + s)[1..] == s;
  }

  lemma FirstStep(style: Style, c: char, s: string)
    requires c != '_'
    ensures From(style, [c] + s, true, true) == [Convert(style.first, c)] + From(style, s, false, false)
  {
    assert ([c] + s)[1..] == s;
  }

  lemma OpenStep(style: Style, c: char, s: string)
    requires c != '_'
    ensures From(style, "_" + [c] + s, false, false) ==
      style.sep + [Convert(style.open, c)] + From(style, s, false, false)
  {
    assert ("_" + [c] + s)[1..] == [c] + s && ([c] + s)[1..] == s;
  }

  lemma CapitalStep(style: Style, c: char, s: string)
    requires IsUpper(c)
    ensures From(style, [c] + s, false, false) == style.sep + [Convert(style.open, c)] + From(style, s, false, false)
  {
    assert ([c] + s)[1..] == s;
  }

  lemma Policies(to: Spelling, c: char)
    requires IsLower(c) || '0' <= c <= '9'
    ensures var style, upper := to.Policy(), Raised(c);
      && Convert(style.rest, c) == (if to.UpperSnake? then upper else c)
      && Convert(style.first, c) == Convert(style.first, upper) ==
           (if to.UpperCamel? || to.UpperSnake? then upper else c)
      && Convert(style.open, c) == Convert(style.open, upper) == (if to.LowerSnake? then c else upper)
      && style.sep == if to.LowerSnake? || to.UpperSnake? then "_" else ""
  {
    RaisedIs(c);
  }

  lemma WordSplit(w: string)
    requires WordChars(w) && w != ""
    ensures WordChars(w[1..]) && (IsLower(w[0]) || '0' <= w[0] <= '9')
  {
  }

  lemma TailStep(to: Spelling, c: char, w: string, after: string)
    ensures to.Tail([c] + w) + after == [if to.UpperSnake? then Raised(c) else c] + (to.Tail(w) + after)
  {
    assert ([c] + w)[1..] == w;
  }

  /** What follows the first letter of a word, when what comes after it is known. */
  lemma {:induction false} TailFormat(to: Spelling, w: string, after: string)
    requires WordChars(w)
    ensures From(to.Policy(), w + after, false, false) == to.Tail(w) + From(to.Policy(), after, false, false)
    decreases w
  {
    var style := to.Policy();
    if w == "" {
      assert to.Tail(w) == "";
      hide *;
      assert w + after == after;
      assert "" + From(style, after, false, false) == From(style, after, false, false);
    } else {
      hide *;
      var c, rest := w[0], w[1..];
      WordSplit(w);
      RaisedIs(c);
      Policies(to, c);
      assert w == [c] + rest && w + after == [c] + (rest + after);
      TailFormat(to, rest, after);
      PlainStep(style, c, rest + after);
      TailStep(to, c, rest, From(style, after, false, false));
    }
  }

  lemma LaterSplit(sp: Spelling, w: string, after: string)
    requires Word(w)
    ensures var c, rest := w[0], w[1..];
      sp.Later(w) + after ==
        (if sp.LowerSnake? || sp.UpperSnake? then "_" else "") + [if sp.LowerSnake? then c else Raised(c)]
        + (sp.Tail(rest) + after)
  {
  }

  lemma FirstSplit(sp: Spelling, w: string, after: string)
    requires Word(w)
    ensures var c, rest := w[0], w[1..];
      sp.First(w) + after == [if sp.UpperCamel? || sp.UpperSnake? then Raised(c) else c] + (sp.Tail(rest) + after)
  {
  }

  /** A later word, written after an underscore or with a capital. */
  lemma LaterFormat(source: Spelling, to: Spelling, w: string, after: string)
    requires !source.UpperSnake? && Word(w)
    ensures From(to.Policy(), source.Later(w) + after, false, false) ==
      to.Later(w) + From(to.Policy(), after, false, false)
  {
    var c, rest, style := w[0], w[1..], to.Policy();
    RaisedIs(c);
    Policies(to, c);
    LaterSplit(source, w, after);
    LaterSplit(to, w, From(style, after, false, false));
    assert source.Tail(rest) == rest;
    hide *;
    TailFormat(to, rest, after);
    if source.LowerSnake? {
      OpenStep(style, c, rest + after);
    } else {
      assert "" + [Raised(c)] == [Raised(c)];
      CapitalStep(style, Raised(c), rest + after);
    }
  }

  lemma {:induction false} RestFormat(source: Spelling, to: Spelling, ws: seq<string>)
    requires !source.UpperSnake? && Words(ws)
    ensures From(to.Policy(), source.Rest(ws), false, false) == to.Rest(ws)
    decreases ws
  {
    if ws != [] {
      LaterFormat(source, to, ws[0], source.Rest(ws[1..]));
      RestFormat(source, to, ws[1..]);
    }
  }

  lemma FirstFormat(source: Spelling, to: Spelling, w: string, after: string)
    requires !source.UpperSnake? && Word(w)
    ensures Format(to.Policy(), source.First(w) + after) == to.First(w) + From(to.Policy(), after, false, false)
  {
    var c, rest, style := w[0], w[1..], to.Policy();
    RaisedIs(c);
    Policies(to, c);
    FirstSplit(source, w, after);
    FirstSplit(to, w, From(style, after, false, false));
    assert source.Tail(rest) == rest;
    assert Format(style, source.First(w) + after) == From(style, source.First(w) + after, true, true);
    hide *;
    TailFormat(to, rest, after);
    FirstStep(style, if source.UpperCamel? then Raised(c) else c, rest + after);
  }

  /** A name of several words, in snake case or a camel case, is converted to the same words in any style. */
  lemma SpellingsConvert(source: Spelling, to: Spelling, ws: seq<string>)
    requires !source.UpperSnake? && Words(ws)
    ensures Format(to.Policy(), source.Spell(ws)) == to.Spell(ws)
  {
    if ws != [] {
      FirstFormat(source, to, ws[0], source.Rest(ws[1..]));
      RestFormat(source, to, ws[1..]);
    }
  }
}
