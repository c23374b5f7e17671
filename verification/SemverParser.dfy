/** The lexer and parser as the stateful objects they are: a character iterator with two characters
    of lookahead under a parser with one token of lookahead. Every method is proved to compute what
    `SemverSyntax` says and to leave exactly the rest of the input. */
module SemverParser {
  import opened Wrappers
  import Decimal
  import opened SemverVersion
  import opened SemverRange
  import opened SemverSyntax

  class Lexer {
    const input: string
    /** Next index the character iterator will yield. */
    var next: nat
    var c1: Option<(nat, char)>
    var c2: Option<(nat, char)>

    function CharAt(i: nat): Option<(nat, char)> {
      if i < |input| then Some((i, input[i])) else None
    }

    /** Index of the first character that has not been consumed. */
    function Pos(): nat
      reads this
    {
      if c1.Some? then c1.value.0 else |input|
    }

    ghost predicate Valid()
      reads this
    {
      && Pos() <= |input|
      && c1 == CharAt(Pos())
      && c2 == CharAt(Pos() + 1)
      && next == (if Pos() + 2 <= |input| then Pos() + 2 else |input|)
    }

    ghost function Rest(): string
      reads this
      requires Valid()
    {
      input[Pos()..]
    }

    constructor (text: string)
      ensures Valid() && input == text && Pos() == 0
    {
      input := text;
      c1 := if |text| > 0 then Some((0, text[0])) else None;
      c2 := if |text| > 1 then Some((1, text[1])) else None;
      next := if |text| > 1 then 2 else |text|;
    }

    method Step()
      requires Valid()
      modifies this
      ensures Valid() && Pos() == if old(Pos()) < |input| then old(Pos()) + 1 else old(Pos())
    {
      c1 := c2;
      c2 := CharAt(next);
      if next < |input| {
        next := next + 1;
      }
    }

    /** The end of the run of letters and digits that starts here. */
    method ScanWord() returns (end: nat)
      requires Valid()
      modifies this
      ensures Valid() && end == Pos() == old(Pos()) + AlnumSpan(old(Rest()))
    {
      ghost var start := Pos();
      while c1.Some? && IsAlnum(c1.value.1)
        invariant Valid() && start <= Pos()
        invariant start + AlnumSpan(input[start..]) == Pos() + AlnumSpan(input[Pos()..])
        decreases |input| - Pos()
      {
        assert input[Pos()..][1..] == input[Pos() + 1..];
        Step();
      }
      end := Pos();
    }

    method ScanSpace() returns (end: nat)
      requires Valid()
      modifies this
      ensures Valid() && end == Pos() == old(Pos()) + SpaceSpan(old(Rest()))
    {
      ghost var start := Pos();
      while c1.Some? && IsSpace(c1.value.1)
        invariant Valid() && start <= Pos()
        invariant start + SpaceSpan(input[start..]) == Pos() + SpaceSpan(input[Pos()..])
        decreases |input| - Pos()
      {
        assert input[Pos()..][1..] == input[Pos() + 1..];
        Step();
      }
      end := Pos();
    }

    /** The next token; `None` at the end of input, and an error that consumes nothing on a bad character. */
    method Next() returns (r: Option<Result<Token, char>>)
      requires Valid()
      modifies this
      ensures Valid()
      ensures match Lex(old(Rest()))
        case End => r == None && Rest() == old(Rest())
        case Bad(c) => r == Some(Failure(c)) && Rest() == old(Rest())
        case More(t, rest) => r == Some(Success(t)) && Lex(Rest()) == rest
    {
      ghost var rest := Rest();
      if c1.Some? && c2.Some? {
        var two := TwoCharToken(c1.value.1, c2.value.1);
        if two.Some? {
          Step();
          Step();
          assert Rest() == rest[2..];
          return Some(Success(two.value));
        }
      }
      if c1.None? {
        return None;
      }
      var start, c := c1.value.0, c1.value.1;
      assert rest[0] == c;
      if IsSpace(c) {
        var end := ScanSpace();
        assert Rest() == rest[SpaceSpan(rest)..];
        return Some(Success(WhitespaceT));
      }
      if IsAlnum(c) {
        var end := ScanWord();
        assert input[start..end] == rest[..AlnumSpan(rest)];
        assert Rest() == rest[AlnumSpan(rest)..];
        return Some(Success(ComponentToken(input[start..end])));
      }
      var one := OneCharToken(c);
      if one.None? {
        return Some(Failure(c));
      }
      Step();
      assert Rest() == rest[1..];
      return Some(Success(one.value));
    }
  }

  class Parser {
    const lexer: Lexer
    var c1: Option<Token>

    ghost predicate Valid()
      reads this, lexer
    {
      lexer.Valid() && (c1.None? ==> Lex(lexer.Rest()).End?)
    }

    /** The tokens that have not been consumed, lookahead included. */
    ghost function View(): Tokens
      reads this, lexer
      requires Valid()
    {
      if c1.None? then End else More(c1.value, Lex(lexer.Rest()))
    }

    constructor (l: Lexer, first: Option<Token>)
      requires l.Valid() && (first.None? ==> Lex(l.Rest()).End?)
      ensures Valid() && lexer == l && c1 == first
    {
      lexer := l;
      c1 := first;
    }

    /** Reads the first token ahead. */
    static method New(text: string) returns (r: Result<Parser, Error>)
      ensures r.Failure? <==> Lex(text).Bad?
      ensures r.Failure? ==> r.error == LexerError
      ensures r.Success? ==>
        fresh(r.value) && fresh(r.value.lexer) && r.value.Valid() && r.value.View() == Lex(text)
    {
      var l := new Lexer(text);
      assert l.Rest() == text;
      var first := l.Next();
      if first.Some? && first.value.Failure? {
        return Failure(LexerError);
      }
      var p := new Parser(l, if first.Some? then Some(first.value.value) else None);
      return Success(p);
    }

    /** What a parsing method returned and left over, against the function that specifies it. */
    ghost predicate Did<T(!new)>(r: Result<T, Error>, spec: Parsed<T>)
      reads this, lexer
    {
      match spec
      case Yes(value, rest) => r == Success(value) && Valid() && View() == rest
      case No(e) => r == Failure(e)
    }

    predicate Peek(t: Token)
      reads this
    {
      c1 == Some(t)
    }

    method PopToken() returns (r: Result<Token, Error>)
      requires Valid()
      modifies this, lexer
      ensures Did(r, Pop(old(View())))
    {
      var next := lexer.Next();
      if next.Some? && next.value.Failure? {
        return Failure(LexerError);
      }
      var taken := c1;
      c1 := if next.Some? then Some(next.value.value) else None;
      if taken.None? {
        return Failure(UnexpectedEnd);
      }
      return Success(taken.value);
    }

    method SkipToken() returns (r: Result<(), Error>)
      requires Valid()
      modifies this, lexer
      ensures Did(r, Skip(old(View())))
    {
      var t := PopToken();
      r := if t.Success? then Success(()) else Failure(t.error);
    }

    method SkipBlank() returns (r: Result<(), Error>)
      requires Valid()
      modifies this, lexer
      ensures Did(r, SkipWhitespace(old(View())))
    {
      if Peek(WhitespaceT) {
        r := SkipToken();
      } else {
        r := Success(());
      }
    }

    method ReadComponent() returns (r: Result<Option<nat>, Error>)
      requires Valid()
      modifies this, lexer
      ensures Did(r, Component(old(View())))
    {
      var t := PopToken();
      if t.Failure? {
        return Failure(t.error);
      }
      match t.value {
        case NumericT(n) => return Success(Some(n));
        case _ => return if IsWildcard(t.value) then Success(None) else Failure(UnexpectedToken);
      }
    }

    method ReadNumeric() returns (r: Result<nat, Error>)
      requires Valid()
      modifies this, lexer
      ensures Did(r, NumericPart(old(View())))
    {
      var t := PopToken();
      if t.Failure? {
        return Failure(t.error);
      }
      return if t.value.NumericT? then Success(t.value.n) else Failure(UnexpectedToken);
    }

    method ReadDotComponent() returns (r: Result<(Option<nat>, bool), Error>)
      requires Valid()
      modifies this, lexer
      ensures Did(r, DotComponent(old(View())))
    {
      if !Peek(DotT) {
        return Success((None, false));
      }
      var dot := SkipToken();
      if dot.Failure? {
        return Failure(dot.error);
      }
      var n := ReadComponent();
      return if n.Success? then Success((n.value, n.value.None?)) else Failure(n.error);
    }

    method ReadDotNumeric() returns (r: Result<nat, Error>)
      requires Valid()
      modifies this, lexer
      ensures Did(r, DotNumeric(old(View())))
    {
      var t := PopToken();
      if t.Failure? {
        return Failure(t.error);
      }
      if !t.value.DotT? {
        return Failure(UnexpectedToken);
      }
      r := ReadNumeric();
    }

    method ReadIdentifier() returns (r: Result<Identifier, Error>)
      requires Valid()
      modifies this, lexer
      ensures Did(r, IdentifierPart(old(View())))
    {
      var t := PopToken();
      if t.Failure? {
        return Failure(t.error);
      }
      match t.value {
        case AlphaNumericT(s) => return Success(AlphaNumeric(s));
        case NumericT(n) => return Success(Numeric(n));
        case _ => return Failure(UnexpectedToken);
      }
    }

    /** The identifier loop: `done` is what has been pushed so far. */
    method ReadParts() returns (r: Result<seq<Identifier>, Error>)
      requires Valid()
      modifies this, lexer
      ensures Did(r, Parts(old(View())))
    {
      ghost var all := Parts(View());
      var first := ReadIdentifier();
      if first.Failure? {
        return Failure(first.error);
      }
      var parts := [first.value];
      while c1 == Some(DotT) || c1 == Some(HyphenT)
        invariant Valid()
        invariant all == Prepended(parts, MoreParts(View()))
        decreases Count(View())
      {
        ghost var before := View();
        var separator := SkipToken();
        if separator.Failure? {
          return Failure(separator.error);
        }
        var id := ReadIdentifier();
        if id.Failure? {
          return Failure(id.error);
        }
        PrependedStep(parts, id.value, before, View());
        parts := parts + [id.value];
      }
      assert parts + [] == parts;
      return Success(parts);
    }

    /** `mark` followed by identifiers, if `mark` is next. */
    method ReadSection(mark: Token) returns (r: Result<seq<Identifier>, Error>)
      requires Valid()
      modifies this, lexer
      ensures Did(r, Prefixed(old(View()), mark))
    {
      if !Peek(mark) {
        return Success([]);
      }
      var skipped := SkipToken();
      if skipped.Failure? {
        return Failure(skipped.error);
      }
      r := ReadParts();
    }

    method ReadOp() returns (r: Result<Op, Error>)
      requires Valid()
      modifies this, lexer
      ensures Did(r, OpPart(old(View())))
    {
      var op := Compatible;
      match c1 {
        case Some(EqT) => op := Ex;
        case Some(GtT) => op := Gt;
        case Some(GtEqT) => op := GtEq;
        case Some(LtT) => op := Lt;
        case Some(LtEqT) => op := LtEq;
        case Some(TildeT) => op := Tilde;
        case Some(CaretT) => op := Compatible;
        case _ => return Success(Compatible);
      }
      var skipped := SkipToken();
      if skipped.Failure? {
        return Failure(skipped.error);
      }
      var blank := SkipBlank();
      return if blank.Success? then Success(op) else Failure(blank.error);
    }

    method ReadPredicate() returns (r: Result<Option<Predicate>, Error>)
      requires Valid()
      modifies this, lexer
      ensures Did(r, PredicatePart(old(View())))
    {
      if c1.None? {
        return Success(None);
      }
      var op := ReadOp();
      if op.Failure? {
        return Failure(op.error);
      }
      var major := ReadComponent();
      if major.Failure? {
        return Failure(major.error);
      }
      if major.value.None? {
        return Success(None);
      }
      var p := ReadPredicateTail(op.value, major.value.value);
      return if p.Success? then Success(Some(p.value)) else Failure(p.error);
    }

    method ReadPredicateTail(parsed: Op, major: nat) returns (r: Result<Predicate, Error>)
      requires Valid()
      modifies this, lexer
      ensures Did(r, PredicateTail(parsed, major, old(View())))
    {
      var op := parsed;
      var minor := ReadDotComponent();
      if minor.Failure? {
        return Failure(minor.error);
      }
      var patch := ReadDotComponent();
      if patch.Failure? {
        return Failure(patch.error);
      }
      var pre := ReadSection(HyphenT);
      if pre.Failure? {
        return Failure(pre.error);
      }
      if minor.value.1 {
        op := Wildcard(Minor);
      }
      if patch.value.1 {
        op := Wildcard(Patch);
      }
      var build := ReadSection(PlusT);
      if build.Failure? {
        return Failure(build.error);
      }
      return Success(Predicate(op, major, minor.value.0, patch.value.0, pre.value));
    }

    method ReadCommaPredicate() returns (r: Result<Option<Predicate>, Error>)
      requires Valid()
      modifies this, lexer
      ensures Did(r, CommaPredicate(old(View())))
    {
      var blank := SkipBlank();
      if blank.Failure? {
        return Failure(blank.error);
      }
      if !Peek(CommaT) {
        return Success(None);
      }
      var comma := SkipToken();
      if comma.Failure? {
        return Failure(comma.error);
      }
      blank := SkipBlank();
      if blank.Failure? {
        return Failure(blank.error);
      }
      r := ReadPredicate();
      if r.Success? && r.value.None? {
        return Failure(EmptyPredicate);
      }
    }

    method ReadRange() returns (r: Result<Range, Error>)
      requires Valid()
      modifies this, lexer
      ensures Did(r, RangePart(old(View())))
    {
      ghost var all := RangePart(View());
      var first := ReadPredicate();
      if first.Failure? {
        return Failure(first.error);
      }
      if first.value.None? {
        return Success(Range([]));
      }
      var predicates := [first.value.value];
      var more := true;
      while more
        invariant Valid()
        invariant more ==> all == RangeOf(predicates, MorePredicates(View()))
        invariant !more ==> all == Yes(Range(predicates), View())
        decreases more, Count(View())
      {
        ghost var before := View();
        var next := ReadCommaPredicate();
        if next.Failure? {
          return Failure(next.error);
        }
        if next.value.None? {
          assert predicates + [] == predicates;
          more := false;
        } else {
          RangeOfStep(predicates, next.value.value, before, View());
          predicates := predicates + [next.value.value];
        }
      }
      return Success(Range(predicates));
    }

    method ReadVersion() returns (r: Result<Version, Error>)
      requires Valid()
      modifies this, lexer
      ensures Did(r, VersionPart(old(View())))
    {
      var blank := SkipBlank();
      if blank.Failure? {
        return Failure(blank.error);
      }
      var major := ReadNumeric();
      if major.Failure? {
        return Failure(major.error);
      }
      var minor := ReadDotNumeric();
      if minor.Failure? {
        return Failure(minor.error);
      }
      var patch := ReadDotNumeric();
      if patch.Failure? {
        return Failure(patch.error);
      }
      r := ReadVersionTail(major.value, minor.value, patch.value);
    }

    method ReadVersionTail(major: nat, minor: nat, patch: nat) returns (r: Result<Version, Error>)
      requires Valid()
      modifies this, lexer
      ensures Did(r, VersionTail(major, minor, patch, old(View())))
    {
      var pre := ReadSection(HyphenT);
      if pre.Failure? {
        return Failure(pre.error);
      }
      var build := ReadSection(PlusT);
      if build.Failure? {
        return Failure(build.error);
      }
      var blank := SkipBlank();
      if blank.Failure? {
        return Failure(blank.error);
      }
      return Success(Version(major, minor, patch, pre.value, build.value));
    }
  }

  ghost function Prepended(parts: seq<Identifier>, more: Parsed<seq<Identifier>>): Parsed<seq<Identifier>> {
    match more
    case Yes(ids, rest) => Yes(parts + ids, rest)
    case No(e) => No(e)
  }

  lemma PrependedStep(parts: seq<Identifier>, id: Identifier, before: Tokens, after: Tokens)
    requires AtSeparator(before) && Skip(before).Yes? && IdentifierPart(Skip(before).rest) == Yes(id, after)
    ensures Prepended(parts, MoreParts(before)) == Prepended(parts + [id], MoreParts(after))
    ensures Count(after) < Count(before)
  {
    if MoreParts(after).Yes? {
      assert parts + ([id] + MoreParts(after).value) == (parts + [id]) + MoreParts(after).value;
    }
  }

  ghost function RangeOf(predicates: seq<Predicate>, more: Parsed<seq<Predicate>>): Parsed<Range> {
    match more
    case Yes(ps, rest) => Yes(Range(predicates + ps), rest)
    case No(e) => No(e)
  }

  lemma RangeOfStep(predicates: seq<Predicate>, p: Predicate, before: Tokens, after: Tokens)
    requires CommaPredicate(before) == Yes(Some(p), after)
    ensures RangeOf(predicates, MorePredicates(before)) == RangeOf(predicates + [p], MorePredicates(after))
    ensures Count(after) < Count(before)
  {
    MoreUnfold(p, before, after);
    var more := MorePredicates(after);
    if more.Yes? {
      assert predicates + ([p] + more.value) == (predicates + [p]) + more.value;
    }
  }

  lemma MoreUnfold(p: Predicate, before: Tokens, after: Tokens)
    requires CommaPredicate(before) == Yes(Some(p), after)
    ensures MorePredicates(before) ==
      match MorePredicates(after)
      case Yes(ps, rest) => Yes([p] + ps, rest)
      case No(e) => No(e)
  {
  }

  /** `Version::parse`. */
  method ParseVersionText(text: string) returns (r: Result<Version, Error>)
    ensures r == ParseVersion(text)
  {
    var p := Parser.New(text);
    if p.Failure? {
      return Failure(p.error);
    }
    r := p.value.ReadVersion();
    if r.Success? && p.value.c1.Some? {
      return Failure(MoreInput);
    }
  }

  /** `Range::parse`. */
  method ParseRangeText(text: string) returns (r: Result<Range, Error>)
    ensures r == ParseRange(text)
  {
    var p := Parser.New(text);
    if p.Failure? {
      return Failure(p.error);
    }
    r := p.value.ReadRange();
    if r.Success? && p.value.c1.Some? {
      return Failure(MoreInput);
    }
  }
}
