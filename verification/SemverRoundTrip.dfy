/** Printing and parsing are inverse: exactly on canonical versions, and up to matching on every range
    the parser can produce. */
module SemverRoundTrip {
  import opened Wrappers
  import Decimal
  import opened SemverVersion
  import opened SemverRange
  import opened SemverSyntax

  // Canonical values

  predicate AllAlnum(s: string) { forall i :: 0 <= i < |s| ==> IsAlnum(s[i]) }

  /** Text that the lexer reads as a number. */
  predicate ReadsAsNumber(s: string) {
    Decimal.Canonical(s) && Decimal.Value(s) <= U64_MAX
  }

  predicate CanonicalIdentifier(id: Identifier) {
    match id
    case Numeric(n) => n <= U64_MAX
    case AlphaNumeric(s) => s != "" && AllAlnum(s) && !ReadsAsNumber(s)
  }

  predicate CanonicalIdentifiers(ids: seq<Identifier>) {
    forall i :: 0 <= i < |ids| ==> CanonicalIdentifier(ids[i])
  }

  predicate CanonicalVersion(v: Version) {
    && v.major <= U64_MAX && v.minor <= U64_MAX && v.patch <= U64_MAX
    && CanonicalIdentifiers(v.pre) && CanonicalIdentifiers(v.build)
  }

  predicate CanonicalNumber(n: Option<nat>) { n.Some? ==> n.value <= U64_MAX }

  /** The predicates that the parser produces. */
  predicate CanonicalPredicate(p: Predicate) {
    && p.major <= U64_MAX && CanonicalNumber(p.minor) && CanonicalNumber(p.patch)
    && CanonicalIdentifiers(p.pre)
    && ParserShape(p)
  }

  predicate CanonicalRange(r: Range) {
    forall i :: 0 <= i < |r.predicates| ==> CanonicalPredicate(r.predicates[i])
  }

  // Lexing printed text, piece by piece

  /** One printed token. */
  datatype Piece = Word(w: string) | Mark(c: char) | TwoMark(a: char, b: char) | Blank

  datatype Pieces = Nil | Cons(head: Piece, tail: Pieces)

  function TextOf(p: Piece): string {
    match p
    case Word(w) => w
    case Mark(c) => [c]
    case TwoMark(a, b) => [a, b]
    case Blank => " "
  }

  predicate PieceOk(p: Piece) {
    match p
    case Word(w) => w != "" && AllAlnum(w)
    case Mark(c) => OneCharToken(c).Some?
    case TwoMark(a, b) => TwoCharToken(a, b).Some?
    case Blank => true
  }

  function TokenOf(p: Piece): Token {
    match p
    case Word(w) => ComponentToken(w)
    case Mark(c) => OneCharToken(c).GetOr(OrT)
    case TwoMark(a, b) => TwoCharToken(a, b).GetOr(OrT)
    case Blank => WhitespaceT
  }

  /** Text that does not merge into the token before it. */
  predicate Follows(p: Piece, rest: string) {
    rest == "" ||
    match p
    case Word(_) => !IsAlnum(rest[0])
    case Mark(c) => TwoCharToken(c, rest[0]).None?
    case TwoMark(_, _) => true
    case Blank => !IsSpace(rest[0])
  }

  function Text(ps: Pieces): string {
    match ps
    case Nil => ""
    case Cons(p, rest) => TextOf(p) + Text(rest)
  }

  predicate Separated(ps: Pieces) {
    match ps
    case Nil => true
    case Cons(p, rest) => PieceOk(p) && Follows(p, Text(rest)) && Separated(rest)
  }

  function TokensOf(ps: Pieces): Tokens {
    match ps
    case Nil => End
    case Cons(p, rest) => More(TokenOf(p), TokensOf(rest))
  }

  /** Pieces that may follow a word. */
  predicate AfterWord(ps: Pieces) { Separated(ps) && (ps.Cons? ==> !ps.head.Word?) }

  lemma AfterWordFollows(w: string, ps: Pieces)
    requires AfterWord(ps)
    ensures Follows(Word(w), Text(ps))
  {
  }

  lemma {:induction false} AlnumSpanOf(w: string, rest: string)
    requires AllAlnum(w) && (rest == "" || !IsAlnum(rest[0]))
    ensures AlnumSpan(w + rest) == |w|
  {
    if w == "" {
      assert w + rest == rest;
    } else {
      assert (w + rest)[1..] == w[1..] + rest;
      AlnumSpanOf(w[1..], rest);
    }
  }

  lemma LexPiece(p: Piece, rest: string)
    requires PieceOk(p) && Follows(p, rest)
    ensures Lex(TextOf(p) + rest) == More(TokenOf(p), Lex(rest))
  {
    var s := TextOf(p) + rest;
    assert s[|TextOf(p)|..] == rest && s[..|TextOf(p)|] == TextOf(p);
    match p {
      case Word(w) =>
        AlnumSpanOf(w, rest);
        assert s[0] == w[0];
      case Mark(_) =>
      case TwoMark(_, _) =>
      case Blank =>
        assert s[1..] == rest;
        assert SpaceSpan(s) == 1 + SpaceSpan(rest);
    }
  }

  /** Separated pieces lex to their own tokens. */
  lemma {:induction false} LexPieces(ps: Pieces)
    requires Separated(ps)
    ensures Lex(Text(ps)) == TokensOf(ps)
  {
    if ps.Cons? {
      LexPieces(ps.tail);
      LexPiece(ps.head, Text(ps.tail));
    }
  }

  // Words

  function Number(n: nat): Piece { Word(Decimal.Digits(n)) }

  lemma NumberPiece(n: nat)
    requires n <= U64_MAX
    ensures PieceOk(Number(n)) && TokenOf(Number(n)) == NumericT(n)
  {
    var w := Decimal.Digits(n);
    Decimal.DigitsCanonical(n);
    Decimal.ValueOfDigits(n);
    assert forall i :: 0 <= i < |w| ==> w[i] in w;
    WordToken(w);
  }

  lemma WordToken(s: string)
    requires s != ""
    ensures ComponentToken(s) == if ReadsAsNumber(s) then NumericT(Decimal.Value(s)) else AlphaNumericT(s)
  {
    if s == "0" {
      assert s[..0] == "";
      assert Decimal.Value(s) == 0;
    }
  }

  function IdToken(id: Identifier): Token {
    match id
    case Numeric(n) => NumericT(n)
    case AlphaNumeric(s) => AlphaNumericT(s)
  }

  lemma IdentifierPiece(id: Identifier)
    requires CanonicalIdentifier(id)
    ensures PieceOk(Word(PrintIdentifier(id))) && TokenOf(Word(PrintIdentifier(id))) == IdToken(id)
  {
    match id {
      case Numeric(n) => NumberPiece(n);
      case AlphaNumeric(s) => WordToken(s);
    }
  }

  // Lists of identifiers, each followed by the pieces `k`

  function IdPieces(ids: seq<Identifier>, k: Pieces): Pieces {
    if ids == [] then k
    else if |ids| == 1 then Cons(Word(PrintIdentifier(ids[0])), k)
    else Cons(Word(PrintIdentifier(ids[0])), Cons(Mark('.'), IdPieces(ids[1..], k)))
  }

  lemma IdsUnfold(ids: seq<Identifier>, k: Pieces)
    requires |ids| > 1
    ensures IdPieces(ids, k) == Cons(Word(PrintIdentifier(ids[0])), Cons(Mark('.'), IdPieces(ids[1..], k)))
    ensures PrintIdentifiers(ids) == PrintIdentifier(ids[0]) + "." + PrintIdentifiers(ids[1..])
  {
  }

  lemma WordText(w: string, k: Pieces)
    requires PieceOk(Word(w)) && AfterWord(k)
    ensures Separated(Cons(Word(w), k)) && Text(Cons(Word(w), k)) == w + Text(k)
  {
    AfterWordFollows(w, k);
  }

  lemma DotText(k: Pieces)
    requires Separated(k) && k.Cons?
    ensures AfterWord(Cons(Mark('.'), k)) && Text(Cons(Mark('.'), k)) == "." + Text(k)
  {
    MarkText(Mark('.'), k);
  }

  lemma {:induction false} IdsSeparated(ids: seq<Identifier>, k: Pieces)
    requires ids != [] && CanonicalIdentifiers(ids) && AfterWord(k)
    ensures Separated(IdPieces(ids, k)) && IdPieces(ids, k).Cons?
    ensures Text(IdPieces(ids, k)) == PrintIdentifiers(ids) + Text(k)
  {
    IdentifierPiece(ids[0]);
    if |ids| == 1 {
      WordText(PrintIdentifier(ids[0]), k);
    } else {
      IdsSeparated(ids[1..], k);
      IdsUnfold(ids, k);
      hide *;
      var word, rest := PrintIdentifier(ids[0]), IdPieces(ids[1..], k);
      DotText(rest);
      WordText(word, Cons(Mark('.'), rest));
      Associate(".", PrintIdentifiers(ids[1..]), Text(k));
      Associate(word, "." + PrintIdentifiers(ids[1..]), Text(k));
      Associate(word, ".", PrintIdentifiers(ids[1..]));
    }
  }

  /** Neither the end of a list of identifiers nor its lookahead can go wrong here. */
  predicate ListEnds(ts: Tokens) { !AtSeparator(ts) && !ts.Bad? }

  lemma IdsTokens(ids: seq<Identifier>, k: Pieces)
    requires ids != [] && CanonicalIdentifier(ids[0])
    ensures TokensOf(IdPieces(ids, k)) == More(IdToken(ids[0]),
      if |ids| == 1 then TokensOf(k) else More(DotT, TokensOf(IdPieces(ids[1..], k))))
  {
    IdentifierPiece(ids[0]);
  }

  lemma {:induction false} IdsParse(ids: seq<Identifier>, k: Pieces)
    requires ids != [] && CanonicalIdentifiers(ids) && ListEnds(TokensOf(k))
    ensures TokensOf(IdPieces(ids, k)).More?
    ensures Parts(TokensOf(IdPieces(ids, k))) == Yes(ids, TokensOf(k))
  {
    IdsTokens(ids, k);
    var id, tail, rest := ids[0], ids[1..], TokensOf(k);
    if |ids| == 1 {
      assert ids == [id];
      PartsLast(id, rest);
    } else {
      IdsParse(tail, k);
      assert ids == [id] + tail;
      PartsStep(id, tail, TokensOf(IdPieces(tail, k)), rest);
    }
  }

  lemma PartsLast(id: Identifier, rest: Tokens)
    requires ListEnds(rest)
    ensures Parts(More(IdToken(id), rest)) == Yes([id], rest)
  {
    assert [id] + [] == [id];
  }

  lemma PartsStep(id: Identifier, ids: seq<Identifier>, ts: Tokens, rest: Tokens)
    requires !ts.Bad? && Parts(ts) == Yes(ids, rest)
    ensures Parts(More(IdToken(id), More(DotT, ts))) == Yes([id] + ids, rest)
  {
  }

  function SectionPieces(mark: char, ids: seq<Identifier>, k: Pieces): Pieces {
    if ids == [] then k else Cons(Mark(mark), IdPieces(ids, k))
  }

  lemma SectionText(mark: char, ids: seq<Identifier>, k: Pieces)
    requires mark == '-' || mark == '+'
    requires CanonicalIdentifiers(ids) && AfterWord(k)
    ensures var ps := SectionPieces(mark, ids, k);
      AfterWord(ps) && Text(ps) == PrintSection([mark], ids) + Text(k)
  {
    if ids != [] {
      IdsSeparated(ids, k);
      MarkAlone(mark, IdPieces(ids, k));
      assert PrintSection([mark], ids) == [mark] + PrintIdentifiers(ids);
      assert AfterWord(SectionPieces(mark, ids, k)) <==> Separated(Cons(Mark(mark), IdPieces(ids, k)));
      SectionStarts(mark, ids, k);
      hide *;
      Associate([mark], PrintIdentifiers(ids), Text(k));
    } else {
      assert PrintSection([mark], ids) + Text(k) == Text(k);
    }
  }

  /** These marks never merge with what follows. */
  lemma MarkAlone(mark: char, k: Pieces)
    requires (mark == '-' || mark == '+') && Separated(k)
    ensures Separated(Cons(Mark(mark), k)) && Text(Cons(Mark(mark), k)) == [mark] + Text(k)
  {
    MarkText(Mark(mark), k);
  }

  lemma SectionParses(mark: char, token: Token, ids: seq<Identifier>, k: Pieces)
    requires (mark, token) == ('-', HyphenT) || (mark, token) == ('+', PlusT)
    requires CanonicalIdentifiers(ids) && ListEnds(TokensOf(k)) && !At(TokensOf(k), token)
    ensures var ts := TokensOf(SectionPieces(mark, ids, k));
      && (if ids == [] then ts == TokensOf(k) else At(ts, token))
      && Prefixed(ts, token) == Yes(ids, TokensOf(k))
  {
    if ids != [] {
      IdsParse(ids, k);
      MarkToken(mark, token, IdPieces(ids, k));
      hide *;
      PrefixedStep(token, TokensOf(IdPieces(ids, k)));
      SectionStarts(mark, ids, k);
    }
  }

  lemma MarkToken(mark: char, token: Token, k: Pieces)
    requires (mark, token) == ('-', HyphenT) || (mark, token) == ('+', PlusT)
    ensures TokensOf(Cons(Mark(mark), k)) == More(token, TokensOf(k)) && At(More(token, TokensOf(k)), token)
  {
  }

  lemma SectionStarts(mark: char, ids: seq<Identifier>, k: Pieces)
    requires ids != []
    ensures SectionPieces(mark, ids, k) == Cons(Mark(mark), IdPieces(ids, k))
  {
  }

  lemma PrefixedStep(token: Token, ts: Tokens)
    requires !ts.Bad?
    ensures Prefixed(More(token, ts), token) == Parts(ts)
  {
  }

  /** `.n` before `k`. */
  function Dotted(n: nat, k: Pieces): Pieces { Cons(Mark('.'), Cons(Number(n), k)) }

  lemma DottedPieces(n: nat, k: Pieces)
    requires n <= U64_MAX && AfterWord(k)
    ensures AfterWord(Dotted(n, k)) && Text(Dotted(n, k)) == "." + Decimal.Digits(n) + Text(k)
    ensures TokensOf(Dotted(n, k)) == More(DotT, More(NumericT(n), TokensOf(k)))
  {
    NumberPiece(n);
    AfterWordFollows(Decimal.Digits(n), k);
  }

  // Versions

  function TailPieces(v: Version): Pieces { SectionPieces('-', v.pre, SectionPieces('+', v.build, Nil)) }

  lemma TailParses(v: Version)
    requires CanonicalVersion(v)
    ensures var ps := TailPieces(v);
      && AfterWord(ps)
      && Text(ps) == PrintSection("-", v.pre) + (PrintSection("+", v.build) + "")
      && !TokensOf(ps).Bad?
      && VersionTail(v.major, v.minor, v.patch, TokensOf(ps)) == Yes(v, End)
  {
    var build := SectionPieces('+', v.build, Nil);
    SectionText('+', v.build, Nil);
    SectionText('-', v.pre, build);
    SectionParses('+', PlusT, v.build, Nil);
    SectionParses('-', HyphenT, v.pre, build);
  }

  function VersionPieces(v: Version): Pieces {
    Cons(Number(v.major), Dotted(v.minor, Dotted(v.patch, TailPieces(v))))
  }

  /** Printing a canonical version and parsing it returns all five fields. */
  lemma PrintedVersionParses(v: Version)
    requires CanonicalVersion(v)
    ensures ParseVersion(PrintVersion(v)) == Success(v)
  {
    var tail := TailPieces(v);
    TailParses(v);
    DottedPieces(v.patch, tail);
    DottedPieces(v.minor, Dotted(v.patch, tail));
    NumberPiece(v.major);
    AfterWordFollows(Decimal.Digits(v.major), Dotted(v.minor, Dotted(v.patch, tail)));
    Reassociate(
      Decimal.Digits(v.major), Decimal.Digits(v.minor), Decimal.Digits(v.patch),
      PrintSection("-", v.pre), PrintSection("+", v.build));
    LexPieces(VersionPieces(v));
    VersionSteps(v, TokensOf(tail));
  }

  lemma Reassociate(a: string, b: string, c: string, p: string, q: string)
    ensures a + ("." + b + ("." + c + (p + (q + "")))) == a + "." + b + "." + c + p + q
  {
  }

  lemma VersionSteps(v: Version, ts: Tokens)
    requires VersionTail(v.major, v.minor, v.patch, ts) == Yes(v, End) && !ts.Bad?
    ensures VersionPart(
        More(NumericT(v.major), More(DotT, More(NumericT(v.minor), More(DotT, More(NumericT(v.patch), ts))))))
      == Yes(v, End)
  {
    var ts3 := More(DotT, More(NumericT(v.patch), ts));
    var ts4 := More(DotT, More(NumericT(v.minor), ts3));
    NumberStep(v.patch, ts);
    NumberStep(v.minor, ts3);
    NumberStep(v.major, ts4);
  }

  lemma NumberStep(n: nat, rest: Tokens)
    requires !rest.Bad?
    ensures NumericPart(More(NumericT(n), rest)) == Yes(n, rest)
    ensures DotNumeric(More(DotT, More(NumericT(n), rest))) == Yes(n, rest)
  {
  }

  // What the parser returns

  predicate CanonicalToken(t: Token) {
    match t
    case NumericT(n) => n <= U64_MAX
    case AlphaNumericT(s) => CanonicalIdentifier(AlphaNumeric(s))
    case _ => true
  }

  predicate CanonicalTokens(ts: Tokens) {
    ts.More? ==> CanonicalToken(ts.head) && CanonicalTokens(ts.tail)
  }

  lemma {:induction false} LexCanonical(s: string)
    ensures CanonicalTokens(Lex(s))
  {
    if s == "" {
    } else if |s| >= 2 && TwoCharToken(s[0], s[1]).Some? {
      LexCanonical(s[2..]);
    } else if IsSpace(s[0]) {
      LexCanonical(s[SpaceSpan(s)..]);
    } else if IsAlnum(s[0]) {
      LexCanonical(s[AlnumSpan(s)..]);
      WordToken(s[..AlnumSpan(s)]);
    } else if OneCharToken(s[0]).Some? {
      LexCanonical(s[1..]);
    }
  }

  lemma {:induction false} PartsCanonical(ts: Tokens)
    requires CanonicalTokens(ts)
    ensures Parts(ts).Yes? ==> CanonicalIdentifiers(Parts(ts).value) && CanonicalTokens(Parts(ts).rest)
    decreases Count(ts)
  {
    var first := IdentifierPart(ts);
    if first.Yes? && AtSeparator(first.rest) && Skip(first.rest).Yes? {
      PartsCanonical(Skip(first.rest).rest);
    }
  }

  lemma PrefixedCanonical(ts: Tokens, mark: Token)
    requires CanonicalTokens(ts)
    ensures var r := Prefixed(ts, mark);
      r.Yes? ==> CanonicalIdentifiers(r.value) && CanonicalTokens(r.rest)
  {
    if At(ts, mark) && Skip(ts).Yes? {
      PartsCanonical(Skip(ts).rest);
    }
  }

  lemma TailCanonical(major: nat, minor: nat, patch: nat, ts: Tokens)
    requires CanonicalTokens(ts)
    ensures var r := VersionTail(major, minor, patch, ts);
      r.Yes? ==>
        && r.value.major == major && r.value.minor == minor && r.value.patch == patch
        && CanonicalIdentifiers(r.value.pre) && CanonicalIdentifiers(r.value.build)
  {
    PrefixedCanonical(ts, HyphenT);
    var pre := Prefixed(ts, HyphenT);
    if pre.Yes? {
      PrefixedCanonical(pre.rest, PlusT);
    }
  }

  lemma NumberCanonical(ts: Tokens)
    requires CanonicalTokens(ts)
    ensures NumericPart(ts).Yes? ==> NumericPart(ts).value <= U64_MAX && CanonicalTokens(NumericPart(ts).rest)
    ensures DotNumeric(ts).Yes? ==> DotNumeric(ts).value <= U64_MAX && CanonicalTokens(DotNumeric(ts).rest)
  {
  }

  lemma VersionPartCanonical(ts: Tokens)
    requires CanonicalTokens(ts)
    ensures VersionPart(ts).Yes? ==> CanonicalVersion(VersionPart(ts).value)
  {
    var ts0 := SkipWhitespace(ts);
    if ts0.Yes? {
      NumberCanonical(ts0.rest);
      var major := NumericPart(ts0.rest);
      if major.Yes? {
        NumberCanonical(major.rest);
        var minor := DotNumeric(major.rest);
        if minor.Yes? {
          NumberCanonical(minor.rest);
          var patch := DotNumeric(minor.rest);
          if patch.Yes? {
            TailCanonical(major.value, minor.value, patch.value, patch.rest);
          }
        }
      }
    }
  }

  /** Every version that the parser returns is canonical. */
  lemma ParsedVersionCanonical(s: string)
    ensures ParseVersion(s).Success? ==> CanonicalVersion(ParseVersion(s).value)
  {
    LexCanonical(s);
    VersionPartCanonical(Lex(s));
  }

  /** Printing and parsing returns the version itself exactly when it is canonical. */
  lemma VersionRoundTrip(v: Version)
    ensures ParseVersion(PrintVersion(v)) == Success(v) <==> CanonicalVersion(v)
  {
    if CanonicalVersion(v) {
      PrintedVersionParses(v);
    } else {
      ParsedVersionCanonical(PrintVersion(v));
    }
  }

  // Ranges

  /** What printing keeps of a predicate: wildcards lose everything after the wildcard. */
  function Normal(p: Predicate): Predicate {
    match p.op
    case Wildcard(Minor) => Predicate(p.op, p.major, None, None, [])
    case Wildcard(Patch) => Predicate(p.op, p.major, p.minor, None, [])
    case _ => p
  }

  function NormalRange(r: Range): Range {
    Range(seq(|r.predicates|, i requires 0 <= i < |r.predicates| => Normal(r.predicates[i])))
  }

  /** What may follow a printed predicate. */
  predicate PredicateEnds(k: Pieces) { Separated(k) && (k.Cons? ==> k.head == Mark(',')) }

  function StarPieces(k: Pieces): Pieces { Cons(Mark('.'), Cons(Mark('*'), k)) }

  function MaybeDotted(n: Option<nat>, k: Pieces): Pieces {
    match n
    case None => k
    case Some(m) => Dotted(m, k)
  }

  function OpMark(op: Op): Piece
    requires !op.Wildcard?
  {
    match op
    case Ex => Mark('=')
    case Gt => Mark('>')
    case GtEq => TwoMark('>', '=')
    case Lt => Mark('<')
    case LtEq => TwoMark('<', '=')
    case Tilde => Mark('~')
    case Compatible => Mark('^')
  }

  /** Comparators are followed by a blank. */
  function OpPieces(op: Op, k: Pieces): Pieces {
    match op
    case Wildcard(_) => k
    case Tilde => Cons(OpMark(op), k)
    case Compatible => Cons(OpMark(op), k)
    case _ => Cons(OpMark(op), Cons(Blank, k))
  }

  /** The pieces after the major number. */
  function Suffix(p: Predicate, k: Pieces): Pieces {
    match p.op
    case Wildcard(Minor) => StarPieces(k)
    case Wildcard(Patch) => if p.minor.Some? then Dotted(p.minor.value, StarPieces(k)) else StarPieces(StarPieces(k))
    case _ => MaybeDotted(p.minor, MaybeDotted(p.patch, SectionPieces('-', p.pre, k)))
  }

  function PredicatePieces(p: Predicate, k: Pieces): Pieces {
    OpPieces(p.op, Cons(Number(p.major), Suffix(p, k)))
  }

  lemma StarText(k: Pieces)
    requires AfterWord(k)
    ensures AfterWord(StarPieces(k)) && Text(StarPieces(k)) == ".*" + Text(k)
  {
    assert Text(Cons(Mark('*'), k)) == "*" + Text(k);
  }

  function PrintSuffix(p: Predicate): string {
    match p.op
    case Wildcard(Minor) => ".*"
    case Wildcard(Patch) => if p.minor.Some? then "." + Decimal.Digits(p.minor.value) + ".*" else ".*.*"
    case _ => PrintDotted(p.minor) + (PrintDotted(p.patch) + PrintSection("-", p.pre))
  }

  lemma MaybeDottedText(n: Option<nat>, k: Pieces)
    requires CanonicalNumber(n) && AfterWord(k)
    ensures AfterWord(MaybeDotted(n, k)) && Text(MaybeDotted(n, k)) == PrintDotted(n) + Text(k)
  {
    if n.Some? {
      DottedPieces(n.value, k);
    }
  }

  lemma WildSuffixText(p: Predicate, k: Pieces)
    requires CanonicalPredicate(p) && PredicateEnds(k) && p.op.Wildcard?
    ensures AfterWord(Suffix(p, k)) && Text(Suffix(p, k)) == PrintSuffix(p) + Text(k)
  {
    StarText(k);
    if p.op.at.Patch? {
      if p.minor.Some? {
        DottedPieces(p.minor.value, StarPieces(k));
        hide Text, AfterWord, StarPieces, Dotted;
        Associate("." + Decimal.Digits(p.minor.value), ".*", Text(k));
      } else {
        StarText(StarPieces(k));
        hide Text, AfterWord, StarPieces;
        Associate(".*", ".*", Text(k));
        assert ".*" + ".*" == ".*.*";
      }
    }
  }

  lemma PlainSuffixText(p: Predicate, k: Pieces)
    requires CanonicalPredicate(p) && PredicateEnds(k) && !p.op.Wildcard?
    ensures AfterWord(Suffix(p, k)) && Text(Suffix(p, k)) == PrintSuffix(p) + Text(k)
  {
    PlainSuffix(p, k);
    hide *;
    var pre := SectionPieces('-', p.pre, k);
    var patch := MaybeDotted(p.patch, pre);
    SectionText('-', p.pre, k);
    MaybeDottedText(p.patch, pre);
    MaybeDottedText(p.minor, patch);
    Associate(PrintDotted(p.patch), PrintSection("-", p.pre), Text(k));
    Associate(PrintDotted(p.minor), PrintDotted(p.patch) + PrintSection("-", p.pre), Text(k));
  }

  lemma PlainSuffix(p: Predicate, k: Pieces)
    requires CanonicalPredicate(p) && PredicateEnds(k) && !p.op.Wildcard?
    ensures CanonicalNumber(p.minor) && CanonicalNumber(p.patch) && CanonicalIdentifiers(p.pre) && AfterWord(k)
    ensures Suffix(p, k) == MaybeDotted(p.minor, MaybeDotted(p.patch, SectionPieces('-', p.pre, k)))
    ensures PrintSuffix(p) == PrintDotted(p.minor) + (PrintDotted(p.patch) + PrintSection("-", p.pre))
    ensures ['-'] == "-"
  {
  }

  lemma Associate(a: string, b: string, c: string)
    ensures a + (b + c) == (a + b) + c
  {
  }

  lemma MarkText(p: Piece, k: Pieces)
    requires PieceOk(p) && Separated(k) && Follows(p, Text(k))
    ensures Separated(Cons(p, k)) && Text(Cons(p, k)) == TextOf(p) + Text(k)
  {
  }

  lemma NumberText(n: nat, k: Pieces)
    requires n <= U64_MAX && AfterWord(k)
    ensures var ps := Cons(Number(n), k);
      && Separated(ps)
      && Text(ps) == Decimal.Digits(n) + Text(k)
      && IsAlnum(Text(ps)[0])
  {
    NumberPiece(n);
    AfterWordFollows(Decimal.Digits(n), k);
  }

  lemma SpacedText(m: Piece, number: Pieces)
    requires PieceOk(m) && Follows(m, " ") && Separated(number) && Text(number) != "" && !IsSpace(Text(number)[0])
    ensures var ps := Cons(m, Cons(Blank, number));
      Separated(ps) && Text(ps) == (TextOf(m) + " ") + Text(number)
  {
    MarkText(Blank, number);
    hide Text, Separated;
    var spaced := Cons(Blank, number);
    assert Text(spaced)[0] == ' ';
    MarkText(m, spaced);
    Associate(TextOf(m), " ", Text(number));
  }

  lemma PrintedOp(op: Op)
    requires !op.Wildcard?
    ensures PieceOk(OpMark(op)) && Follows(OpMark(op), " ") && !IsSpace(TextOf(OpMark(op))[0])
    ensures PrintOp(op) == if op.Tilde? || op.Compatible? then TextOf(OpMark(op)) else TextOf(OpMark(op)) + " "
  {
  }

  lemma OpText(op: Op, number: Pieces)
    requires Separated(number) && Text(number) != "" && IsAlnum(Text(number)[0])
    ensures Separated(OpPieces(op, number)) && Text(OpPieces(op, number)) == PrintOp(op) + Text(number)
  {
    hide Text, Separated, PrintOp;
    if op.Wildcard? {
      assert PrintOp(op) == "" by { hide Text, Separated; NoOp(op); }
      assert "" + Text(number) == Text(number);
    } else {
      PrintedOp(op);
      hide OpMark;
      if op.Tilde? || op.Compatible? {
        OpFollows(op, Text(number));
        MarkText(OpMark(op), number);
      } else {
        SpacedText(OpMark(op), number);
      }
    }
  }

  lemma NoOp(op: Op)
    requires op.Wildcard?
    ensures PrintOp(op) == ""
  {
  }

  lemma OpFollows(op: Op, rest: string)
    requires op.Tilde? || op.Compatible?
    ensures Follows(OpMark(op), rest)
  {
  }

  lemma PredicateText(p: Predicate, k: Pieces)
    requires CanonicalPredicate(p) && PredicateEnds(k)
    ensures Separated(PredicatePieces(p, k)) && Text(PredicatePieces(p, k)) == PrintPredicate(p) + Text(k)
    ensures Text(PredicatePieces(p, k)) != "" && !IsSpace(Text(PredicatePieces(p, k))[0])
  {
    if p.op.Wildcard? {
      WildSuffixText(p, k);
    } else {
      PlainSuffixText(p, k);
    }
    var suffix := Suffix(p, k);
    NumberText(p.major, suffix);
    var number := Cons(Number(p.major), suffix);
    OpText(p.op, number);
    OpInk(p.op, Text(number));
    PrintedPredicate(p);
    Regroup(PrintOp(p.op), Decimal.Digits(p.major), PrintSuffix(p), Text(k));
  }

  lemma Regroup(a: string, b: string, c: string, d: string)
    ensures a + (b + (c + d)) == (a + b + c) + d
  {
  }

  lemma OpInk(op: Op, rest: string)
    requires rest != "" && IsAlnum(rest[0])
    ensures !IsSpace((PrintOp(op) + rest)[0])
  {
  }

  lemma PrintedPredicate(p: Predicate)
    ensures PrintPredicate(p) == PrintOp(p.op) + Decimal.Digits(p.major) + PrintSuffix(p)
  {
    if p.op.Wildcard? {
      assert PrintOp(p.op) + Decimal.Digits(p.major) == Decimal.Digits(p.major);
    }
  }

  // Parsing the pieces of a predicate back

  lemma DotSteps(n: nat, rest: Tokens)
    requires !rest.Bad?
    ensures DotComponent(More(DotT, More(NumericT(n), rest))) == Yes((Some(n), false), rest)
    ensures DotComponent(More(DotT, More(StarT, rest))) == Yes((None, true), rest)
    ensures !At(rest, DotT) ==> DotComponent(rest) == Yes((None, false), rest)
  {
  }

  lemma MaybeDottedParses(n: Option<nat>, k: Pieces)
    requires CanonicalNumber(n) && AfterWord(k)
    requires !TokensOf(k).Bad? && (n.None? ==> !At(TokensOf(k), DotT))
    ensures DotComponent(TokensOf(MaybeDotted(n, k))) == Yes((n, false), TokensOf(k))
    ensures !TokensOf(MaybeDotted(n, k)).Bad?
  {
    if n.Some? {
      DottedPieces(n.value, k);
      DotSteps(n.value, TokensOf(k));
    }
  }

  lemma StarParses(k: Pieces)
    requires !TokensOf(k).Bad?
    ensures DotComponent(TokensOf(StarPieces(k))) == Yes((None, true), TokensOf(k))
    ensures !TokensOf(StarPieces(k)).Bad?
  {
    DotSteps(0, TokensOf(k));
  }

  lemma EndTokens(k: Pieces)
    requires PredicateEnds(k)
    ensures var ts := TokensOf(k);
      && ListEnds(ts) && !At(ts, PlusT)
      && Prefixed(ts, HyphenT) == Yes([], ts)
      && Prefixed(ts, PlusT) == Yes([], ts)
      && DotComponent(ts) == Yes((None, false), ts)
  {
  }

  lemma PlainSuffixParses(p: Predicate, op: Op, k: Pieces)
    requires CanonicalPredicate(p) && !p.op.Wildcard? && PredicateEnds(k)
    ensures !TokensOf(Suffix(p, k)).Bad?
    ensures PredicateTail(op, p.major, TokensOf(Suffix(p, k))) == Yes(p.(op := op), TokensOf(k))
  {
    EndTokens(k);
    var pre := SectionPieces('-', p.pre, k);
    SectionText('-', p.pre, k);
    SectionParses('-', HyphenT, p.pre, k);
    MaybeDottedText(p.patch, pre);
    MaybeDottedParses(p.patch, pre);
    MaybeDottedParses(p.minor, MaybeDotted(p.patch, pre));
  }

  lemma WildSuffixParses(p: Predicate, op: Op, k: Pieces)
    requires CanonicalPredicate(p) && p.op.Wildcard? && PredicateEnds(k)
    ensures !TokensOf(Suffix(p, k)).Bad?
    ensures PredicateTail(op, p.major, TokensOf(Suffix(p, k))) == Yes(Normal(p), TokensOf(k))
  {
    EndTokens(k);
    StarParses(k);
    StarText(k);
    if p.op.at.Patch? {
      if p.minor.Some? {
        MaybeDottedParses(p.minor, StarPieces(k));
      } else {
        StarParses(StarPieces(k));
      }
    }
  }

  lemma OpParses(op: Op, n: nat, k: Pieces)
    requires n <= U64_MAX && !TokensOf(k).Bad?
    ensures var ts := TokensOf(OpPieces(op, Cons(Number(n), k)));
      && ts.More? && ts.head != WhitespaceT
      && OpPart(ts) == Yes(if op.Wildcard? then Compatible else op, More(NumericT(n), TokensOf(k)))
  {
    NumberPiece(n);
    var number := Cons(Number(n), k);
    assert TokensOf(number) == More(NumericT(n), TokensOf(k));
    hide Number;
    if !op.Wildcard? {
      OpToken(op);
      var mark := TokenOf(OpMark(op));
      hide TokenOf, OpMark;
      if op.Tilde? || op.Compatible? {
        assert TokensOf(Cons(OpMark(op), number)) == More(mark, TokensOf(number));
      } else {
        BlankToken(number);
        assert TokensOf(Cons(OpMark(op), Cons(Blank, number))) == More(mark, TokensOf(Cons(Blank, number)));
      }
    }
  }

  lemma OpToken(op: Op)
    requires !op.Wildcard?
    ensures var mark := TokenOf(OpMark(op));
      mark != WhitespaceT && forall rest :: OpOf(More(mark, rest)) == Some(op)
  {
  }

  lemma BlankToken(k: Pieces)
    ensures TokensOf(Cons(Blank, k)) == More(WhitespaceT, TokensOf(k))
  {
  }

  /** An operator, a major number and a tail make a predicate. */
  lemma PartParses(ts: Tokens, op: Op, major: nat, rest: Tokens, p: Predicate, end: Tokens)
    requires ts.More? && OpPart(ts) == Yes(op, More(NumericT(major), rest)) && !rest.Bad?
    requires PredicateTail(op, major, rest) == Yes(p, end)
    ensures PredicatePart(ts) == Yes(Some(p), end)
  {
    hide OpPart, PredicateTail;
    assert Component(More(NumericT(major), rest)) == Yes(Some(major), rest);
  }

  lemma PredicateParses(p: Predicate, k: Pieces)
    requires CanonicalPredicate(p) && PredicateEnds(k)
    ensures var ts := TokensOf(PredicatePieces(p, k));
      && ts.More? && ts.head != WhitespaceT
      && PredicatePart(ts) == Yes(Some(Normal(p)), TokensOf(k))
  {
    assert p.major <= U64_MAX && PredicatePieces(p, k) == OpPieces(p.op, Cons(Number(p.major), Suffix(p, k)));
    assert !p.op.Wildcard? ==> Normal(p) == p == p.(op := p.op);
    hide *;
    var op := if p.op.Wildcard? then Compatible else p.op;
    if p.op.Wildcard? {
      WildSuffixParses(p, op, k);
    } else {
      PlainSuffixParses(p, op, k);
    }
    OpParses(p.op, p.major, Suffix(p, k));
    PartParses(TokensOf(PredicatePieces(p, k)), op, p.major, TokensOf(Suffix(p, k)), Normal(p), TokensOf(k));
  }

  // Whole ranges

  function ListPieces(ps: seq<Predicate>): Pieces {
    if ps == [] then Nil
    else if |ps| == 1 then PredicatePieces(ps[0], Nil)
    else PredicatePieces(ps[0], Cons(Mark(','), Cons(Blank, ListPieces(ps[1..]))))
  }

  function NextPieces(ps: seq<Predicate>): Pieces {
    if ps == [] then Nil else Cons(Mark(','), Cons(Blank, ListPieces(ps)))
  }

  predicate CanonicalPredicates(ps: seq<Predicate>) { forall i :: 0 <= i < |ps| ==> CanonicalPredicate(ps[i]) }

  lemma {:induction false} ListText(ps: seq<Predicate>)
    requires ps != [] && CanonicalPredicates(ps)
    ensures Separated(ListPieces(ps)) && Text(ListPieces(ps)) == PrintPredicates(ps)
    ensures Text(ListPieces(ps)) != "" && !IsSpace(Text(ListPieces(ps))[0])
  {
    var p, rest := ps[0], NextPieces(ps[1..]);
    assert CanonicalPredicate(p);
    if |ps| > 1 {
      ListText(ps[1..]);
      NextText(ListPieces(ps[1..]));
    }
    PredicateText(p, rest);
    ListUnfold(ps);
    PrintUnfold(ps);
  }

  lemma PrintUnfold(ps: seq<Predicate>)
    requires ps != []
    ensures PrintPredicates(ps) ==
      PrintPredicate(ps[0]) + if |ps| == 1 then "" else ", " + PrintPredicates(ps[1..])
  {
    if |ps| == 1 {
      assert PrintPredicate(ps[0]) + "" == PrintPredicate(ps[0]);
    }
  }

  lemma NextText(list: Pieces)
    requires Separated(list) && Text(list) != "" && !IsSpace(Text(list)[0])
    ensures PredicateEnds(Cons(Mark(','), Cons(Blank, list)))
    ensures Text(Cons(Mark(','), Cons(Blank, list))) == ", " + Text(list)
  {
    SpacedText(Mark(','), list);
    assert TextOf(Mark(',')) + " " == ", ";
  }

  lemma ListUnfold(ps: seq<Predicate>)
    requires ps != []
    ensures ListPieces(ps) == PredicatePieces(ps[0], NextPieces(ps[1..]))
  {
  }

  function NormalPredicates(ps: seq<Predicate>): seq<Predicate> {
    seq(|ps|, i requires 0 <= i < |ps| => Normal(ps[i]))
  }

  lemma NormalCons(ps: seq<Predicate>)
    requires ps != []
    ensures NormalPredicates(ps) == [Normal(ps[0])] + NormalPredicates(ps[1..])
  {
  }

  lemma NextTokens(ps: seq<Predicate>)
    requires ps != []
    ensures TokensOf(NextPieces(ps)) == More(CommaT, More(WhitespaceT, TokensOf(ListPieces(ps))))
  {
    hide ListPieces;
  }

  lemma NothingNext()
    ensures MorePredicates(TokensOf(NextPieces([]))) == Yes(NormalPredicates([]), End)
  {
    assert CommaPredicate(End) == Yes(None, End);
    assert NormalPredicates([]) == [];
  }

  lemma {:induction false} ListParses(ps: seq<Predicate>)
    requires CanonicalPredicates(ps)
    ensures MorePredicates(TokensOf(NextPieces(ps))) == Yes(NormalPredicates(ps), End)
  {
    if ps == [] {
      NothingNext();
    } else {
      HeadParses(ps);
      ListParses(ps[1..]);
      hide *;
      MoreStep(
        TokensOf(ListPieces(ps)), Normal(ps[0]), NormalPredicates(ps[1..]), TokensOf(NextPieces(ps[1..])));
      NextTokens(ps);
      NormalCons(ps);
    }
  }

  lemma MoreStep(ts: Tokens, p: Predicate, ps: seq<Predicate>, rest: Tokens)
    requires ts.More? && ts.head != WhitespaceT && PredicatePart(ts) == Yes(Some(p), rest)
    requires MorePredicates(rest) == Yes(ps, End)
    ensures MorePredicates(More(CommaT, More(WhitespaceT, ts))) == Yes([p] + ps, End)
  {
    CommaStep(ts);
    hide PredicatePart, CommaPredicate;
  }

  lemma HeadParses(ps: seq<Predicate>)
    requires ps != [] && CanonicalPredicates(ps)
    ensures var ts := TokensOf(ListPieces(ps));
      && ts.More? && ts.head != WhitespaceT
      && PredicatePart(ts) == Yes(Some(Normal(ps[0])), TokensOf(NextPieces(ps[1..])))
  {
    NextSeparated(ps[1..]);
    ListUnfold(ps);
    assert CanonicalPredicate(ps[0]);
    PredicateParses(ps[0], NextPieces(ps[1..]));
  }

  lemma NextSeparated(ps: seq<Predicate>)
    requires CanonicalPredicates(ps)
    ensures PredicateEnds(NextPieces(ps))
  {
    if ps != [] {
      ListText(ps);
      NextText(ListPieces(ps));
    }
  }

  lemma CommaStep(ts: Tokens)
    requires ts.More? && ts.head != WhitespaceT && PredicatePart(ts).Yes? && PredicatePart(ts).value.Some?
    ensures CommaPredicate(More(CommaT, More(WhitespaceT, ts))) ==
      Yes(Some(PredicatePart(ts).value.value), PredicatePart(ts).rest)
  {
  }

  lemma AnyRangeParses()
    ensures ParseRange("*") == Success(Range([]))
  {
    var star := Cons(Mark('*'), Nil);
    assert Text(star) == "*";
    LexPieces(star);
    assert TokensOf(star) == More(StarT, End);
  }

  lemma CompleteRange(s: string, r: Range)
    requires !Lex(s).Bad? && RangePart(Lex(s)) == Yes(r, End)
    ensures ParseRange(s) == Success(r)
  {
  }

  /** Printing and reparsing a canonical range succeeds and gives its normal form. */
  lemma PrintedRangeParses(r: Range)
    requires CanonicalRange(r)
    ensures ParseRange(PrintRange(r)) == Success(NormalRange(r))
  {
    var ps := r.predicates;
    assert NormalRange(r) == Range(NormalPredicates(ps));
    if ps == [] {
      AnyRangeParses();
    } else {
      ListText(ps);
      LexPieces(ListPieces(ps));
      HeadParses(ps);
      ListParses(ps[1..]);
      RangeStep(TokensOf(ListPieces(ps)), ps);
      CompleteRange(PrintRange(r), NormalRange(r));
    }
  }

  lemma RangeStep(ts: Tokens, ps: seq<Predicate>)
    requires ps != [] && PredicatePart(ts) == Yes(Some(Normal(ps[0])), TokensOf(NextPieces(ps[1..])))
    requires MorePredicates(TokensOf(NextPieces(ps[1..]))) == Yes(NormalPredicates(ps[1..]), End)
    ensures RangePart(ts) == Yes(Range(NormalPredicates(ps)), End)
  {
    hide PredicatePart, MorePredicates, NextPieces, TokensOf, Normal;
    NormalCons(ps);
    hide NormalPredicates;
  }

  lemma NormalMatches(r: Range, v: Version)
    requires CanonicalRange(r)
    ensures Matches(NormalRange(r), v) <==> Matches(r, v)
  {
    var ps, qs := r.predicates, NormalRange(r).predicates;
    forall i | 0 <= i < |ps|
      ensures PredicateMatches(qs[i], v) <==> PredicateMatches(ps[i], v)
      ensures PreTagIsCompatible(qs[i], v) <==> PreTagIsCompatible(ps[i], v)
    {
      assert CanonicalPredicate(ps[i]);
    }
  }

  lemma NormalMatchesAll(r: Range)
    requires CanonicalRange(r)
    ensures forall v :: Matches(NormalRange(r), v) <==> Matches(r, v)
  {
    forall v {
      NormalMatches(r, v);
    }
  }

  lemma {:induction false} NormalPrints(ps: seq<Predicate>)
    ensures PrintPredicates(NormalPredicates(ps)) == PrintPredicates(ps)
  {
    hide PrintPredicate, Normal, NormalPredicates;
    NormalParts(ps);
    if ps != [] {
      NormalPrints(ps[1..]);
      NormalPrinted(ps[0]);
    }
  }

  lemma NormalParts(ps: seq<Predicate>)
    ensures |NormalPredicates(ps)| == |ps|
    ensures ps != [] ==>
      NormalPredicates(ps)[0] == Normal(ps[0]) && NormalPredicates(ps)[1..] == NormalPredicates(ps[1..])
  {
    hide Normal;
  }

  lemma NormalPrinted(p: Predicate)
    ensures PrintPredicate(Normal(p)) == PrintPredicate(p)
  {
  }

  // The parser produces canonical ranges

  lemma ComponentCanonical(ts: Tokens)
    requires CanonicalTokens(ts)
    ensures Component(ts).Yes? ==> CanonicalNumber(Component(ts).value) && CanonicalTokens(Component(ts).rest)
    ensures var r := DotComponent(ts);
      r.Yes? ==>
        && CanonicalNumber(r.value.0) && CanonicalTokens(r.rest)
        && (r.value.1 ==> r.value.0.None?)
        && (!r.value.1 && r.value.0.None? ==> r.rest == ts && !At(ts, DotT))
  {
  }

  lemma PredicateTailCanonical(op: Op, major: nat, ts: Tokens)
    requires CanonicalTokens(ts) && major <= U64_MAX && !op.Wildcard?
    ensures var r := PredicateTail(op, major, ts);
      r.Yes? ==> CanonicalPredicate(r.value) && CanonicalTokens(r.rest)
  {
    ComponentCanonical(ts);
    var minor := DotComponent(ts);
    if minor.Yes? {
      ComponentCanonical(minor.rest);
      var patch := DotComponent(minor.rest);
      if patch.Yes? {
        PrefixedCanonical(patch.rest, HyphenT);
        var pre := Prefixed(patch.rest, HyphenT);
        if pre.Yes? {
          PrefixedCanonical(pre.rest, PlusT);
        }
      }
    }
  }

  lemma PredicatePartCanonical(ts: Tokens)
    requires CanonicalTokens(ts)
    ensures var r := PredicatePart(ts);
      r.Yes? ==> (r.value.Some? ==> CanonicalPredicate(r.value.value)) && CanonicalTokens(r.rest)
  {
    var op := OpPart(ts);
    if ts.More? && op.Yes? {
      ComponentCanonical(op.rest);
      var major := Component(op.rest);
      if major.Yes? && major.value.Some? {
        PredicateTailCanonical(op.value, major.value.value, major.rest);
      }
    }
  }

  lemma SkipCanonical(ts: Tokens)
    requires CanonicalTokens(ts)
    ensures Skip(ts).Yes? ==> CanonicalTokens(Skip(ts).rest)
    ensures SkipWhitespace(ts).Yes? ==> CanonicalTokens(SkipWhitespace(ts).rest)
  {
  }

  lemma CommaCanonical(ts: Tokens)
    requires CanonicalTokens(ts)
    ensures var r := CommaPredicate(ts);
      r.Yes? ==> (r.value.Some? ==> CanonicalPredicate(r.value.value)) && CanonicalTokens(r.rest)
  {
    SkipCanonical(ts);
    var ts1 := SkipWhitespace(ts);
    if ts1.Yes? && At(ts1.rest, CommaT) && Skip(ts1.rest).Yes? {
      var ts2 := Skip(ts1.rest);
      SkipCanonical(ts1.rest);
      SkipCanonical(ts2.rest);
      var ts3 := SkipWhitespace(ts2.rest);
      if ts3.Yes? {
        PredicatePartCanonical(ts3.rest);
      }
    }
  }

  lemma {:induction false} MoreCanonical(ts: Tokens)
    requires CanonicalTokens(ts)
    ensures MorePredicates(ts).Yes? ==> CanonicalPredicates(MorePredicates(ts).value)
    decreases Count(ts)
  {
    CommaCanonical(ts);
    var next := CommaPredicate(ts);
    if next.Yes? && next.value.Some? {
      MoreCanonical(next.rest);
    }
  }

  lemma ParsedRangeCanonical(s: string)
    ensures ParseRange(s).Success? ==> CanonicalRange(ParseRange(s).value)
  {
    LexCanonical(s);
    PredicatePartCanonical(Lex(s));
    var first := PredicatePart(Lex(s));
    if first.Yes? && first.value.Some? {
      MoreCanonical(first.rest);
    }
  }

  /** For every input the range parser accepts: printing the range and parsing it again succeeds, the
      result matches exactly the same versions, and printing it once more changes nothing. */
  lemma RangeRoundTrip(s: string)
    requires ParseRange(s).Success?
    ensures var r := ParseRange(s).value;
      && ParseRange(PrintRange(r)) == Success(NormalRange(r))
      && (forall v :: Matches(NormalRange(r), v) <==> Matches(r, v))
      && PrintRange(NormalRange(r)) == PrintRange(r)
  {
    var r := ParseRange(s).value;
    ParsedRangeCanonical(s);
    PrintedRangeParses(r);
    NormalMatchesAll(r);
    NormalPrints(r.predicates);
    assert NormalRange(r).predicates == NormalPredicates(r.predicates);
  }

  // Omitted operators

  /** A text that starts with a number or a wildcard. */
  predicate Bare(s: string) { s != "" && (IsAlnum(s[0]) || s[0] == '*') }

  lemma BareTokens(s: string)
    requires Bare(s)
    ensures Lex(s).More? && OpOf(Lex(s)).None? && !At(Lex(s), WhitespaceT)
    ensures Lex("^" + s) == More(CaretT, Lex(s))
  {
    assert ("^" + s)[1..] == s && ("^" + s)[0] == '^';
  }

  lemma CaretPart(ts: Tokens)
    requires ts.More? && OpOf(ts).None? && !At(ts, WhitespaceT)
    ensures OpPart(More(CaretT, ts)) == OpPart(ts)
    ensures PredicatePart(More(CaretT, ts)) == PredicatePart(ts)
    ensures RangePart(More(CaretT, ts)) == RangePart(ts)
  {
    hide Component, PredicateTail, MorePredicates;
  }

  /** A predicate without an operator means the same as one with a caret. */
  lemma OmittedOperator(s: string)
    requires Bare(s)
    ensures ParseRange(s) == ParseRange("^" + s)
  {
    BareTokens(s);
    hide Lex, RangePart;
    CaretPart(Lex(s));
  }

  /** The three spellings of a wildcard. */
  lemma WildcardSpellings(rest: Tokens)
    ensures Component(More(AlphaNumericT("x"), rest)) == Component(More(StarT, rest))
    ensures Component(More(AlphaNumericT("X"), rest)) == Component(More(StarT, rest))
    ensures !rest.Bad? ==> Component(More(StarT, rest)) == Yes(None, rest)
  {
  }
}
