/** Whole runs of the lexer: they end, tokens come in order, and nothing in between is lost. */
module IdlRuns {
  import opened Wrappers
  import Decimal
  import opened IdlSyntax
  import IdlLexer

  /** The tokens of a run, ending at the end of the text or at an error. */
  datatype Tokens = Finished | Error | Next(start: nat, token: Token, end: nat, rest: Tokens)

  /** Text still to be read, and a closing token still to be emitted. */
  function Budget(s: string, st: State): nat
    requires StateOk(s, st)
  {
    |s| - st.pos + if st.close.Some? then 1 else 0
  }

  /** No later token starts before this. */
  function Low(st: State): nat {
    if st.close.Some? then st.close.value.0 else if st.block.Some? then st.block.value.0 else st.pos
  }

  lemma TokenProgress(s: string, i: nat)
    requires i <= |s|
    ensures var step := TokenAt(s, i);
      step.Emit? ==> step.start == i && i < step.end == step.next.pos && StateOk(s, step.next) && step.next.close.None?
  {
    if At(s, i, "//!") {
      DocProgress(s, i, "!");
      hide DocLines, Run;
    } else if At(s, i, "///") {
      DocProgress(s, i, "/");
      hide DocLines, Run;
    }
  }

  lemma DocProgress(s: string, i: nat, mark: string)
    requires i <= |s| && (mark == "!" || mark == "/") && At(s, i, "//" + mark)
    ensures i < DocLines(s, i, mark).1 <= |s|
  {
    assert s[i] == s[i..i + 3][0] == '/';
    assert Run(s, i, IsSpace) == i;
    IdlLexer.DocStep(s, i, mark);
  }

  /** Every token uses up some of the budget, and starts in order. */
  lemma StepProgress(s: string, st: State)
    requires StateOk(s, st)
    ensures var step := NextStep(s, st);
      step.Emit? ==>
        && StateOk(s, step.next) && Budget(s, step.next) < Budget(s, st)
        && Low(st) <= step.start <= Low(step.next)
  {
    if st.close.None? && st.block.None? {
      TokenProgress(s, Skip(s, st.pos));
      hide TokenAt, Skip;
    }
  }

  function LexFrom(s: string, st: State): Tokens
    requires StateOk(s, st)
    decreases Budget(s, st)
  {
    StepProgress(s, st);
    match NextStep(s, st)
    case Done => Finished
    case Failed => Error
    case Emit(start, token, end, next) => Next(start, token, end, LexFrom(s, next))
  }

  const START: State := State(0, None, None)

  function Count(ts: Tokens): nat { if ts.Next? then 1 + Count(ts.rest) else 0 }

  predicate Succeeds(ts: Tokens) { ts.Finished? || (ts.Next? && Succeeds(ts.rest)) }

  lemma {:induction false} CountBounded(s: string, st: State)
    requires StateOk(s, st)
    ensures Count(LexFrom(s, st)) <= Budget(s, st)
    decreases Budget(s, st)
  {
    StepProgress(s, st);
    var step := NextStep(s, st);
    if step.Emit? {
      CountBounded(s, step.next);
    }
  }

  /** Lexing ends after at most one token per character. */
  lemma AtMostOnePerCharacter(s: string)
    ensures Count(LexFrom(s, START)) <= |s|
  {
    hide LexFrom;
    CountBounded(s, START);
  }

  predicate InOrder(ts: Tokens, low: nat) {
    ts.Next? ==> low <= ts.start && InOrder(ts.rest, ts.start)
  }

  lemma {:induction false} StartsInOrder(s: string, st: State, low: nat)
    requires StateOk(s, st) && low <= Low(st)
    ensures InOrder(LexFrom(s, st), low)
    decreases Budget(s, st)
  {
    StepProgress(s, st);
    var step := NextStep(s, st);
    if step.Emit? {
      StartsInOrder(s, step.next, step.start);
    }
  }

  // Coverage

  predicate InToken(ts: Tokens, k: nat) {
    ts.Next? && (ts.start <= k < ts.end || InToken(ts.rest, k))
  }

  /** `c` opens a comment that reaches past `k`. */
  predicate CommentSpans(s: string, c: nat, k: nat) {
    || (At(s, c, "//") && c <= k < LineEnd(s, c + 2))
    || (At(s, c, "/*") && c <= k < BlockEnd(s, c + 2))
  }

  predicate Blank(s: string, k: nat)
    requires k < |s|
  {
    IsSpace(s[k]) || exists c :: 0 <= c <= k && CommentSpans(s, c, k)
  }

  lemma {:induction false} SkippedIsBlank(s: string, i: nat, k: nat)
    requires i <= |s| && i <= k < Skip(s, i)
    ensures Blank(s, k)
    decreases |s| - i
  {
    if At(s, i, "//") {
      if k < LineEnd(s, i + 2) {
        assert CommentSpans(s, i, k);
      } else {
        SkippedIsBlank(s, LineEnd(s, i + 2), k);
      }
    } else if At(s, i, "/*") {
      if k < BlockEnd(s, i + 2) {
        assert CommentSpans(s, i, k);
      } else {
        SkippedIsBlank(s, BlockEnd(s, i + 2), k);
      }
    } else if k > i {
      SkippedIsBlank(s, i + 1, k);
    }
  }

  /** What one step moves over is in its token, or blank. */
  lemma StepCovers(s: string, st: State, k: nat)
    requires StateOk(s, st) && st.pos <= k < |s| && !NextStep(s, st).Failed?
    ensures var step := NextStep(s, st);
      step.Done? || k < step.next.pos ==> (step.Emit? && step.start <= k < step.end) || Blank(s, k)
  {
    if st.close.None? && st.block.None? {
      var i := Skip(s, st.pos);
      TokenProgress(s, i);
      if k < i {
        SkippedIsBlank(s, st.pos, k);
      } else {
        DoneAtEnd(s, i);
      }
      hide TokenAt, Skip, Blank;
    }
  }

  lemma DoneAtEnd(s: string, i: nat)
    requires i <= |s|
    ensures TokenAt(s, i).Done? ==> i == |s|
  {
  }

  /** In a run that succeeds, every character is in some token, is whitespace, or is in a comment. */
  lemma {:induction false} NothingLost(s: string, st: State, k: nat)
    requires StateOk(s, st) && st.pos <= k < |s| && Succeeds(LexFrom(s, st))
    ensures InToken(LexFrom(s, st), k) || Blank(s, k)
    decreases Budget(s, st)
  {
    StepProgress(s, st);
    var step := NextStep(s, st);
    StepCovers(s, st, k);
    if step.Emit? && k >= step.next.pos {
      NothingLost(s, step.next, k);
    }
  }

  // The loop around the lexer

  function Flat(ts: Tokens): seq<(nat, Token, nat)> {
    if ts.Next? then [(ts.start, ts.token, ts.end)] + Flat(ts.rest) else []
  }

  /** Collects all tokens, or stops at the first error. */
  method Tokenize(source: string) returns (tokens: seq<(nat, Token, nat)>, ok: bool)
    ensures tokens == Flat(LexFrom(source, START)) && |tokens| <= |source|
    ensures ok <==> Succeeds(LexFrom(source, START))
  {
    hide NextStep;
    var lexer := new IdlLexer.Lexer(source);
    ghost var all := LexFrom(source, START);
    tokens := [];
    ghost var rest := all;
    assert tokens + Flat(rest) == Flat(rest);
    AtMostOnePerCharacter(source);
    FlatCount(all);
    while true
      invariant lexer.Valid() && lexer.source == source && fresh(lexer)
      invariant rest == LexFrom(source, lexer.Now()) && tokens + Flat(rest) == Flat(all)
      invariant Succeeds(rest) <==> Succeeds(all)
      decreases Budget(source, lexer.Now())
    {
      StepProgress(source, lexer.Now());
      var step := lexer.Next();
      match step {
        case Done => return tokens, true;
        case Failed => return tokens, false;
        case Emit(start, token, end, _) =>
          assert tokens + Flat(rest) == (tokens + [(start, token, end)]) + Flat(rest.rest);
          tokens := tokens + [(start, token, end)];
          rest := rest.rest;
      }
    }
  }

  lemma {:induction false} FlatCount(ts: Tokens)
    ensures |Flat(ts)| == Count(ts)
  {
    if ts.Next? {
      FlatCount(ts.rest);
    }
  }
}
