/** The driver `lex`: at each position it tries the sub-lexers in a fixed order
    until one reads a token, keeps every token that is not Nil, and stops at the
    end of the source or at the first position that no sub-lexer accepts. */
module Lexing {
  import opened Tokens
  import opened Matching
  import opened SubLexers

  datatype SubLexer = KeywordLexer | SymbolLexer | NumericLexer | StringLexer | IdentifierLexer

  /** The order in which `lex` tries the sub-lexers. */
  const Order: seq<SubLexer> := [KeywordLexer, SymbolLexer, NumericLexer, StringLexer, IdentifierLexer]

  /** What one sub-lexer does at the cursor. */
  function Step(l: SubLexer, source: string, cur: Cursor): Lexed
  {
    match l
    case KeywordLexer => KeywordStep(source, cur)
    case SymbolLexer => SymbolStep(source, cur)
    case NumericLexer => NumericStep(source, cur)
    case StringLexer => DelimitedStep(source, cur, '\'')
    case IdentifierLexer => IdentifierStep(source, cur)
  }

  method RunLexer(l: SubLexer, source: string, cur: Cursor) returns (res: Outcome, next: Cursor)
    ensures Lexed(res, next) == Step(l, source, cur)
  {
    match l
    case KeywordLexer => res, next := LexKeyword(source, cur);
    case SymbolLexer => res, next := LexSymbols(source, cur);
    case NumericLexer => res, next := LexNumeric(source, cur);
    case StringLexer => res, next := LexString(source, cur);
    case IdentifierLexer => res, next := LexIdentifier(source, cur);
  }

  /** Tries `lexers` in turn. A sub-lexer that errs hands the cursor it leaves
      behind to the next one; the first token or panic ends the turn, and so does
      the error of the last sub-lexer. */
  function TryLexers(lexers: seq<SubLexer>, source: string, cur: Cursor): Lexed
    requires |lexers| > 0
  {
    var r := Step(lexers[0], source, cur);
    if r.outcome.Err? && |lexers| > 1 then TryLexers(lexers[1..], source, r.next) else r
  }

  /** One turn of the outer loop of `lex`. */
  function Attempt(source: string, cur: Cursor): Lexed
  {
    TryLexers(Order, source, cur)
  }

  /** `Attempt` written out, sub-lexer by sub-lexer. */
  lemma AttemptUnfolded(source: string, cur: Cursor)
    ensures Attempt(source, cur) ==
      var k := KeywordStep(source, cur);
      if !k.outcome.Err? then k else
      var y := SymbolStep(source, k.next);
      if !y.outcome.Err? then y else
      var n := NumericStep(source, y.next);
      if !n.outcome.Err? then n else
      var q := DelimitedStep(source, n.next, '\'');
      if !q.outcome.Err? then q else
      IdentifierStep(source, q.next)
  {
    var k := KeywordStep(source, cur);
    var y := SymbolStep(source, k.next);
    var n := NumericStep(source, y.next);
    var q := DelimitedStep(source, n.next, '\'');
    var l1, l2, l3, l4 := Order[1..], Order[2..], Order[3..], Order[4..];
    assert l1[1..] == l2 && l2[1..] == l3 && l3[1..] == l4;
    assert TryLexers(l4, source, q.next) == IdentifierStep(source, q.next);
    assert TryLexers(l3, source, n.next) == if !q.outcome.Err? then q else TryLexers(l4, source, q.next);
    assert TryLexers(l2, source, y.next) == if !n.outcome.Err? then n else TryLexers(l3, source, n.next);
    assert TryLexers(l1, source, k.next) == if !y.outcome.Err? then y else TryLexers(l2, source, y.next);
  }

  /** Inside the source, a turn that reads a token moves the cursor forward and the
      token's text is not empty; a turn that fails leaves the cursor where it was. */
  lemma AttemptProgress(source: string, cur: Cursor)
    requires cur.pos < |source|
    ensures var r := Attempt(source, cur);
      && (r.outcome.Ok? ==> r.next.pos > cur.pos && r.outcome.token.literal != "")
      && (r.outcome.Err? ==> r.next == cur)
  {
    AttemptUnfolded(source, cur);
    KeywordsWellFormed();
  }

  method TryAll(source: string, cur: Cursor) returns (res: Outcome, next: Cursor)
    ensures Lexed(res, next) == Attempt(source, cur)
  {
    var i := 0;
    res, next := RunLexer(Order[i], source, cur);
    while res.Err? && i + 1 < |Order|
      invariant 0 <= i < |Order|
      invariant Attempt(source, cur) ==
        if res.Err? && i + 1 < |Order| then TryLexers(Order[i + 1..], source, next) else Lexed(res, next)
      decreases |Order| - i
    {
      i := i + 1;
      assert Order[i..][1..] == Order[i + 1..];
      res, next := RunLexer(Order[i], source, next);
    }
  }

  /** What `lex` returns: the tokens, the error it reports (the hint and the
      position and column of the cursor where no sub-lexer applied), or a panic. */
  datatype LexResult = TokenList(tokens: seq<Token>) | LexError(hint: string, pos: nat, col: nat) | LexPanic

  /** The hint of the error message: the text of the last token read, if any. */
  function Hint(tokens: seq<Token>): (r: string)
    ensures r == "" <==> tokens == []
    ensures tokens != [] ==> |r| >= 7 && r[..7] == " after " && r[7..] == tokens[|tokens| - 1].literal
  {
    if |tokens| > 0 then " after " + tokens[|tokens| - 1].literal else ""
  }

  /** `lex` from the cursor on, with `tokens` already read. */
  function LexFrom(source: string, cur: Cursor, tokens: seq<Token>): LexResult
    decreases |source| - cur.pos
  {
    if cur.pos >= |source| then TokenList(tokens)
    else
      AttemptProgress(source, cur);
      var a := Attempt(source, cur);
      match a.outcome
      case Ok(t) => LexFrom(source, a.next, if t.kind != Nil then tokens + [t] else tokens)
      case Err(_) => LexError(Hint(tokens), a.next.pos, a.next.loc.col)
      case Panic => LexPanic
  }

  /** What `lex` returns for `source`. */
  function LexSpec(source: string): LexResult
  {
    LexFrom(source, StartCursor, [])
  }

  method Lex(source: string) returns (result: LexResult)
    ensures result == LexSpec(source)
  {
    var tokens: seq<Token> := [];
    var cur := StartCursor;
    while cur.pos < |source|
      invariant LexFrom(source, cur, tokens) == LexSpec(source)
      decreases |source| - cur.pos
    {
      AttemptProgress(source, cur);
      var res, next := TryAll(source, cur);
      match res
      case Ok(token) =>
        if token.kind != Nil {
          tokens := tokens + [token];
        }
        cur := next;
      case Err(_) =>
        var hint := "";
        if |tokens| > 0 {
          hint := " after " + tokens[|tokens| - 1].literal;
        }
        return LexError(hint, next.pos, next.loc.col);
      case Panic =>
        return LexPanic;
    }
    result := TokenList(tokens);
  }

  // ------------------------------------------------------------ one position

  /** The characters some sub-lexer accepts: a space, a symbol character, a digit,
      a quote of either kind, or a letter. */
  predicate Accepted(c: char)
  {
    c == ' ' || IsSymbolChar(c) || IsDigit(c) || c == '\'' || c == '"' || IsAlpha(c)
  }

  /** No keyword starts at a character that is not a letter. */
  lemma NoKeywordAt(source: string, cur: Cursor)
    requires cur.pos < |source| && !IsAlpha(source[cur.pos])
    ensures KeywordStep(source, cur).outcome.Err?
  {
    KeywordsWellFormed();
    forall k | k in Keywords
      ensures !MatchesAt(source, cur.pos, k)
    {
      if |k| <= |source| - cur.pos {
        assert Lower(source[cur.pos..cur.pos + |k|])[0] == LowerChar(source[cur.pos]);
        assert Lower(k)[0] != LowerChar(source[cur.pos]);
      }
    }
  }

  /** Inside the source, a turn of `lex` fails exactly at a character no sub-lexer
      accepts, and panics exactly at a quote that is never closed. */
  lemma AttemptOutcomes(source: string, cur: Cursor)
    requires cur.pos < |source|
    ensures var c := source[cur.pos];
      && (Attempt(source, cur).outcome.Err? <==> !Accepted(c))
      && (Attempt(source, cur).outcome.Panic? <==>
            (c == '\'' || c == '"') && EscapedBody(source[cur.pos + 1..], c))
  {
    AttemptUnfolded(source, cur);
    if !IsAlpha(source[cur.pos]) {
      NoKeywordAt(source, cur);
    }
  }

  // ------------------------------------------------------------ whole runs

  /** A turn that reads a token: `lex` keeps the token unless it is Nil and goes on
      from where the turn left the cursor. */
  lemma LexFromToken(source: string, cur: Cursor, tokens: seq<Token>)
    requires cur.pos < |source| && Attempt(source, cur).outcome.Ok?
    ensures var a := Attempt(source, cur);
      var t := a.outcome.token;
      LexFrom(source, cur, tokens) == LexFrom(source, a.next, if t.kind != Nil then tokens + [t] else tokens)
  {
  }

  /** The tokens already read stay in front, and every token `lex` adds is a real
      token: not Nil, and with text. */
  lemma {:induction false} LexFromTokens(source: string, cur: Cursor, tokens: seq<Token>)
    ensures LexFrom(source, cur, tokens).TokenList? ==>
      var ts := LexFrom(source, cur, tokens).tokens;
      && |tokens| <= |ts| && ts[..|tokens|] == tokens
      && forall i :: |tokens| <= i < |ts| ==> ts[i].kind != Nil && ts[i].literal != ""
    decreases |source| - cur.pos
  {
    if cur.pos < |source| {
      AttemptProgress(source, cur);
      var a := Attempt(source, cur);
      if a.outcome.Ok? {
        var t := a.outcome.token;
        var more := if t.kind != Nil then tokens + [t] else tokens;
        LexFromToken(source, cur, tokens);
        LexFromTokens(source, a.next, more);
        if LexFrom(source, a.next, more).TokenList? {
          var ts := LexFrom(source, a.next, more).tokens;
          assert ts[..|tokens|] == more[..|tokens|] == tokens;
          forall i | |tokens| <= i < |ts|
            ensures ts[i].kind != Nil && ts[i].literal != ""
          {
            if i < |more| {
              assert ts[i] == more[i] == t;
            }
          }
        }
      }
    }
  }

  /** `lex` reports an error only at a character no sub-lexer accepts. */
  lemma {:induction false} LexFromError(source: string, cur: Cursor, tokens: seq<Token>)
    ensures LexFrom(source, cur, tokens).LexError? ==>
      var e := LexFrom(source, cur, tokens);
      e.pos < |source| && !Accepted(source[e.pos])
    decreases |source| - cur.pos
  {
    if cur.pos < |source| {
      AttemptProgress(source, cur);
      var a := Attempt(source, cur);
      if a.outcome.Ok? {
        var t := a.outcome.token;
        LexFromToken(source, cur, tokens);
        LexFromError(source, a.next, if t.kind != Nil then tokens + [t] else tokens);
      } else if a.outcome.Err? {
        AttemptOutcomes(source, cur);
      }
    }
  }

  /** The tokens of a successful `lex` are never Nil and never empty, and an error
      names the position of a character no sub-lexer accepts. */
  lemma LexSpecResult(source: string)
    ensures LexSpec(source).TokenList? ==>
      forall t :: t in LexSpec(source).tokens ==> t.kind != Nil && t.literal != ""
    ensures LexSpec(source).LexError? ==>
      LexSpec(source).pos < |source| && !Accepted(source[LexSpec(source).pos])
  {
    LexFromTokens(source, StartCursor, []);
    LexFromError(source, StartCursor, []);
  }

  /** A space is read as a Nil token, which `lex` does not keep. */
  lemma SpaceSkipped(source: string, cur: Cursor)
    requires cur.pos < |source| && source[cur.pos] == ' '
    ensures Attempt(source, cur) == Lexed(Ok(Token(" ", Nil, Advance(cur, 1).loc)), Advance(cur, 1))
  {
    NoKeywordAt(source, cur);
    AttemptUnfolded(source, cur);
  }

  /** A symbol character is read as a symbol token located where the cursor ends
      up, and the character after it is skipped. */
  lemma SymbolSkipsNext(source: string, cur: Cursor)
    requires cur.pos < |source| && IsSymbolChar(source[cur.pos])
    ensures var next := Advance(cur, 2);
      Attempt(source, cur) == Lexed(Ok(Token([source[cur.pos]], Symbol, next.loc)), next)
  {
    NoKeywordAt(source, cur);
    AttemptUnfolded(source, cur);
  }

  /** Over the whole run of `lex`: it goes on one character after a space... */
  lemma LexSkipsSpace(source: string, cur: Cursor, tokens: seq<Token>)
    requires cur.pos < |source| && source[cur.pos] == ' '
    ensures LexFrom(source, cur, tokens) == LexFrom(source, Advance(cur, 1), tokens)
  {
    SpaceSkipped(source, cur);
    LexFromToken(source, cur, tokens);
  }

  /** ... and two after a symbol, which it keeps. */
  lemma LexSkipsAfterSymbol(source: string, cur: Cursor, tokens: seq<Token>)
    requires cur.pos < |source| && IsSymbolChar(source[cur.pos])
    ensures var next := Advance(cur, 2);
      LexFrom(source, cur, tokens) == LexFrom(source, next, tokens + [Token([source[cur.pos]], Symbol, next.loc)])
  {
    SymbolSkipsNext(source, cur);
    LexFromToken(source, cur, tokens);
  }

  /** A newline is not accepted: `lex` stops there with an error. */
  lemma LexStopsAtNewline(source: string, cur: Cursor, tokens: seq<Token>)
    requires cur.pos < |source| && source[cur.pos] == '\n'
    ensures LexFrom(source, cur, tokens) == LexError(Hint(tokens), cur.pos, cur.loc.col)
  {
    AttemptProgress(source, cur);
    AttemptOutcomes(source, cur);
  }

  /** A quote, of either kind, that is never closed makes `lex` panic. */
  lemma LexPanicsOnUnclosedQuote(source: string, cur: Cursor, tokens: seq<Token>)
    requires cur.pos < |source| && (source[cur.pos] == '\'' || source[cur.pos] == '"')
    requires EscapedBody(source[cur.pos + 1..], source[cur.pos])
    ensures LexFrom(source, cur, tokens) == LexPanic
  {
    AttemptOutcomes(source, cur);
  }

  /** A keyword that matches, with no longer keyword matching, is read as that
      keyword, spelled in lower case, whatever follows it. */
  lemma KeywordRead(source: string, cur: Cursor, tokens: seq<Token>, k: string)
    requires k in Keywords && MatchesAt(source, cur.pos, k)
    requires forall o :: o in Keywords && |o| > |k| ==> !MatchesAt(source, cur.pos, o)
    ensures LexFrom(source, cur, tokens) == LexFrom(source, Advance(cur, |k|), tokens + [Token(k, Keyword, cur.loc)])
  {
    assert Attempt(source, cur) == Lexed(Ok(Token(k, Keyword, cur.loc)), Advance(cur, |k|)) by {
      KeywordStepLongest(source, cur, k);
      AttemptUnfolded(source, cur);
    }
    LexFromToken(source, cur, tokens);
  }

  /** A run of digits is read as one numeric token. */
  lemma NumberRead(source: string, cur: Cursor, tokens: seq<Token>)
    requires cur.pos < |source| && IsDigit(source[cur.pos])
    ensures var n := Span(source, cur.pos, IsDigit);
      LexFrom(source, cur, tokens) ==
      LexFrom(source, Advance(cur, n), tokens + [Token(source[cur.pos..cur.pos + n], Numeric, cur.loc)])
  {
    var n := Span(source, cur.pos, IsDigit);
    assert Attempt(source, cur) == Lexed(Ok(Token(source[cur.pos..cur.pos + n], Numeric, cur.loc)), Advance(cur, n)) by {
      NoKeywordAt(source, cur);
      AttemptUnfolded(source, cur);
    }
    LexFromToken(source, cur, tokens);
  }

  /** A closed literal in single quotes is read whole by the string sub-lexer. */
  lemma StringRead(source: string, cur: Cursor, tokens: seq<Token>)
    requires cur.pos < |source| && DelimitedStep(source, cur, '\'').outcome.Ok?
    ensures var d := DelimitedStep(source, cur, '\'');
      LexFrom(source, cur, tokens) == LexFrom(source, d.next, tokens + [d.outcome.token])
  {
    assert Attempt(source, cur) == DelimitedStep(source, cur, '\'') by {
      NoKeywordAt(source, cur);
      AttemptUnfolded(source, cur);
    }
    LexFromToken(source, cur, tokens);
  }

  /** A letter at which no keyword matches starts an identifier. */
  lemma IdentifierRead(source: string, cur: Cursor, tokens: seq<Token>)
    requires cur.pos < |source| && IsAlpha(source[cur.pos])
    requires forall o :: o in Keywords ==> !MatchesAt(source, cur.pos, o)
    ensures var w := WordStep(source, cur);
      w.outcome.Ok? && LexFrom(source, cur, tokens) == LexFrom(source, w.next, tokens + [w.outcome.token])
  {
    assert Attempt(source, cur) == WordStep(source, cur) by {
      AttemptUnfolded(source, cur);
    }
    LexFromToken(source, cur, tokens);
  }
}
