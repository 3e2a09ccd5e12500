/** The unit tests of the lexer, as lemmas about the model, and two inputs that
    show how the lexer treats a keyword at the start of a longer word and the
    character after a symbol. */
module LexerExamples {
  import opened Tokens
  import opened Matching
  import opened SubLexers
  import opened Lexing

  // ---------------------------------------------------------- lex_string

  /** `test_lex_string`, accepted inputs: closed literals, with doubled quotes
      inside. */
  lemma LexStringAccepts()
    ensures DelimitedStep("'Hello'", StartCursor, '\'').outcome.Ok?
    ensures DelimitedStep("'Hello ''asdf there'", StartCursor, '\'').outcome.Ok?
    ensures DelimitedStep("'a '' b'", StartCursor, '\'').outcome.Ok?
  {
    ClosesHello();
    ClosesDoubled();
    ClosesSpaced();
  }

  /** The closing quote of `'Hello'`. */
  lemma ClosesHello()
    ensures CloseScan("'Hello'", 1, '\'') == Some(6)
  { }

  /** The closing quote of `'Hello ''asdf there'`: the doubled quote is passed over. */
  lemma ClosesDoubled()
    ensures CloseScan("'Hello ''asdf there'", 1, '\'') == Some(19)
  { }

  /** The closing quote of `'a '' b'`. */
  lemma ClosesSpaced()
    ensures CloseScan("'a '' b'", 1, '\'') == Some(7)
  { }

  /** `test_lex_string`, refused inputs: no opening quote, no closing quote, an
      empty source, and a quote that is not where the cursor is. */
  lemma LexStringRefuses()
    ensures DelimitedStep("a", StartCursor, '\'').outcome.Err?
    ensures DelimitedStep("'Hello", StartCursor, '\'').outcome.Err?
    ensures DelimitedStep("'", StartCursor, '\'').outcome.Err?
    ensures DelimitedStep("", StartCursor, '\'').outcome.Err?
    ensures DelimitedStep(" 'foo'", StartCursor, '\'').outcome.Err?
  {
    assert CloseScan("'Hello", 1, '\'') == None;
    assert CloseScan("'", 1, '\'') == None;
  }

  // ---------------------------------------------------------- longest_match

  /** `test_longest_match`: of "int", "into" and "in", which all match "into",
      the longest wins. */
  lemma LongestMatchInto()
    ensures LongestMatchOf("into", 0, ["int", "into", "in", "select"]) == "into"
  {
    LongestMatchOfBasics("into", 0, ["int", "into", "in", "select"]);
    MatchesAtPointwise("into", 0, "into");
  }

  /** `test_longest_match`: a source that is only a prefix of an option does not
      match it. */
  lemma LongestMatchSel()
    ensures LongestMatchOf("sel", 0, ["int", "into", "in", "select"]) == ""
  {
    LongestMatchOfEmpty("sel", 0, ["int", "into", "in", "select"]);
    forall o | o in ["int", "into", "in", "select"]
      ensures !MatchesAt("sel", 0, o)
    {
      MatchesAtPointwise("sel", 0, o);
      if |o| <= 3 {
        assert LowerChar(o[0]) != LowerChar("sel"[0]);
      }
    }
  }

  /** `test_longest_match`: matching ignores case, and the option is returned as
      listed. */
  lemma LongestMatchSelect()
    ensures LongestMatchOf("Select", 0, ["int", "into", "in", "select"]) == "select"
  {
    assert MatchesAt("Select", 0, "select") by {
      assert LowerChar('S') == 's';
      MatchesAtPointwise("Select", 0, "select");
    }
    LongestMatchOfBasics("Select", 0, ["int", "into", "in", "select"]);
  }

  // ---------------------------------------------------------- lex_keyword

  /** `test_lex_keyword`: "select" is read as a keyword. */
  lemma LexKeywordSelect()
    ensures KeywordStep("select", StartCursor) == Lexed(Ok(Token("select", Keyword, StartLocation)), Advance(StartCursor, 6))
  {
    assert MatchesAt("select", 0, "select") by {
      MatchesAtPointwise("select", 0, "select");
    }
    KeywordStepLongest("select", StartCursor, "select");
  }

  /** `test_lex_keyword`: a word that starts no keyword, and the empty source, are
      refused. */
  lemma LexKeywordRefuses()
    ensures KeywordStep("ukasdnf", StartCursor).outcome.Err?
    ensures KeywordStep("", StartCursor).outcome.Err?
  {
    KeywordsWellFormed();
    forall k | k in Keywords
      ensures !MatchesAt("ukasdnf", 0, k)
    {
      MatchesAtPointwise("ukasdnf", 0, k);
      assert LowerChar(k[0]) != LowerChar("ukasdnf"[0]);
    }
  }

  // ---------------------------------------------------------- lex_identifier

  /** `test_lex_identifier`: a double-quoted name is read as a string token. */
  lemma LexIdentifierQuoted()
    ensures IdentifierStep("\"there\"", StartCursor) ==
      Lexed(Ok(Token("\"there\"", String, StartLocation)), Advance(StartCursor, 7))
  {
    assert CloseScan("\"there\"", 1, '"') == Some(6);
  }

  /** `test_lex_identifier`: a bare word is read as an identifier. */
  lemma LexIdentifierWord()
    ensures IdentifierStep("there", StartCursor) ==
      Lexed(Ok(Token("there", Identifier, StartLocation)), Advance(StartCursor, 5))
  {
    assert Span("there", 1, IsIdentChar) == 4;
    assert Lower("here") == "here";
  }

  // ---------------------------------------------------------- whole runs of lex

  // A whole run is split into turns of `lex` on a source `s` known only through
  // what each turn reads, one lemma per turn or short stretch of turns, at column
  // `n` of the first line; what the keyword sub-lexer reads at `n` is given as
  // the longest keyword matching there. The test's text is then plugged in for `s`.

  /** An option that differs from the source at one of its characters, or runs
      past its end, does not match. */
  lemma MismatchAt(s: string, pos: nat, o: string, i: nat)
    requires i < |o| && (pos + i >= |s| || LowerChar(o[i]) != LowerChar(s[pos + i]))
    ensures !MatchesAt(s, pos, o)
  {
    MatchesAtPointwise(s, pos, o);
  }

  /** The source spells the option at `pos`. */
  lemma SpelledAt(s: string, pos: nat, o: string)
    requires pos + |o| <= |s| && s[pos..pos + |o|] == o
    ensures MatchesAt(s, pos, o)
  {
  }

  /** A keyword that matches, with no longer one matching, is the longest match. */
  lemma LongestKeyword(s: string, n: nat, k: string)
    requires k in Keywords && MatchesAt(s, n, k)
    requires forall o :: o in Keywords && |o| > |k| ==> !MatchesAt(s, n, o)
    ensures LongestMatchOf(s, n, Keywords) == k
  {
    KeywordStepLongest(s, Cursor(n, Location(n, 0)), k);
  }

  /** With no keyword matching, the longest match is empty. */
  lemma NoKeyword(s: string, n: nat)
    requires forall o :: o in Keywords ==> !MatchesAt(s, n, o)
    ensures LongestMatchOf(s, n, Keywords) == ""
  {
    KeywordsWellFormed();
    LongestMatchOfEmpty(s, n, Keywords);
  }

  /** The tokens a run appends one at a time, as a list. */
  lemma Listed2(a: Token, b: Token)
    ensures [] + [a] + [b] == [a, b]
  {
    assert [] + [a] == [a];
  }

  /** The same for three tokens. */
  lemma Listed3(a: Token, b: Token, c: Token)
    ensures [] + [a] + [b] + [c] == [a, b, c]
  {
    Listed2(a, b);
  }

  /** The same for five tokens. */
  lemma Listed5(a: Token, b: Token, c: Token, d: Token, e: Token)
    ensures [] + [a] + [b] + [c] + [d] + [e] == [a, b, c, d, e]
  {
    Listed3(a, b, c);
    assert [a, b, c] + [d] == [a, b, c, d];
  }

  /** At the end of the source `lex` returns the tokens read. */
  lemma EndAt(s: string, n: nat, tokens: seq<Token>)
    requires |s| <= n
    ensures LexFrom(s, Cursor(n, Location(n, 0)), tokens) == TokenList(tokens)
  {
  }

  /** A space at column `n`: nothing is kept and the run goes on at `n + 1`. */
  lemma SpaceAt(s: string, n: nat, tokens: seq<Token>)
    requires n < |s| && s[n] == ' '
    ensures LexFrom(s, Cursor(n, Location(n, 0)), tokens) == LexFrom(s, Cursor(n + 1, Location(n + 1, 0)), tokens)
  {
    var c := Cursor(n, Location(n, 0));
    assert Advance(c, 1) == Cursor(n + 1, Location(n + 1, 0));
    LexSkipsSpace(s, c, tokens);
  }

  /** A symbol at column `n`: it is kept, located at `n + 2`, and the run goes on at `n + 2`. */
  lemma SymbolAt(s: string, n: nat, tokens: seq<Token>)
    requires n < |s| && IsSymbolChar(s[n])
    ensures LexFrom(s, Cursor(n, Location(n, 0)), tokens) ==
      LexFrom(s, Cursor(n + 2, Location(n + 2, 0)), tokens + [Token([s[n]], Symbol, Location(n + 2, 0))])
  {
    var c := Cursor(n, Location(n, 0));
    assert Advance(c, 2) == Cursor(n + 2, Location(n + 2, 0));
    LexSkipsAfterSymbol(s, c, tokens);
  }

  /** The longest keyword at column `n`, `k`, is kept and the run goes on after it. */
  lemma KeywordAt(s: string, n: nat, m: nat, tokens: seq<Token>, k: string)
    requires k != "" && LongestMatchOf(s, n, Keywords) == k && m == n + |k|
    ensures LexFrom(s, Cursor(n, Location(n, 0)), tokens) ==
      LexFrom(s, Cursor(m, Location(m, 0)), tokens + [Token(k, Keyword, Location(n, 0))])
  {
    LongestMatchOfBasics(s, n, Keywords);
    var c := Cursor(n, Location(n, 0));
    assert Advance(c, |k|) == Cursor(m, Location(m, 0));
    KeywordRead(s, c, tokens, k);
  }

  /** The digits from `n` to `m` are what the numeric sub-lexer reads at `n`. */
  lemma DigitsAt(s: string, n: nat, m: nat)
    requires n < m <= |s| && forall i :: n <= i < m ==> IsDigit(s[i])
    requires m == |s| || !IsDigit(s[m])
    ensures NumericStep(s, Cursor(n, Location(n, 0))) ==
      Lexed(Ok(Token(s[n..m], Numeric, Location(n, 0))), Cursor(m, Location(m, 0)))
  {
    SpanUnique(s, n, IsDigit, m - n);
  }

  /** The digits from `n` to `m` are kept as one numeric token and the run goes on at `m`. */
  lemma NumberAt(s: string, n: nat, m: nat, tokens: seq<Token>)
    requires n < m <= |s| && forall i :: n <= i < m ==> IsDigit(s[i])
    requires m == |s| || !IsDigit(s[m])
    ensures LexFrom(s, Cursor(n, Location(n, 0)), tokens) ==
      LexFrom(s, Cursor(m, Location(m, 0)), tokens + [Token(s[n..m], Numeric, Location(n, 0))])
  {
    var c := Cursor(n, Location(n, 0));
    DigitsAt(s, n, m);
    assert Attempt(s, c) == NumericStep(s, c) by {
      NoKeywordAt(s, c);
      AttemptUnfolded(s, c);
    }
    LexFromToken(s, c, tokens);
  }

  /** A closed literal in single quotes from `n` to `m` is kept whole and the run goes on at `m`. */
  lemma StringAt(s: string, n: nat, m: nat, tokens: seq<Token>)
    requires n + 2 <= m <= |s| && s[n] == '\'' && CloseScan(s, n + 1, '\'') == Some(m - 1)
    ensures LexFrom(s, Cursor(n, Location(n, 0)), tokens) ==
      LexFrom(s, Cursor(m, Location(m, 0)), tokens + [Token(s[n..m], String, Location(n, 0))])
  {
    var c := Cursor(n, Location(n, 0));
    assert DelimitedStep(s, c, '\'') == Lexed(Ok(Token(s[n..m], String, Location(n, 0))), Cursor(m, Location(m, 0)));
    StringRead(s, c, tokens);
  }

  /** A word from `n` to `m` where no keyword matches is kept as an identifier and the run goes on at `m`. */
  lemma IdentifierAt(s: string, n: nat, m: nat, tokens: seq<Token>)
    requires n < m <= |s| && IsAlpha(s[n]) && LongestMatchOf(s, n, Keywords) == ""
    requires forall i :: n < i < m ==> IsIdentChar(s[i])
    requires m == |s| || !IsIdentChar(s[m])
    ensures LexFrom(s, Cursor(n, Location(n, 0)), tokens) ==
      LexFrom(s, Cursor(m, Location(m, 0)), tokens + [Token([s[n]] + Lower(s[n + 1..m]), Identifier, Location(n, 0))])
  {
    var c := Cursor(n, Location(n, 0));
    KeywordsWellFormed();
    LongestMatchOfEmpty(s, n, Keywords);
    assert WordStep(s, c) == Lexed(Ok(Token([s[n]] + Lower(s[n + 1..m]), Identifier, Location(n, 0))), Cursor(m, Location(m, 0))) by {
      SpanUnique(s, n + 1, IsIdentChar, m - n - 1);
    }
    IdentifierRead(s, c, tokens);
  }

  // ---------------------------------------------------- "select from 'lmao'"

  /** "select" is the longest keyword at the start. */
  lemma SelectFromStringSelect()
    ensures LongestMatchOf("select from 'lmao'", 0, Keywords) == "select"
  {
    SpelledAt("select from 'lmao'", 0, "select");
    LongestKeyword("select from 'lmao'", 0, "select");
  }

  /** "from" is the longest keyword at column 7: every longer keyword differs at its first character. */
  lemma SelectFromStringFrom()
    ensures LongestMatchOf("select from 'lmao'", 7, Keywords) == "from"
  {
    SpelledAt("select from 'lmao'", 7, "from");
    forall o | o in Keywords && |o| > 4
      ensures !MatchesAt("select from 'lmao'", 7, o)
    {
      MismatchAt("select from 'lmao'", 7, o, 0);
    }
    LongestKeyword("select from 'lmao'", 7, "from");
  }

  /** The spaces and the closed literal of the first source. */
  lemma SelectFromStringFacts()
    ensures var s := "select from 'lmao'"; (
      |s| == 18 && s[6] == ' ' && s[11] == ' ' && s[12] == '\''
    && CloseScan(s, 13, '\'') == Some(17) && s[12..18] == "'lmao'")
  {
    assert CloseScan("select from 'lmao'", 13, '\'') == Some(17);
  }

  /** The space before the literal and the literal itself. */
  lemma SelectFromStringQuoted(s: string, tokens: seq<Token>)
    requires 18 <= |s| && s[11] == ' ' && s[12] == '\'' && CloseScan(s, 13, '\'') == Some(17)
    ensures LexFrom(s, Cursor(11, Location(11, 0)), tokens) ==
      LexFrom(s, Cursor(18, Location(18, 0)), tokens + [Token(s[12..18], String, Location(12, 0))])
  {
    calc {
      LexFrom(s, Cursor(11, Location(11, 0)), tokens);
      { SpaceAt(s, 11, tokens); }
      LexFrom(s, Cursor(12, Location(12, 0)), tokens);
      { StringAt(s, 12, 18, tokens); }
      LexFrom(s, Cursor(18, Location(18, 0)), tokens + [Token(s[12..18], String, Location(12, 0))]);
    }
  }

  /** Everything after "select": a space, "from", a space and the literal. */
  lemma SelectFromStringTail(s: string, tokens: seq<Token>)
    requires 18 <= |s| && s[6] == ' ' && s[11] == ' ' && s[12] == '\'' && CloseScan(s, 13, '\'') == Some(17)
    requires LongestMatchOf(s, 7, Keywords) == "from"
    ensures LexFrom(s, Cursor(6, Location(6, 0)), tokens) ==
      LexFrom(s, Cursor(18, Location(18, 0)), tokens + [Token("from", Keyword, Location(7, 0))] + [Token(s[12..18], String, Location(12, 0))])
  {
    var ts := tokens + [Token("from", Keyword, Location(7, 0))];
    calc {
      LexFrom(s, Cursor(6, Location(6, 0)), tokens);
      { SpaceAt(s, 6, tokens); }
      LexFrom(s, Cursor(7, Location(7, 0)), tokens);
      { KeywordAt(s, 7, 11, tokens, "from"); }
      LexFrom(s, Cursor(11, Location(11, 0)), ts);
      { SelectFromStringQuoted(s, ts); }
      LexFrom(s, Cursor(18, Location(18, 0)), ts + [Token(s[12..18], String, Location(12, 0))]);
    }
  }

  /** The whole run, for any source with the facts of the first test source. */
  lemma SelectFromStringRun(s: string)
    requires |s| == 18 && s[6] == ' ' && s[11] == ' ' && s[12] == '\'' && CloseScan(s, 13, '\'') == Some(17) && s[12..18] == "'lmao'"
    requires LongestMatchOf(s, 0, Keywords) == "select" && LongestMatchOf(s, 7, Keywords) == "from"
    ensures LexSpec(s) == TokenList([
      Token("select", Keyword, Location(0, 0)),
      Token("from", Keyword, Location(7, 0)),
      Token("'lmao'", String, Location(12, 0))])
  {
    var t1 := Token("select", Keyword, Location(0, 0));
    var t2 := Token("from", Keyword, Location(7, 0));
    var t3 := Token("'lmao'", String, Location(12, 0));
    Listed3(t1, t2, t3);
    calc {
      LexSpec(s);
      LexFrom(s, Cursor(0, Location(0, 0)), []);
      { KeywordAt(s, 0, 6, [], "select"); }
      LexFrom(s, Cursor(6, Location(6, 0)), [] + [t1]);
      { SelectFromStringTail(s, [] + [t1]); }
      LexFrom(s, Cursor(18, Location(18, 0)), [] + [t1] + [t2] + [t3]);
      { EndAt(s, 18, [] + [t1] + [t2] + [t3]); }
      TokenList([t1, t2, t3]);
    }
  }

  /** `test_lex`, first source: two keywords and a string, with the spaces between
      them dropped. */
  lemma LexSelectFromString()
    ensures LexSpec("select from 'lmao'") == TokenList([
      Token("select", Keyword, Location(0, 0)),
      Token("from", Keyword, Location(7, 0)),
      Token("'lmao'", String, Location(12, 0))])
  {
    SelectFromStringSelect();
    SelectFromStringFrom();
    SelectFromStringFacts();
    SelectFromStringRun("select from 'lmao'");
  }

  // ---------------------------------------------------- "123 'xx''d' values"

  /** The digits, the closed literal and the space of the second source. */
  lemma NumberStringFacts()
    ensures var s := "123 'xx''d' values"; (
      |s| == 18 && IsDigit(s[0]) && IsDigit(s[1]) && IsDigit(s[2]) && s[3] == ' ' && s[0..3] == "123"
    && s[4] == '\'' && CloseScan(s, 5, '\'') == Some(10) && s[4..11] == "'xx''d'" && s[11] == ' ')
  {
    assert CloseScan("123 'xx''d' values", 5, '\'') == Some(10);
  }

  /** "values" is the longest keyword at column 12. */
  lemma NumberStringValues()
    ensures LongestMatchOf("123 'xx''d' values", 12, Keywords) == "values"
  {
    SpelledAt("123 'xx''d' values", 12, "values");
    LongestKeyword("123 'xx''d' values", 12, "values");
  }

  /** Everything after the number and its space: the literal, a space and "values". */
  lemma NumberStringTail(s: string, tokens: seq<Token>)
    requires |s| == 18 && s[4] == '\'' && CloseScan(s, 5, '\'') == Some(10) && s[4..11] == "'xx''d'" && s[11] == ' '
    requires LongestMatchOf(s, 12, Keywords) == "values"
    ensures LexFrom(s, Cursor(4, Location(4, 0)), tokens) ==
      TokenList(tokens + [Token("'xx''d'", String, Location(4, 0))] + [Token("values", Keyword, Location(12, 0))])
  {
    var ts := tokens + [Token("'xx''d'", String, Location(4, 0))];
    calc {
      LexFrom(s, Cursor(4, Location(4, 0)), tokens);
      { StringAt(s, 4, 11, tokens); }
      LexFrom(s, Cursor(11, Location(11, 0)), ts);
      { SpaceAt(s, 11, ts); }
      LexFrom(s, Cursor(12, Location(12, 0)), ts);
      { KeywordAt(s, 12, 18, ts, "values"); }
      LexFrom(s, Cursor(18, Location(18, 0)), ts + [Token("values", Keyword, Location(12, 0))]);
      { EndAt(s, 18, ts + [Token("values", Keyword, Location(12, 0))]); }
      TokenList(ts + [Token("values", Keyword, Location(12, 0))]);
    }
  }

  /** The whole run, for any source with the facts of the second test source. */
  lemma NumberStringRun(s: string)
    requires |s| == 18 && IsDigit(s[0]) && IsDigit(s[1]) && IsDigit(s[2]) && s[3] == ' ' && s[0..3] == "123"
    requires s[4] == '\'' && CloseScan(s, 5, '\'') == Some(10) && s[4..11] == "'xx''d'" && s[11] == ' '
    requires LongestMatchOf(s, 12, Keywords) == "values"
    ensures LexSpec(s) == TokenList([
      Token("123", Numeric, Location(0, 0)),
      Token("'xx''d'", String, Location(4, 0)),
      Token("values", Keyword, Location(12, 0))])
  {
    var t1 := Token("123", Numeric, Location(0, 0));
    var t2 := Token("'xx''d'", String, Location(4, 0));
    var t3 := Token("values", Keyword, Location(12, 0));
    Listed3(t1, t2, t3);
    calc {
      LexSpec(s);
      LexFrom(s, Cursor(0, Location(0, 0)), []);
      { NumberAt(s, 0, 3, []); }
      LexFrom(s, Cursor(3, Location(3, 0)), [] + [t1]);
      { SpaceAt(s, 3, [] + [t1]); }
      LexFrom(s, Cursor(4, Location(4, 0)), [] + [t1]);
      { NumberStringTail(s, [] + [t1]); }
      TokenList([] + [t1] + [t2] + [t3]);
    }
  }

  /** `test_lex`, second source: a number, a string with a doubled quote inside,
      and a keyword. */
  lemma LexNumberString()
    ensures LexSpec("123 'xx''d' values") == TokenList([
      Token("123", Numeric, Location(0, 0)),
      Token("'xx''d'", String, Location(4, 0)),
      Token("values", Keyword, Location(12, 0))])
  {
    NumberStringFacts();
    NumberStringValues();
    NumberStringRun("123 'xx''d' values");
  }

  // ------------------------------------------- "'lmao' insert into values ram"

  /** The literal, the spaces and the final word of the third source. */
  lemma InsertIntoFacts()
    ensures var s := "'lmao' insert into values ram"; (
      |s| == 29 && s[0] == '\'' && CloseScan(s, 1, '\'') == Some(5) && s[0..6] == "'lmao'"
    && s[6] == ' ' && s[13] == ' ' && s[18] == ' ' && s[25] == ' '
    && IsAlpha(s[26]) && IsIdentChar(s[27]) && IsIdentChar(s[28]) && [s[26]] + Lower(s[27..29]) == "ram")
  {
    assert CloseScan("'lmao' insert into values ram", 1, '\'') == Some(5);
    assert Lower("am") == "am";
  }

  /** "insert" is the longest keyword at column 7. */
  lemma InsertIntoInsert()
    ensures LongestMatchOf("'lmao' insert into values ram", 7, Keywords) == "insert"
  {
    assert forall i :: 0 <= i < 6 ==> "'lmao' insert into values ram"[7 + i] == "insert"[i];
    SpelledAt("'lmao' insert into values ram", 7, "insert");
    LongestKeyword("'lmao' insert into values ram", 7, "insert");
  }

  /** At 14 "into" is the longest of the keywords that match: "int" matches too,
      and "insert" differs at its third character. */
  lemma InsertIntoInto()
    ensures LongestMatchOf("'lmao' insert into values ram", 14, Keywords) == "into"
  {
    SpelledAt("'lmao' insert into values ram", 14, "into");
    forall o | o in Keywords && |o| > 4
      ensures !MatchesAt("'lmao' insert into values ram", 14, o)
    {
      if o == "insert" {
        MismatchAt("'lmao' insert into values ram", 14, o, 2);
      } else {
        MismatchAt("'lmao' insert into values ram", 14, o, 0);
      }
    }
    LongestKeyword("'lmao' insert into values ram", 14, "into");
  }

  /** "values" is the longest keyword at column 19. */
  lemma InsertIntoValues()
    ensures LongestMatchOf("'lmao' insert into values ram", 19, Keywords) == "values"
  {
    SpelledAt("'lmao' insert into values ram", 19, "values");
    LongestKeyword("'lmao' insert into values ram", 19, "values");
  }

  /** No keyword starts with 'r'. */
  lemma InsertIntoRam()
    ensures LongestMatchOf("'lmao' insert into values ram", 26, Keywords) == ""
  {
    forall o | o in Keywords
      ensures !MatchesAt("'lmao' insert into values ram", 26, o)
    {
      MismatchAt("'lmao' insert into values ram", 26, o, 0);
    }
    NoKeyword("'lmao' insert into values ram", 26);
  }

  /** The last two words: the keyword "values", a space and the identifier "ram". */
  lemma InsertIntoValuesRam(s: string, tokens: seq<Token>)
    requires |s| == 29 && s[25] == ' '
    requires IsAlpha(s[26]) && IsIdentChar(s[27]) && IsIdentChar(s[28]) && [s[26]] + Lower(s[27..29]) == "ram"
    requires LongestMatchOf(s, 19, Keywords) == "values" && LongestMatchOf(s, 26, Keywords) == ""
    ensures LexFrom(s, Cursor(19, Location(19, 0)), tokens) ==
      TokenList(tokens + [Token("values", Keyword, Location(19, 0))] + [Token("ram", Identifier, Location(26, 0))])
  {
    var ts := tokens + [Token("values", Keyword, Location(19, 0))];
    calc {
      LexFrom(s, Cursor(19, Location(19, 0)), tokens);
      { KeywordAt(s, 19, 25, tokens, "values"); }
      LexFrom(s, Cursor(25, Location(25, 0)), ts);
      { SpaceAt(s, 25, ts); }
      LexFrom(s, Cursor(26, Location(26, 0)), ts);
      { IdentifierAt(s, 26, 29, ts); }
      LexFrom(s, Cursor(29, Location(29, 0)), ts + [Token("ram", Identifier, Location(26, 0))]);
      { EndAt(s, 29, ts + [Token("ram", Identifier, Location(26, 0))]); }
      TokenList(ts + [Token("ram", Identifier, Location(26, 0))]);
    }
  }

  /** The three keywords with their spaces, then the identifier. */
  lemma InsertIntoKeywords(s: string, tokens: seq<Token>)
    requires |s| == 29 && s[13] == ' ' && s[18] == ' ' && s[25] == ' '
    requires IsAlpha(s[26]) && IsIdentChar(s[27]) && IsIdentChar(s[28]) && [s[26]] + Lower(s[27..29]) == "ram"
    requires LongestMatchOf(s, 7, Keywords) == "insert" && LongestMatchOf(s, 14, Keywords) == "into"
    requires LongestMatchOf(s, 19, Keywords) == "values" && LongestMatchOf(s, 26, Keywords) == ""
    ensures LexFrom(s, Cursor(7, Location(7, 0)), tokens) ==
      TokenList(tokens + [Token("insert", Keyword, Location(7, 0))] + [Token("into", Keyword, Location(14, 0))]
        + [Token("values", Keyword, Location(19, 0))] + [Token("ram", Identifier, Location(26, 0))])
  {
    var ts := tokens + [Token("insert", Keyword, Location(7, 0))];
    var us := ts + [Token("into", Keyword, Location(14, 0))];
    calc {
      LexFrom(s, Cursor(7, Location(7, 0)), tokens);
      { KeywordAt(s, 7, 13, tokens, "insert"); }
      LexFrom(s, Cursor(13, Location(13, 0)), ts);
      { SpaceAt(s, 13, ts); }
      LexFrom(s, Cursor(14, Location(14, 0)), ts);
      { KeywordAt(s, 14, 18, ts, "into"); }
      LexFrom(s, Cursor(18, Location(18, 0)), us);
      { SpaceAt(s, 18, us); }
      LexFrom(s, Cursor(19, Location(19, 0)), us);
      { InsertIntoValuesRam(s, us); }
      TokenList(us + [Token("values", Keyword, Location(19, 0))] + [Token("ram", Identifier, Location(26, 0))]);
    }
  }

  /** The leading literal and the space after it. */
  lemma InsertIntoLeadingString(s: string, tokens: seq<Token>)
    requires 7 <= |s| && s[0] == '\'' && CloseScan(s, 1, '\'') == Some(5) && s[0..6] == "'lmao'" && s[6] == ' '
    ensures LexFrom(s, Cursor(0, Location(0, 0)), tokens) ==
      LexFrom(s, Cursor(7, Location(7, 0)), tokens + [Token("'lmao'", String, Location(0, 0))])
  {
    var ts := tokens + [Token("'lmao'", String, Location(0, 0))];
    calc {
      LexFrom(s, Cursor(0, Location(0, 0)), tokens);
      { StringAt(s, 0, 6, tokens); }
      LexFrom(s, Cursor(6, Location(6, 0)), ts);
      { SpaceAt(s, 6, ts); }
      LexFrom(s, Cursor(7, Location(7, 0)), ts);
    }
  }

  /** The whole run, for any source with the facts of the third test source. */
  lemma InsertIntoRun(s: string)
    requires |s| == 29 && s[0] == '\'' && CloseScan(s, 1, '\'') == Some(5) && s[0..6] == "'lmao'"
    requires s[6] == ' ' && s[13] == ' ' && s[18] == ' ' && s[25] == ' '
    requires IsAlpha(s[26]) && IsIdentChar(s[27]) && IsIdentChar(s[28]) && [s[26]] + Lower(s[27..29]) == "ram"
    requires LongestMatchOf(s, 7, Keywords) == "insert" && LongestMatchOf(s, 14, Keywords) == "into"
    requires LongestMatchOf(s, 19, Keywords) == "values" && LongestMatchOf(s, 26, Keywords) == ""
    ensures LexSpec(s) == TokenList([
      Token("'lmao'", String, Location(0, 0)),
      Token("insert", Keyword, Location(7, 0)),
      Token("into", Keyword, Location(14, 0)),
      Token("values", Keyword, Location(19, 0)),
      Token("ram", Identifier, Location(26, 0))])
  {
    var t1 := Token("'lmao'", String, Location(0, 0));
    var t2 := Token("insert", Keyword, Location(7, 0));
    var t3 := Token("into", Keyword, Location(14, 0));
    var t4 := Token("values", Keyword, Location(19, 0));
    var t5 := Token("ram", Identifier, Location(26, 0));
    Listed5(t1, t2, t3, t4, t5);
    calc {
      LexSpec(s);
      LexFrom(s, Cursor(0, Location(0, 0)), []);
      { InsertIntoLeadingString(s, []); }
      LexFrom(s, Cursor(7, Location(7, 0)), [] + [t1]);
      { InsertIntoKeywords(s, [] + [t1]); }
      TokenList([] + [t1] + [t2] + [t3] + [t4] + [t5]);
    }
  }

  /** `test_lex`, third source: a string, three keywords and an identifier; "into"
      is read whole although "int" is also a keyword. */
  lemma LexInsertInto()
    ensures LexSpec("'lmao' insert into values ram") == TokenList([
      Token("'lmao'", String, Location(0, 0)),
      Token("insert", Keyword, Location(7, 0)),
      Token("into", Keyword, Location(14, 0)),
      Token("values", Keyword, Location(19, 0)),
      Token("ram", Identifier, Location(26, 0))])
  {
    InsertIntoFacts();
    InsertIntoInsert();
    InsertIntoInto();
    InsertIntoValues();
    InsertIntoRam();
    InsertIntoRun("'lmao' insert into values ram");
  }

  // ------------------------------------------------------------------ "intake"

  /** At 0 "int" is the longest keyword that matches: "into" and "insert" differ
      at their fourth and third characters. */
  lemma IntakeInt()
    ensures LongestMatchOf("intake", 0, Keywords) == "int"
  {
    SpelledAt("intake", 0, "int");
    forall o | o in Keywords && |o| > 3
      ensures !MatchesAt("intake", 0, o)
    {
      if o == "into" {
        MismatchAt("intake", 0, o, 3);
      } else if o == "insert" {
        MismatchAt("intake", 0, o, 2);
      } else {
        MismatchAt("intake", 0, o, 0);
      }
    }
    LongestKeyword("intake", 0, "int");
  }

  /** At 3 no keyword matches: "as" differs at its second character. */
  lemma IntakeAke()
    ensures LongestMatchOf("intake", 3, Keywords) == ""
    ensures var s := "intake"; |s| == 6 && IsAlpha(s[3]) && IsIdentChar(s[4]) && IsIdentChar(s[5]) && [s[3]] + Lower(s[4..6]) == "ake"
  {
    forall o | o in Keywords
      ensures !MatchesAt("intake", 3, o)
    {
      if o == "as" {
        MismatchAt("intake", 3, o, 1);
      } else {
        MismatchAt("intake", 3, o, 0);
      }
    }
    NoKeyword("intake", 3);
    assert Lower("ke") == "ke";
  }

  /** The whole run, for any six-character source with the facts of "intake". */
  lemma IntakeRun(s: string)
    requires |s| == 6 && IsAlpha(s[3]) && IsIdentChar(s[4]) && IsIdentChar(s[5]) && [s[3]] + Lower(s[4..6]) == "ake"
    requires LongestMatchOf(s, 0, Keywords) == "int" && LongestMatchOf(s, 3, Keywords) == ""
    ensures LexSpec(s) == TokenList([Token("int", Keyword, Location(0, 0)), Token("ake", Identifier, Location(3, 0))])
  {
    var t1 := Token("int", Keyword, Location(0, 0));
    var t2 := Token("ake", Identifier, Location(3, 0));
    Listed2(t1, t2);
    calc {
      LexSpec(s);
      LexFrom(s, Cursor(0, Location(0, 0)), []);
      { KeywordAt(s, 0, 3, [], "int"); }
      LexFrom(s, Cursor(3, Location(3, 0)), [] + [t1]);
      { IdentifierAt(s, 3, 6, [] + [t1]); }
      LexFrom(s, Cursor(6, Location(6, 0)), [] + [t1] + [t2]);
      { EndAt(s, 6, [] + [t1] + [t2]); }
      TokenList([t1, t2]);
    }
  }

  /** A keyword needs no word boundary after it: "intake" is read as the keyword
      "int" followed by the identifier "ake". */
  lemma LexIntake()
    ensures LexSpec("intake") == TokenList([Token("int", Keyword, Location(0, 0)), Token("ake", Identifier, Location(3, 0))])
  {
    IntakeInt();
    IntakeAke();
    IntakeRun("intake");
  }

  // --------------------------------------------------------------------- "(1)"

  /** The whole run, for any three-character source between parentheses. */
  lemma ParenRun(s: string)
    requires |s| == 3 && s[0] == '(' && s[2] == ')'
    ensures LexSpec(s) == TokenList([Token("(", Symbol, Location(2, 0)), Token(")", Symbol, Location(4, 0))])
  {
    var t1 := Token("(", Symbol, Location(2, 0));
    var t2 := Token(")", Symbol, Location(4, 0));
    Listed2(t1, t2);
    assert [s[0]] == "(" && [s[2]] == ")";
    calc {
      LexSpec(s);
      LexFrom(s, Cursor(0, Location(0, 0)), []);
      { SymbolAt(s, 0, []); }
      LexFrom(s, Cursor(2, Location(2, 0)), [] + [t1]);
      { SymbolAt(s, 2, [] + [t1]); }
      LexFrom(s, Cursor(4, Location(4, 0)), [] + [t1] + [t2]);
      { EndAt(s, 4, [] + [t1] + [t2]); }
      TokenList([t1, t2]);
    }
  }

  /** A symbol moves the cursor two places and its token carries the column after
      that move: in "(1)" the digit is never read, and the tokens of the two
      parentheses are placed at columns 2 and 4. */
  lemma LexParenthesis()
    ensures LexSpec("(1)") == TokenList([Token("(", Symbol, Location(2, 0)), Token(")", Symbol, Location(4, 0))])
  {
    ParenRun("(1)");
  }
}
