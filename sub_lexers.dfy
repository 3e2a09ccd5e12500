/** The five sub-lexers of the SQL lexer. Each one looks at the source at the
    cursor and either reads one token, advancing the cursor past it, or declines.
    Each Rust function that takes `&mut Cursor` is a method here that takes the
    cursor and returns the cursor it leaves behind. Each method is proved equal
    to a step function, and the properties are stated on that function. */
module SubLexers {
  import opened Tokens
  import opened Matching

  /** Why a sub-lexer declined (the text of its `Err`). */
  datatype Reason =
    | NotADigit            // "Not a digit"
    | EmptyString          // "Empty string"
    | InvalidStringLiteral // "Invalid string literal"
    | InvalidString        // "Invalid string"
    | NoKeywordFound       // "No keyword found"
    | NotFound             // "Not found"
    | NotAnIdentifier      // "Not an identifier"

  /** How a sub-lexer call ends: with a token, with an error (the driver then tries
      the next sub-lexer), or with a panic of the program (a slice out of range, or
      an `unwrap` of `None`). */
  datatype Outcome = Ok(token: Token) | Err(reason: Reason) | Panic

  /** An outcome and the cursor the call leaves behind. */
  datatype Lexed = Lexed(outcome: Outcome, next: Cursor)

  /** The length of the run of characters satisfying `p` that starts at `pos`. */
  function Span(source: string, pos: nat, p: char -> bool): (r: nat)
    requires pos <= |source|
    ensures pos + r <= |source|
    ensures forall i :: pos <= i < pos + r ==> p(source[i])
    ensures pos + r == |source| || !p(source[pos + r])
    decreases |source| - pos
  {
    if pos < |source| && p(source[pos]) then 1 + Span(source, pos + 1, p) else 0
  }

  /** A run that is all `p` and is not followed by `p` is the span. */
  lemma SpanUnique(source: string, pos: nat, p: char -> bool, m: nat)
    requires pos + m <= |source|
    requires forall i :: pos <= i < pos + m ==> p(source[i])
    requires pos + m == |source| || !p(source[pos + m])
    ensures Span(source, pos, p) == m
  {
  }

  // ---------------------------------------------------------------- lex_numeric

  /** `lex_numeric`: the maximal run of ASCII digits at the cursor. The cursor is
      left alone when the first character is not a digit. At the very end of the
      source the run is empty and still a token. Past the end, the slice panics. */
  function NumericStep(source: string, cur: Cursor): (r: Lexed)
    ensures r.outcome.Panic? <==> cur.pos > |source|
    ensures r.outcome.Err? <==> cur.pos < |source| && !IsDigit(source[cur.pos])
    ensures r.outcome.Err? ==> r.outcome.reason == NotADigit && r.next == cur
    ensures r.outcome.Ok? ==>
      var t := r.outcome.token;
      && t.kind == Numeric && t.loc == cur.loc
      && r.next == Advance(cur, |t.literal|)
      && r.next.pos <= |source| && t.literal == source[cur.pos..r.next.pos]
      && (forall i :: 0 <= i < |t.literal| ==> IsDigit(t.literal[i]))
      && (r.next.pos == |source| || !IsDigit(source[r.next.pos]))
  {
    if cur.pos > |source| then Lexed(Panic, cur)
    else
      var n := Span(source, cur.pos, IsDigit);
      if n == 0 && cur.pos < |source| then Lexed(Err(NotADigit), cur)
      else Lexed(Ok(Token(source[cur.pos..cur.pos + n], Numeric, cur.loc)), Advance(cur, n))
  }

  method LexNumeric(source: string, cur: Cursor) returns (res: Outcome, next: Cursor)
    ensures Lexed(res, next) == NumericStep(source, cur)
  {
    if cur.pos > |source| {
      // the loop below would not run, and the final slice starts past the end
      return Panic, cur;
    }
    next := cur;
    while next.pos < |source|
      invariant cur.pos <= next.pos <= |source|
      invariant next == Advance(cur, next.pos - cur.pos)
      invariant forall i :: cur.pos <= i < next.pos ==> IsDigit(source[i])
      decreases |source| - next.pos
    {
      var c := source[next.pos];
      if !IsDigit(c) {
        if cur.pos == next.pos {
          return Err(NotADigit), next;
        }
        break;
      }
      next := Advance(next, 1);
    }
    SpanUnique(source, cur.pos, IsDigit, next.pos - cur.pos);
    res := Ok(Token(source[cur.pos..next.pos], Numeric, cur.loc));
  }

  // --------------------------------------------------------- lex_char_delimited

  /** The body of a literal delimited by `d`: every `d` in it is doubled. */
  predicate EscapedBody(s: string, d: char)
    decreases |s|
  {
    || s == []
    || (s[0] != d && EscapedBody(s[1..], d))
    || (|s| >= 2 && s[0] == d && s[1] == d && EscapedBody(s[2..], d))
  }

  /** The position of the delimiter that closes a literal whose body starts at `i`:
      the first `d` not followed by another `d`, a doubled `d` being part of the
      body; None when the source ends first. */
  function CloseScan(source: string, i: nat, d: char): Option<nat>
    requires i <= |source|
    decreases |source| - i
  {
    if i == |source| then None
    else if source[i] == d then
      if i + 1 < |source| && source[i + 1] == d then CloseScan(source, i + 2, d) else Some(i)
    else CloseScan(source, i + 1, d)
  }

  /** The scan finds an undoubled delimiter, with a well-formed body before it, or
      finds none exactly when all the rest of the source is a body. */
  lemma {:induction false} CloseScanCorrect(source: string, i: nat, d: char)
    requires i <= |source|
    ensures var r := CloseScan(source, i, d);
      && (r.Some? ==>
            && i <= r.value < |source| && source[r.value] == d
            && (r.value + 1 == |source| || source[r.value + 1] != d)
            && EscapedBody(source[i..r.value], d))
      && (r.None? <==> EscapedBody(source[i..], d))
    decreases |source| - i
  {
    if i < |source| {
      var r := CloseScan(source, i, d);
      if source[i] == d && i + 1 < |source| && source[i + 1] == d {
        CloseScanCorrect(source, i + 2, d);
        assert source[i..][2..] == source[i + 2..];
        if r.Some? {
          assert source[i..r.value][2..] == source[i + 2..r.value];
        }
      } else if source[i] != d {
        CloseScanCorrect(source, i + 1, d);
        assert source[i..][1..] == source[i + 1..];
        if r.Some? {
          assert source[i..r.value][1..] == source[i + 1..r.value];
        }
      } else {
        assert source[i..r.value] == [];
      }
    }
  }

  /** One step of the scan for the closing delimiter. */
  lemma CloseScanUnfold(source: string, i: nat, d: char)
    requires i < |source|
    ensures CloseScan(source, i, d) ==
      if source[i] != d then CloseScan(source, i + 1, d)
      else if i + 1 < |source| && source[i + 1] == d then CloseScan(source, i + 2, d)
      else Some(i)
  {
  }

  /** `lex_char_delimited`: a literal opened and closed by `d`, whose literal text
      keeps both delimiters and every doubled `d` as written. */
  function DelimitedStep(source: string, cur: Cursor, d: char): (r: Lexed)
    ensures r.outcome.Panic? <==> cur.pos > |source|
    ensures r.outcome == Err(EmptyString) <==> cur.pos == |source|
    ensures r.outcome == Err(InvalidStringLiteral) <==> cur.pos < |source| && source[cur.pos] != d
    ensures r.outcome == Err(InvalidString) <==>
      cur.pos < |source| && source[cur.pos] == d && EscapedBody(source[cur.pos + 1..], d)
    ensures r.outcome.Err? && r.outcome.reason != InvalidString ==> r.next == cur
    ensures r.outcome == Err(InvalidString) ==> r.next == Advance(cur, |source| - cur.pos)
    ensures r.outcome.Ok? ==>
      var t := r.outcome.token;
      && t.kind == String && t.loc == cur.loc
      && r.next == Advance(cur, |t.literal|)
      && r.next.pos <= |source| && t.literal == source[cur.pos..r.next.pos]
      && |t.literal| >= 2 && t.literal[0] == d && t.literal[|t.literal| - 1] == d
      && EscapedBody(source[cur.pos + 1..r.next.pos - 1], d)
      && (r.next.pos == |source| || source[r.next.pos] != d)
  {
    if cur.pos > |source| then Lexed(Panic, cur)
    else if cur.pos == |source| then Lexed(Err(EmptyString), cur)
    else if source[cur.pos] != d then Lexed(Err(InvalidStringLiteral), cur)
    else
      CloseScanCorrect(source, cur.pos + 1, d);
      match CloseScan(source, cur.pos + 1, d)
      case None => Lexed(Err(InvalidString), Advance(cur, |source| - cur.pos))
      case Some(j) => Lexed(Ok(Token(source[cur.pos..j + 1], String, cur.loc)), Advance(cur, j + 1 - cur.pos))
  }

  method LexCharDelimited(source: string, cur: Cursor, d: char) returns (res: Outcome, next: Cursor)
    ensures Lexed(res, next) == DelimitedStep(source, cur, d)
  {
    if cur.pos > |source| {
      return Panic, cur;  // the slice `source[pos..]` starts past the end
    }
    if |source[cur.pos..]| == 0 {
      return Err(EmptyString), cur;
    }
    var c := source[cur.pos];
    if c != d {
      return Err(InvalidStringLiteral), cur;
    }
    next := Advance(cur, 1);
    ghost var close := CloseScan(source, next.pos, d);
    while next.pos < |source|
      invariant cur.pos < next.pos <= |source|
      invariant next == Advance(cur, next.pos - cur.pos)
      invariant CloseScan(source, next.pos, d) == close
      decreases |source| - next.pos
    {
      CloseScanUnfold(source, next.pos, d);
      c := source[next.pos];
      var nextPos := next.pos + 1;
      if c == d {
        if nextPos < |source| {
          var nextChar := source[nextPos];
          if nextPos >= |source| || nextChar != d {
            next := Advance(next, 1);
            return Ok(Token(source[cur.pos..next.pos], String, cur.loc)), next;
          }
          next := Advance(next, 1);
        } else {
          next := Advance(next, 1);
          return Ok(Token(source[cur.pos..next.pos], String, cur.loc)), next;
        }
      }
      next := Advance(next, 1);
    }
    res := Err(InvalidString);
  }

  /** `lex_string`: a literal in single quotes. */
  method LexString(source: string, cur: Cursor) returns (res: Outcome, next: Cursor)
    ensures Lexed(res, next) == DelimitedStep(source, cur, '\'')
  {
    res, next := LexCharDelimited(source, cur, '\'');
  }

  /** `v` written as the body of a literal delimited by `d`: each `d` doubled. */
  function Escape(v: string, d: char): (r: string)
    ensures EscapedBody(r, d)
    ensures |r| >= |v|
  {
    if v == [] then []
    else if v[0] == d then
      assert ([d, d] + Escape(v[1..], d))[2..] == Escape(v[1..], d);
      [d, d] + Escape(v[1..], d)
    else
      assert ([v[0]] + Escape(v[1..], d))[1..] == Escape(v[1..], d);
      [v[0]] + Escape(v[1..], d)
  }

  /** The scan stops exactly at the delimiter that follows an escaped body. */
  lemma {:induction false} CloseScanEscaped(source: string, i: nat, v: string, d: char)
    requires i + |Escape(v, d)| < |source|
    requires source[i..i + |Escape(v, d)|] == Escape(v, d)
    requires source[i + |Escape(v, d)|] == d
    requires i + |Escape(v, d)| + 1 == |source| || source[i + |Escape(v, d)| + 1] != d
    ensures CloseScan(source, i, d) == Some(i + |Escape(v, d)|)
    decreases |v|
  {
    var e := Escape(v, d);
    if v != [] {
      var e' := Escape(v[1..], d);
      if v[0] == d {
        assert e == [d, d] + e';
        assert source[i] == e[0] && source[i + 1] == e[1];
        assert source[i + 2..i + 2 + |e'|] == e[2..];
        CloseScanEscaped(source, i + 2, v[1..], d);
      } else {
        assert e == [v[0]] + e';
        assert source[i] == e[0];
        assert source[i + 1..i + 1 + |e'|] == e[1..];
        CloseScanEscaped(source, i + 1, v[1..], d);
      }
    }
  }

  /** Any text written as a literal with `Escape` and placed anywhere in the source
      is read back whole, delimiters included, provided the character after it is
      not the delimiter. */
  lemma StringLiteralRoundTrip(prefix: string, v: string, rest: string, d: char, loc: Location)
    requires rest == [] || rest[0] != d
    ensures var literal := [d] + Escape(v, d) + [d];
      var cur := Cursor(|prefix|, loc);
      DelimitedStep(prefix + literal + rest, cur, d) == Lexed(Ok(Token(literal, String, loc)), Advance(cur, |literal|))
  {
    var e := Escape(v, d);
    var literal := [d] + e + [d];
    var source := prefix + literal + rest;
    var i := |prefix| + 1;
    assert source[i..i + |e|] == e;
    assert source[i + |e|] == d;
    assert i + |e| + 1 < |source| ==> source[i + |e| + 1] == rest[0];
    CloseScanEscaped(source, i, v, d);
    assert source[|prefix|..i + |e| + 1] == literal;
  }

  // -------------------------------------------------------------- lex_identifier

  /** `lex_identifier`: first a literal in double quotes, which is returned as it is
      (a string token); otherwise a letter followed by letters, digits, `$` and
      `_`. The first letter is kept as written and the rest are lower-cased, and the
      token's column is the cursor's position. An unterminated double-quoted
      literal moves the cursor to the end, where the `unwrap` of the next character
      panics, as it does when the cursor starts at or past the end. */
  function IdentifierStep(source: string, cur: Cursor): (r: Lexed)
    ensures r.outcome.Panic? <==>
      cur.pos >= |source| || (source[cur.pos] == '"' && EscapedBody(source[cur.pos + 1..], '"'))
    ensures r.outcome.Err? <==> cur.pos < |source| && source[cur.pos] != '"' && !IsAlpha(source[cur.pos])
    ensures r.outcome.Err? ==> r.outcome.reason == NotAnIdentifier && r.next == cur
    ensures r.outcome.Ok? && source[cur.pos] == '"' ==> r == DelimitedStep(source, cur, '"')
    ensures r.outcome.Ok? && source[cur.pos] != '"' ==>
      var t := r.outcome.token;
      && t.kind == Identifier && t.loc == Location(cur.pos, cur.loc.line)
      && r.next == Advance(cur, |t.literal|)
      && cur.pos < r.next.pos <= |source|
      && t.literal[0] == source[cur.pos] && IsAlpha(t.literal[0])
      && t.literal[1..] == Lower(source[cur.pos + 1..r.next.pos])
      && (forall i :: cur.pos < i < r.next.pos ==> IsIdentChar(source[i]))
      && (r.next.pos == |source| || !IsIdentChar(source[r.next.pos]))
  {
    var quoted := DelimitedStep(source, cur, '"');
    if quoted.outcome.Ok? then quoted
    else if quoted.outcome.Panic? || quoted.next.pos >= |source| then Lexed(Panic, quoted.next)
    else WordStep(source, quoted.next)
  }

  /** The unquoted part of `lex_identifier`, once the character at `start` exists. */
  function WordStep(source: string, start: Cursor): Lexed
    requires start.pos < |source|
  {
    var c := source[start.pos];
    if !IsAlpha(c) then Lexed(Err(NotAnIdentifier), start)
    else
      var n := Span(source, start.pos + 1, IsIdentChar);
      var literal := [c] + Lower(source[start.pos + 1..start.pos + 1 + n]);
      Lexed(Ok(Token(literal, Identifier, Location(start.pos, start.loc.line))), Advance(start, 1 + n))
  }

  method LexIdentifier(source: string, cur: Cursor) returns (res: Outcome, next: Cursor)
    ensures Lexed(res, next) == IdentifierStep(source, cur)
  {
    var quoted;
    quoted, next := LexCharDelimited(source, cur, '"');
    if quoted.Ok? {
      return quoted, next;
    }
    if quoted.Panic? || next.pos >= |source| {
      return Panic, next;  // `unwrap` of the character at the end of the source
    }
    res, next := ReadWord(source, next);
  }

  /** The unquoted part of `lex_identifier`: a letter, kept as written, then the
      identifier characters after it, lower-cased. */
  method ReadWord(source: string, start: Cursor) returns (res: Outcome, next: Cursor)
    requires start.pos < |source|
    ensures Lexed(res, next) == WordStep(source, start)
  {
    var c := source[start.pos];
    if !IsAlpha(c) {
      return Err(NotAnIdentifier), start;
    }
    next := Advance(start, 1);
    var value := [c];
    while next.pos < |source|
      invariant start.pos < next.pos <= |source|
      invariant next == Advance(start, next.pos - start.pos)
      invariant forall i :: start.pos < i < next.pos ==> IsIdentChar(source[i])
      invariant value == [c] + Lower(source[start.pos + 1..next.pos])
      decreases |source| - next.pos
    {
      var ch := source[next.pos];
      if IsIdentChar(ch) {
        assert source[start.pos + 1..next.pos + 1] == source[start.pos + 1..next.pos] + [ch];
        value := value + [LowerChar(ch)];
        next := Advance(next, 1);
      } else {
        break;
      }
    }
    SpanUnique(source, start.pos + 1, IsIdentChar, next.pos - start.pos - 1);
    res := Ok(Token(value, Identifier, Location(start.pos, start.loc.line)));
  }

  // ----------------------------------------------------------------- lex_symbols

  /** The symbol the longest-match procedure finds at `pos` is the character there
      when that is a symbol character, and nothing otherwise. */
  lemma SymbolMatch(source: string, pos: nat)
    requires pos < |source|
    ensures LongestMatchOf(source, pos, Symbols) == if IsSymbolChar(source[pos]) then [source[pos]] else ""
  {
    SymbolsWellFormed();
    LongestMatchOfBasics(source, pos, Symbols);
    var r := LongestMatchOf(source, pos, Symbols);
    var c := source[pos];
    if r != "" {
      assert r == [c] by {
        assert |r| == 1 && IsSymbolChar(r[0]);
        assert Lower(r)[0] == Lower(source[pos..pos + 1])[0];
      }
    }
    if IsSymbolChar(c) {
      assert r != "" by {
        assert source[pos..pos + 1] == [c];
        assert [c] in Symbols && MatchesAt(source, pos, [c]);
      }
    }
  }

  /** `lex_symbols`: a space is read as a Nil token of one character; a symbol
      character is read as a symbol token, but the cursor moves past the character
      after it too, and the token's location is where the cursor ends up. A newline
      and every other character are refused. */
  function SymbolStep(source: string, cur: Cursor): (r: Lexed)
    ensures !r.outcome.Panic?
    ensures r.outcome.Err? <==>
      cur.pos >= |source| || (source[cur.pos] != ' ' && !IsSymbolChar(source[cur.pos]))
    ensures r.outcome.Err? ==> r.outcome.reason == NotFound && r.next == cur
    ensures r.outcome.Ok? && source[cur.pos] == ' ' ==>
      r == Lexed(Ok(Token(" ", Nil, Advance(cur, 1).loc)), Advance(cur, 1))
    ensures r.outcome.Ok? && source[cur.pos] != ' ' ==>
      var t := r.outcome.token;
      && t.kind == Symbol && t.literal == [source[cur.pos]]
      && r.next == Advance(cur, 2) && t.loc == r.next.loc
  {
    if cur.pos >= |source| then Lexed(Err(NotFound), cur)
    else
      var c := source[cur.pos];
      var copy := if c == '\n' then Cursor(cur.pos + 1, Location(0, cur.loc.line + 1)) else Advance(cur, 1);
      if c == ' ' then Lexed(Ok(Token([c], Nil, copy.loc)), Cursor(copy.pos, Location(copy.loc.col, cur.loc.line)))
      else
        var m := LongestMatchOf(source, cur.pos, Symbols);
        SymbolMatch(source, cur.pos);
        if m == "" then Lexed(Err(NotFound), cur)
        else
          var next := Cursor(copy.pos + |m|, Location(copy.loc.col + |m|, cur.loc.line));
          Lexed(Ok(Token(m, Symbol, next.loc)), next)
  }

  method LexSymbols(source: string, cur: Cursor) returns (res: Outcome, next: Cursor)
    ensures Lexed(res, next) == SymbolStep(source, cur)
  {
    next := cur;
    if cur.pos < |source| {
      var c := source[cur.pos];
      var copy := Advance(cur, 1);
      if c == '\n' {
        copy := copy.(loc := Location(0, copy.loc.line + 1));
      } else if c == ' ' {
        next := Cursor(copy.pos, Location(copy.loc.col, next.loc.line));
        return Ok(Token([c], Nil, copy.loc)), next;
      }
      SymbolsWellFormed();
      var symMatch := LongestMatch(source, cur, Symbols);
      if symMatch == "" {
        return Err(NotFound), next;
      }
      copy := Cursor(copy.pos + |symMatch|, Location(copy.loc.col + |symMatch|, copy.loc.line));
      next := Cursor(copy.pos, Location(copy.loc.col, next.loc.line));
      return Ok(Token(symMatch, Symbol, next.loc)), next;
    }
    res := Err(NotFound);
  }

  // ----------------------------------------------------------------- lex_keyword

  /** `lex_keyword`: the longest keyword that the source starts with at the cursor,
      ignoring case, spelled in lower case. Nothing has to follow the keyword: a
      word that merely begins with a keyword yields that keyword. */
  function KeywordStep(source: string, cur: Cursor): (r: Lexed)
    ensures !r.outcome.Panic?
    ensures r.outcome.Err? <==> forall k :: k in Keywords ==> !MatchesAt(source, cur.pos, k)
    ensures r.outcome.Err? ==> r.outcome.reason == NoKeywordFound && r.next == cur
    ensures r.outcome.Ok? ==>
      var t := r.outcome.token;
      && t.kind == Keyword && t.loc == cur.loc && t.literal in Keywords
      && MatchesAt(source, cur.pos, t.literal)
      && (forall k :: k in Keywords && MatchesAt(source, cur.pos, k) ==> |k| <= |t.literal|)
      && r.next == Advance(cur, |t.literal|)
  {
    var m := LongestMatchOf(source, cur.pos, Keywords);
    KeywordsWellFormed();
    LongestMatchOfBasics(source, cur.pos, Keywords);
    if m == "" then Lexed(Err(NoKeywordFound), cur)
    else Lexed(Ok(Token(m, Keyword, cur.loc)), Advance(cur, |m|))
  }

  /** A keyword that matches, with no longer keyword matching, is the one read,
      whatever follows it. */
  lemma KeywordStepLongest(source: string, cur: Cursor, k: string)
    requires k in Keywords && MatchesAt(source, cur.pos, k)
    requires forall o :: o in Keywords && |o| > |k| ==> !MatchesAt(source, cur.pos, o)
    ensures KeywordStep(source, cur) == Lexed(Ok(Token(k, Keyword, cur.loc)), Advance(cur, |k|))
  {
    KeywordsWellFormed();
    LongestMatchOfBasics(source, cur.pos, Keywords);
    var r := LongestMatchOf(source, cur.pos, Keywords);
    assert Lower(r) == Lower(k);
  }

  method LexKeyword(source: string, cur: Cursor) returns (res: Outcome, next: Cursor)
    ensures Lexed(res, next) == KeywordStep(source, cur)
  {
    KeywordsWellFormed();
    var keywordMatch := LongestMatch(source, cur, Keywords);
    if keywordMatch == "" {
      return Err(NoKeywordFound), cur;
    }
    res := Ok(Token(keywordMatch, Keyword, cur.loc));
    next := Advance(cur, |keywordMatch|);
  }
}
