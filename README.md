# sqldb-rs tokenizer, in Dafny

This project models the SQL tokenizer of sqldb-rs (`src/lexer.rs`) and proves
properties of the model. The tokenizer turns a source string into a list of
tokens. Each token has a literal, a kind (`Keyword`, `Symbol`, `Identifier`,
`String`, `Numeric` or `Nil`) and a location (column and line).

The driver `lex` keeps a cursor: a position in the source and the location it
stands for. At each position it tries five sub-lexers in a fixed order: keyword,
symbol/space, numeric, string and identifier. The first one that reads a token
wins, and `Nil` tokens (spaces) are dropped. When no sub-lexer reads a token, `lex`
fails with an error that names the cursor and the last token read.

The keyword and symbol sub-lexers share `longest_match`. It is a case-insensitive
longest-prefix matcher that grows the scanned text one character at a time and
eliminates candidates through a skip list. Quoted literals are read by
`lex_char_delimited`, where a doubled delimiter stands for itself (the SQL
quote-doubling convention of ISO/IEC 9075-2, subclause 5.3).

Files and modules:

- `tokens.dfy`, module `Tokens`: locations, cursors, token kinds, tokens, the keyword
  and symbol spellings in the order the sub-lexers list them, and the ASCII
  character classes.
- `longest_match.dfy`, module `Matching`:
  - `LongestMatchOf`, the declarative meaning of `longest_match`: the first of the
    longest options that match, or "";
  - the method `LongestMatch`, which follows the Rust loops (the growing `substr`,
    the `skip_list`, `str_match`) and is proved equal to `LongestMatchOf`.
- `sub_lexers.dfy`, module `SubLexers`: the five sub-lexers.
  - Each Rust function that takes `&mut Cursor` is a method that takes the cursor
    and returns the outcome and the cursor it leaves behind.
  - Each method is proved equal to a step function (`NumericStep`, `DelimitedStep`,
    `IdentifierStep`, `SymbolStep`, `KeywordStep`). Each step function's contract
    says what is read, when the sub-lexer declines, and where the cursor ends up.
- `lex.dfy`, module `Lexing`:
  - the driver, as the method `Lex` proved equal to the recursive function
    `LexSpec`;
  - lemmas about whole runs of `lex`.
- `examples.dfy`, module `LexerExamples`: the unit tests of `src/lexer.rs` as lemmas
  about the model, plus two more inputs that show quirks of the code.

How the model represents the code:

- The source is a string of characters. The character classes are the ASCII
  ones, so a non-ASCII character is neither a letter nor a digit: `é` is
  accepted by no sub-lexer here, while Rust's `is_alphabetic` accepts it.
- A sub-lexer's outcome is `Ok(token)`, `Err(reason)` or `Panic`. `Panic` stands
  for a Rust panic: a slice out of range, or an `unwrap` of `None`.
- `lex` returns `TokenList(tokens)`, `LexError(hint, pos, col)` or `LexPanic`.

The model follows the code as written, including these behaviours:

- A symbol moves the cursor two characters, so the character after it is skipped.
  The symbol token's location is where the cursor ends up.
- A newline is accepted by no sub-lexer, so `lex` stops there with an error.
  `lex_symbols` does start a new line on its copy of the cursor
  (src/lexer.rs:310-313), which shows that a newline was meant to start a new line.
  But only a matched symbol or a space writes the copy back, and the line is never
  written back at all.
- A quote that is never closed makes `lex` panic. `lex_string` on its own refuses
  an unclosed single quote, as the test at src/lexer.rs:418 expects, but it leaves
  the cursor at the end of the source. There are two cases:
  - For an unclosed `'`, it is the string sub-lexer that moves the cursor to the
    end. The identifier sub-lexer's own attempt at a `"` literal then declines
    with "Empty string", and its `unwrap` of the character at the cursor panics
    (src/lexer.rs:360).
  - For an unclosed `"`, the string sub-lexer declines with "Invalid string
    literal" and leaves the cursor alone. It is the identifier sub-lexer's own
    `lex_char_delimited(.., '"')` (src/lexer.rs:356) that moves the cursor to the
    end, and the same `unwrap` panics.
- A keyword needs no word boundary: `intake` is read as the keyword `int` followed
  by the identifier `ake`.
- An unquoted identifier keeps its first letter as written and lower-cases the
  rest. Its column is the cursor's position. A double-quoted identifier comes back
  as a token of kind `String`.

## Model

| member | source | states |
|---|---|---|
| Tokens.KeywordsWellFormed | src/lexer.rs:227-238 | every keyword that `lex_keyword` offers is non-empty, lower-case and starts with a letter, and no two are equal |
| Tokens.SymbolsWellFormed | src/lexer.rs:326-332 | the symbols `lex_symbols` offers are one character each, and every symbol character is one of them |
| Tokens.AdvanceTwice | src/lexer.rs:255-256 | moving the cursor, as each `pos += n; loc.col += n` pair does, moves position and column by the same amount on the same line, and two moves add up |
| Tokens.LowerCharIsLower | src/lexer.rs:269 | `to_ascii_lowercase` of a character leaves no upper-case letter, keeps letters letters, and leaves every other character alone |
| Tokens.LowerIsLower | src/lexer.rs:377 | lower-casing a string keeps its length, leaves no upper-case letter, and keeps letters in the same places |
| Matching.MatchesAtPointwise | src/lexer.rs:268-276 | an option matches at a position exactly when it fits in the source and agrees with it character by character, ignoring ASCII case |
| Matching.BestUpToIsFirstLongest | src/lexer.rs:276-280 | recording an exact match only when it is strictly longer than the best so far keeps a matching option that is no shorter than any other, and strictly longer than every earlier one |
| Matching.LongestMatchOfBasics | src/lexer.rs:261-301 | `longest_match` returns "" or an option that matches the source at the cursor, ignoring case, and no matching option is longer |
| Matching.LongestMatchOfIsFirst | src/lexer.rs:272-282 | among equally long matching options, the first listed is returned |
| Matching.LongestMatchOfEmpty | src/lexer.rs:261-301 | when no option is empty, the result is "" exactly when no option matches |
| Matching.ScanOption | src/lexer.rs:276-292 | an option still in the running that does not equal the scanned text is at least one character longer than the text before this character, so `option[0..idx]` is in bounds; it stays in the running exactly when it still shares the prefix |
| Matching.AllIndicesListed | src/lexer.rs:295-297 | a skip list of distinct indices as long as the option list holds every option, so the early exit happens only when every option is skipped |
| Matching.AllSkippedIsFinal | src/lexer.rs:295-297 | once every option is skipped, the best match recorded so far is the final result |
| Matching.ExhaustedIsFinal | src/lexer.rs:267 | once the source is exhausted, the best match recorded so far is the final result |
| Matching.GrowScan | src/lexer.rs:267-270 | appending the lower-cased next character keeps the scanned text equal to the lower-cased source from the cursor, and the best match of the new length is the first exact match of that length if any, else the best so far |
| Matching.SweepOptions | src/lexer.rs:272-293 | one sweep over the options skips exactly the options that can no longer match and records the first exact match of the scanned length, if it is longer than the best so far |
| Matching.LongestMatch | src/lexer.rs:261-301 | the loop returns `LongestMatchOf`: the first of the longest options matching at the cursor, or "" |
| SubLexers.Span | src/lexer.rs:144-155 | the run of characters with a property starting at a position: all of it has the property, and it stops at the end of the source or at a character without it |
| SubLexers.NumericStep | src/lexer.rs:141-164 | `lex_numeric` declines with "Not a digit" exactly when the character at the cursor is not a digit, and then leaves the cursor alone; otherwise it reads the maximal run of digits at the start location and advances by its length; past the end it panics |
| SubLexers.LexNumeric | src/lexer.rs:141-164 | the loop computes `NumericStep` |
| SubLexers.CloseScanCorrect | src/lexer.rs:186-222 | the scan for the closing delimiter finds the first delimiter not followed by another, with a well-formed body before it, and finds none exactly when the rest of the source is a well-formed body |
| SubLexers.DelimitedStep | src/lexer.rs:170-223 | `lex_char_delimited`: each error ("Empty string", "Invalid string literal", "Invalid string") happens exactly in its case, and only "Invalid string" moves the cursor, to the end; a token runs from the opening delimiter through the closing one, keeps doubled delimiters, has kind String and the start location, and is not followed by the delimiter |
| SubLexers.LexCharDelimited | src/lexer.rs:170-223 | the loop computes `DelimitedStep` |
| SubLexers.LexString | src/lexer.rs:166-168 | `lex_string` is `lex_char_delimited` with the single quote |
| SubLexers.Escape | src/lexer.rs:189-205 | writing a text with each delimiter doubled gives a well-formed literal body |
| SubLexers.CloseScanEscaped | src/lexer.rs:186-215 | the scan stops exactly at the delimiter that follows an escaped body |
| SubLexers.StringLiteralRoundTrip | src/lexer.rs:170-223 | any text written between delimiters with its delimiters doubled, anywhere in a source and not followed by the delimiter, is read back whole as a String token at the cursor |
| SubLexers.IdentifierStep | src/lexer.rs:355-397 | `lex_identifier`: a closed double-quoted literal is returned as the delimited token; it declines with "Not an identifier" exactly at a character that is neither `"` nor a letter; it panics exactly at or past the end or at an unclosed `"`; otherwise it reads a letter kept as written and the maximal run of identifier characters after it, lower-cased, with column equal to the position |
| SubLexers.LexIdentifier | src/lexer.rs:355-397 | the method computes `IdentifierStep` |
| SubLexers.ReadWord | src/lexer.rs:360-397 | the unquoted loop computes the word step: the first letter as written, then the lower-cased identifier characters |
| SubLexers.SymbolMatch | src/lexer.rs:326-338 | the longest symbol matching at a position is the character there when it is a symbol character, and "" otherwise |
| SubLexers.SymbolStep | src/lexer.rs:303-353 | `lex_symbols` never panics; a space gives a Nil token " " and moves one column; a symbol character gives a Symbol token, moves two columns and is located where the cursor ends up; every other character (newline included) and the end of the source are refused with the cursor unchanged |
| SubLexers.LexSymbols | src/lexer.rs:303-353 | the method computes `SymbolStep` |
| SubLexers.KeywordStep | src/lexer.rs:225-259 | `lex_keyword` declines with "No keyword found" exactly when no keyword matches, leaving the cursor alone; otherwise it reads a matching keyword, in lower case, no shorter than any other match, at the cursor's location, and advances by its length |
| SubLexers.KeywordStepLongest | src/lexer.rs:240-258 | a keyword that matches with no longer keyword matching is the one read, whatever follows it |
| SubLexers.LexKeyword | src/lexer.rs:225-259 | the method computes `KeywordStep` |
| Lexing.RunLexer | src/lexer.rs:106-115 | each entry of the sub-lexer list runs its sub-lexer |
| Lexing.AttemptUnfolded | src/lexer.rs:114-126 | one turn tries keyword, symbol, numeric, string and identifier in this order, each from the cursor the previous one left, and stops at the first that does not decline |
| Lexing.TryAll | src/lexer.rs:114-126 | the inner `for` loop computes one turn |
| Lexing.AttemptProgress | src/lexer.rs:114-120 | inside the source, a turn that reads a token moves the cursor forward and the token is not empty; a turn that fails leaves the cursor where it was |
| Lexing.NoKeywordAt | src/lexer.rs:240-244 | no keyword starts at a character that is not a letter |
| Lexing.AttemptOutcomes | src/lexer.rs:114-137 | inside the source, a turn fails exactly at a character no sub-lexer accepts, and panics exactly at a quote that is never closed |
| Lexing.Hint | src/lexer.rs:128-131 | the hint of the error is empty exactly when no token was read; otherwise it is " after " followed by the last token's text |
| Lexing.Lex | src/lexer.rs:98-139 | the driver loop returns what `LexSpec` says for the source |
| Lexing.LexFromToken | src/lexer.rs:115-120 | after a turn that reads a token, `lex` keeps the token unless it is Nil and goes on from where the turn left the cursor |
| Lexing.LexFromTokens | src/lexer.rs:116-119 | the tokens already read stay in front, and every token added is neither Nil nor empty |
| Lexing.LexFromError | src/lexer.rs:128-136 | `lex` reports an error only at a position inside the source whose character no sub-lexer accepts |
| Lexing.LexSpecResult | src/lexer.rs:98-139 | the tokens of a successful `lex` are never Nil and never empty, and an error names the position of a character no sub-lexer accepts |
| Lexing.SpaceSkipped | src/lexer.rs:314-322 | a space is read as a Nil token " " located one column on, and the cursor moves one character |
| Lexing.SymbolSkipsNext | src/lexer.rs:305-349 | a symbol character is read as a symbol token located two columns on, and the character after it is skipped |
| Lexing.LexSkipsSpace | src/lexer.rs:116-120 | over a whole run, a space adds nothing and `lex` goes on one character later |
| Lexing.LexSkipsAfterSymbol | src/lexer.rs:340-349 | over a whole run, a symbol is kept and `lex` goes on two characters later |
| Lexing.LexStopsAtNewline | src/lexer.rs:310-313 | a newline ends `lex` with an error at its position, with the last token's text as the hint |
| Lexing.LexPanicsOnUnclosedQuote | src/lexer.rs:356-360 | a single or double quote that is never closed makes `lex` panic |
| Lexing.KeywordRead | src/lexer.rs:225-259 | over a whole run, the longest matching keyword is kept in lower case and `lex` goes on after it |
| Lexing.NumberRead | src/lexer.rs:141-164 | over a whole run, a run of digits is kept as one numeric token and `lex` goes on after it |
| Lexing.StringRead | src/lexer.rs:166-168 | over a whole run, a closed single-quoted literal is kept whole and `lex` goes on after it |
| Lexing.IdentifierRead | src/lexer.rs:355-397 | over a whole run, a letter at which no keyword matches starts an identifier token that is kept |
| LexerExamples.LexStringAccepts | src/lexer.rs:413-415 | `'Hello'`, `'Hello ''asdf there'` and `'a '' b'` are read as strings |
| LexerExamples.LexStringRefuses | src/lexer.rs:417-421 | `a`, `'Hello`, `'`, the empty source and ` 'foo'` are refused |
| LexerExamples.LongestMatchInto | src/lexer.rs:451 | of `int`, `into`, `in` and `select`, `into` gives `into` |
| LexerExamples.LongestMatchSel | src/lexer.rs:452 | `sel` gives "" |
| LexerExamples.LongestMatchSelect | src/lexer.rs:453 | `Select` gives `select` |
| LexerExamples.LexKeywordSelect | src/lexer.rs:469-476 | `select` is read as the keyword `select` at column 0 |
| LexerExamples.LexKeywordRefuses | src/lexer.rs:465-477 | `ukasdnf` and the empty source are refused by the keyword sub-lexer |
| LexerExamples.LexIdentifierQuoted | src/lexer.rs:589-596 | `"there"` is read by the identifier sub-lexer as a String token with its quotes |
| LexerExamples.LexIdentifierWord | src/lexer.rs:597-604 | `there` is read as the identifier `there` at column 0 |
| LexerExamples.LexSelectFromString | src/lexer.rs:497-516 | `select from 'lmao'` lexes to select@0, from@7 and `'lmao'`@12 |
| LexerExamples.LexNumberString | src/lexer.rs:517-536 | `123 'xx''d' values` lexes to 123@0, `'xx''d'`@4 and values@12 |
| LexerExamples.LexInsertInto | src/lexer.rs:537-566 | `'lmao' insert into values ram` lexes to `'lmao'`@0, insert@7, into@14, values@19 and the identifier ram@26 |
| LexerExamples.LexIntake | src/lexer.rs:240-258 | `intake` lexes to the keyword `int` and the identifier `ake`, because a keyword needs no word boundary |
| LexerExamples.LexParenthesis | src/lexer.rs:340-349 | `(1)` lexes to `(`@2 and `)`@4: the `1` is skipped |

## Left out

- `src/parser.rs`, `src/ast.rs`, `src/mem_backend.rs` and `src/main.rs` are not part of this model. The parser and the storage backend are stubs, the AST is data declarations only, and `main` is a terminal read loop.
- Unicode: the character classes are the ASCII ones, so non-ASCII letters and digits are modelled as neither. `is_alphabetic` and `is_alphanumeric` are Unicode-aware in Rust. Byte offsets (`source.len()`, slicing) and character indices (`chars().nth`) agree only for ASCII.
- 32-bit arithmetic: positions and columns are unbounded naturals. The `u32` cursor fields would overflow only on sources of more than 4 GiB.
- Error text: sub-lexer errors are the variants of `Reason`. The error of `lex` is `LexError(hint, pos, col)` rather than the formatted message.
- Panics: a panic is the outcome `Panic` (or `LexPanic` for the whole run), not an abort of the process.
- Dead code: the `value` accumulator of `lex_char_delimited` is never read, and the `value.len() == 0` check of `lex_identifier` can never hold. Neither is modelled.
- Output: the `println!` calls of the tests and the commented-out one in `lex`.
- The tests: the `HashMap` harness is replaced by one lemma per case.
- The `Display` implementations of the keyword and symbol enums are the `Spelling` functions. The derived `Clone`/`PartialEq`/`Debug` implementations are structural equality of datatypes.
