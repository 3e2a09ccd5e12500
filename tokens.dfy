/** Tokens of the SQL lexer: locations, cursors, token kinds, the keyword and
    symbol spellings, and the ASCII character classes the sub-lexers use. */
module Tokens {

  /** Zero-based column and line of a token. */
  datatype Location = Location(col: nat, line: nat)

  /** `Location::new`. */
  const StartLocation := Location(0, 0)

  /** The scan position: an index into the source and the location it stands for. */
  datatype Cursor = Cursor(pos: nat, loc: Location)

  /** The cursor `lex` starts from. */
  const StartCursor := Cursor(0, StartLocation)

  datatype TokenKind = Keyword | Symbol | Nil | Identifier | String | Numeric

  datatype Token = Token(literal: string, kind: TokenKind, loc: Location)

  /** `Token::nil`: the sentinel "no token". The lexer never builds it; it is kept
      because the rest of the system uses it. */
  const NilToken := Token("", Nil, StartLocation)

  datatype Option<T> = None | Some(value: T)

  /** Moves a cursor `n` characters to the right on the same line. */
  function Advance(c: Cursor, n: nat): Cursor
  {
    Cursor(c.pos + n, Location(c.loc.col + n, c.loc.line))
  }

  /** Moving a cursor in two steps is moving it by the sum, and position and column
      move together. */
  lemma AdvanceTwice(c: Cursor, a: nat, b: nat)
    ensures Advance(Advance(c, a), b) == Advance(c, a + b)
    ensures Advance(c, a).pos - c.pos == Advance(c, a).loc.col - c.loc.col == a
  {
  }

  datatype SymbolName = Semicolon | Asterisk | Comma | LeftParen | RightParen
  {
    /** The `Display` text of the symbol. */
    function Spelling(): string
    {
      match this
      case Semicolon => ";"
      case Comma => ","
      case Asterisk => "*"
      case LeftParen => "("
      case RightParen => ")"
    }
  }

  datatype KeywordName = Select | From | As | Table | Create | Insert | Into | Values | Int | Text
  {
    /** The `Display` text of the keyword. */
    function Spelling(): string
    {
      match this
      case Select => "select"
      case Create => "create"
      case As => "as"
      case From => "from"
      case Int => "int"
      case Into => "into"
      case Values => "values"
      case Insert => "insert"
      case Table => "table"
      case Text => "text"
    }
  }

  /** The candidate list `lex_keyword` hands to the longest-match procedure, in its order. */
  const Keywords: seq<string> := [
    Select.Spelling(), Insert.Spelling(), Create.Spelling(), From.Spelling(), Into.Spelling(),
    Values.Spelling(), As.Spelling(), Int.Spelling(), Text.Spelling(), Table.Spelling()
  ]

  /** The candidate list `lex_symbols` hands to the longest-match procedure, in its order. */
  const Symbols: seq<string> := [
    Semicolon.Spelling(), Asterisk.Spelling(), LeftParen.Spelling(), RightParen.Spelling(), Comma.Spelling()
  ]

  /** The characters that are a whole symbol on their own. */
  predicate IsSymbolChar(c: char)
  {
    c == ';' || c == '*' || c == '(' || c == ')' || c == ','
  }

  // ASCII versions of `is_ascii_digit`, `is_alphabetic` and `is_alphanumeric`.

  predicate IsDigit(c: char) { '0' <= c <= '9' }

  predicate IsAlpha(c: char) { 'a' <= c <= 'z' || 'A' <= c <= 'Z' }

  predicate IsAlphanumeric(c: char) { IsAlpha(c) || IsDigit(c) }

  /** A character that may continue an unquoted identifier. */
  predicate IsIdentChar(c: char) { IsAlphanumeric(c) || c == '$' || c == '_' }

  /** `to_ascii_lowercase` on one character. */
  function LowerChar(c: char): char
  {
    if 'A' <= c <= 'Z' then (c as int + 32) as char else c
  }

  /** `to_ascii_lowercase` on a string. */
  function Lower(s: string): string
  {
    seq(|s|, i requires 0 <= i < |s| => LowerChar(s[i]))
  }

  /** Lower-casing leaves no upper-case letter, keeps letters letters, and changes
      nothing else. */
  lemma LowerCharIsLower(c: char)
    ensures !('A' <= LowerChar(c) <= 'Z')
    ensures IsAlpha(LowerChar(c)) <==> IsAlpha(c)
    ensures !('A' <= c <= 'Z') ==> LowerChar(c) == c
  {
  }

  /** The same for a string, character by character, with its length kept. */
  lemma LowerIsLower(s: string)
    ensures |Lower(s)| == |s|
    ensures forall i :: 0 <= i < |s| ==> !('A' <= Lower(s)[i] <= 'Z') && (IsAlpha(Lower(s)[i]) <==> IsAlpha(s[i]))
  {
    forall i | 0 <= i < |s|
      ensures !('A' <= Lower(s)[i] <= 'Z') && (IsAlpha(Lower(s)[i]) <==> IsAlpha(s[i]))
    {
      LowerCharIsLower(s[i]);
    }
  }

  lemma LowerIdempotent(s: string)
    ensures Lower(Lower(s)) == Lower(s)
  {
  }

  lemma LowerSlice(s: string, a: nat, b: nat)
    requires a <= b <= |s|
    ensures Lower(s[a..b]) == Lower(s)[a..b]
  {
  }

  /** Every keyword is a non-empty run of lower-case letters, and no two are equal. */
  lemma KeywordsWellFormed()
    ensures forall i :: 0 <= i < |Keywords| ==> |Keywords[i]| > 0 && Lower(Keywords[i]) == Keywords[i]
    ensures forall i, j :: 0 <= i < j < |Keywords| ==> Keywords[i] != Keywords[j]
    ensures forall i :: 0 <= i < |Keywords| ==> IsAlpha(Keywords[i][0])
  {
  }

  /** The symbols are exactly the one-character strings of symbol characters. */
  lemma SymbolsWellFormed()
    ensures forall i :: 0 <= i < |Symbols| ==> |Symbols[i]| == 1 && IsSymbolChar(Symbols[i][0])
    ensures forall c :: IsSymbolChar(c) ==> [c] in Symbols
  {
  }
}
