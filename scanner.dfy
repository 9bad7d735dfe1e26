/**
 * The lexer (src/scanner.c): a cursor over the NUL-terminated source that
 * returns one token per call. The source is a `seq<char>`; reading at or
 * past its end yields the terminator '\0', and an embedded '\0' ends the
 * input just as the terminator does.
 */
module Lexer {
  import opened Common

  /** The token kinds, in the order of the parser's rule table (the header declaring them is not part of this model). */
  datatype TokenKind =
    | LeftParen | RightParen | LeftBrace | RightBrace | Comma | Dot | Minus | Plus
    | Semicolon | Slash | Star | Bang | BangEqual | Equal | EqualEqual
    | Greater | GreaterEqual | Less | LessEqual | Identifier | String | Number
    | And | Class | Else | False | For | Fun | If | Nil | Or | Print | Return
    | Super | This | True | Var | While | Error | EOF

  /**
   * A token: its kind, the characters it spans (for an error token, the
   * message) and the line it ends on.
   */
  datatype Token = Token(kind: TokenKind, lexeme: seq<char>, line: nat)

  /** The scanner's state: the start of the current lexeme, the cursor and the line. */
  datatype Cursor = Cursor(start: nat, current: nat, line: nat)

  // ---------------------------------------------------------------------------
  // Character classes and reads

  /** is_digit */
  predicate IsDigit(c: char) { '0' <= c <= '9' }

  /** is_alphanumeric: despite the name, a letter or '_' and not a digit. */
  predicate IsAlpha(c: char) { ('a' <= c <= 'z') || ('A' <= c <= 'Z') || c == '_' }

  /** is_identifier_char: a letter, '_', a digit or '-'. */
  predicate IsIdentChar(c: char) { IsAlpha(c) || IsDigit(c) || c == '-' }

  /** peek: the character at `i`, or the terminator past the end. */
  function PeekAt(src: seq<char>, i: nat): char {
    if i < |src| then src[i] else '\0'
  }

  /** at_eof: the character at `i` is '\0'. */
  predicate AtEofAt(src: seq<char>, i: nat) {
    PeekAt(src, i) == '\0'
  }

  /** peek_next: '\0' at the end, else the character after the cursor. */
  function PeekNextAt(src: seq<char>, i: nat): char {
    if AtEofAt(src, i) then '\0' else PeekAt(src, i + 1)
  }

  // ---------------------------------------------------------------------------
  // Where each kind of lexeme ends

  /** The comment loop: the first position from `i` holding '\n' or the end of input. */
  function CommentEnd(src: seq<char>, i: nat): (r: nat)
    requires i <= |src|
    ensures i <= r <= |src|
    decreases |src| - i
  {
    if PeekAt(src, i) != '\n' && !AtEofAt(src, i) then CommentEnd(src, i + 1) else i
  }

  /**
   * consume_whitespace: skip blanks, counting newlines. A `//` comment is
   * skipped up to its newline and then skipping stops, leaving the cursor
   * on that newline.
   */
  function SkipWs(src: seq<char>, i: nat, line: nat): (r: (nat, nat))
    requires i <= |src|
    ensures i <= r.0 <= |src| && r.1 >= line
    decreases |src| - i
  {
    var c := PeekAt(src, i);
    if c == '\n' then SkipWs(src, i + 1, line + 1)
    else if c == ' ' || c == '\r' || c == '\t' then SkipWs(src, i + 1, line)
    else if c == '/' && PeekNextAt(src, i) == '/' then (CommentEnd(src, i), line)
    else (i, line)
  }

  /** The string loop: up to the closing quote or the end, counting newlines. */
  function StringEnd(src: seq<char>, i: nat, line: nat): (r: (nat, nat))
    requires i <= |src|
    ensures i <= r.0 <= |src| && r.1 >= line
    decreases |src| - i
  {
    if PeekAt(src, i) != '"' && !AtEofAt(src, i) then
      StringEnd(src, i + 1, if PeekAt(src, i) == '\n' then line + 1 else line)
    else (i, line)
  }

  /** A digit loop: the first position from `i` that is not a digit. */
  function DigitsEnd(src: seq<char>, i: nat): (r: nat)
    requires i <= |src|
    ensures i <= r <= |src|
    decreases |src| - i
  {
    if IsDigit(PeekAt(src, i)) then DigitsEnd(src, i + 1) else i
  }

  /** consume_number: digits, then a '.' and more digits only when a digit follows the '.'. */
  function NumberEnd(src: seq<char>, i: nat): (r: nat)
    requires i <= |src|
    ensures i <= r <= |src|
  {
    var j := DigitsEnd(src, i);
    if PeekAt(src, j) == '.' && IsDigit(PeekNextAt(src, j)) then DigitsEnd(src, j + 1) else j
  }

  /** The identifier loop: the first position from `i` that is not an identifier character. */
  function IdentEnd(src: seq<char>, i: nat): (r: nat)
    requires i <= |src|
    ensures i <= r <= |src|
    decreases |src| - i
  {
    if IsIdentChar(PeekAt(src, i)) then IdentEnd(src, i + 1) else i
  }

  // ---------------------------------------------------------------------------
  // Keywords

  /**
   * check_keyword: `kind` when the lexeme is exactly `start + length` long
   * and its bytes from `start` equal the first `length` bytes of `rest`;
   * otherwise an identifier.
   */
  function CheckKeyword(lexeme: seq<char>, start: nat, length: nat, rest: seq<char>, kind: TokenKind): TokenKind
    requires length <= |rest|
  {
    if |lexeme| == start + length && lexeme[start..] == rest[..length] then kind else Identifier
  }

  /**
   * identifier_type: a switch on the first byte (and for `f` and `t` the
   * second) selecting a keyword check. An initial outside the switch, or an
   * `f`/`t` lexeme whose second byte has no case, gives an error token. The
   * `i` case compares one byte against "if", so `ii` is the keyword.
   */
  function IdentifierType(lexeme: seq<char>): TokenKind
    requires |lexeme| >= 1
  {
    var c := lexeme[0];
    if c == 'a' then CheckKeyword(lexeme, 1, 2, "nd", And)
    else if c == 'c' then CheckKeyword(lexeme, 1, 4, "lass", Class)
    else if c == 'e' then CheckKeyword(lexeme, 1, 3, "lse", Else)
    else if c == 'f' && |lexeme| > 1 && lexeme[1] == 'a' then CheckKeyword(lexeme, 2, 3, "lse", False)
    else if c == 'f' && |lexeme| > 1 && lexeme[1] == 'o' then CheckKeyword(lexeme, 2, 1, "r", For)
    else if c == 'f' && |lexeme| > 1 && lexeme[1] == 'u' then CheckKeyword(lexeme, 2, 1, "n", Fun)
    else if c == 'i' then CheckKeyword(lexeme, 1, 1, "if", If)
    else if c == 'n' then CheckKeyword(lexeme, 1, 2, "il", Nil)
    else if c == 'o' then CheckKeyword(lexeme, 1, 1, "r", Or)
    else if c == 'p' then CheckKeyword(lexeme, 1, 4, "rint", Print)
    else if c == 'r' then CheckKeyword(lexeme, 1, 5, "eturn", Return)
    else if c == 's' then CheckKeyword(lexeme, 1, 4, "uper", Super)
    else if c == 't' && |lexeme| > 1 && lexeme[1] == 'h' then CheckKeyword(lexeme, 2, 2, "is", This)
    else if c == 't' && |lexeme| > 1 && lexeme[1] == 'r' then CheckKeyword(lexeme, 2, 2, "ue", True)
    else if c == 'v' then CheckKeyword(lexeme, 1, 2, "ar", Var)
    else if c == 'w' then CheckKeyword(lexeme, 1, 4, "hile", While)
    else Error
  }

  /** `kind` when the lexeme is exactly `word`, an identifier otherwise. */
  function Word(s: seq<char>, word: seq<char>, kind: TokenKind): TokenKind {
    if s == word then kind else Identifier
  }

  /**
   * The keyword table stated as whole words: a lexeme is a keyword exactly
   * when it is the keyword's spelling (with `ii` in place of `if`); an
   * initial that has no case, or an `f`/`t` lexeme whose second byte has no
   * case, is an error; anything else is an identifier.
   */
  function KeywordTable(s: seq<char>): TokenKind
    requires |s| >= 1
  {
    var c := s[0];
    if c == 'a' then Word(s, "and", And)
    else if c == 'c' then Word(s, "class", Class)
    else if c == 'e' then Word(s, "else", Else)
    else if c == 'f' then
      if |s| > 1 && s[1] in "aou" then
        (if s == "false" then False else if s == "for" then For else Word(s, "fun", Fun))
      else Error
    else if c == 'i' then Word(s, "ii", If)
    else if c == 'n' then Word(s, "nil", Nil)
    else if c == 'o' then Word(s, "or", Or)
    else if c == 'p' then Word(s, "print", Print)
    else if c == 'r' then Word(s, "return", Return)
    else if c == 's' then Word(s, "super", Super)
    else if c == 't' then
      if |s| > 1 && s[1] in "hr" then
        (if s == "this" then This else Word(s, "true", True))
      else Error
    else if c == 'v' then Word(s, "var", Var)
    else if c == 'w' then Word(s, "while", While)
    else Error
  }

  /** A lexeme that agrees with `word` on its first `start` bytes is `word` exactly when the rest matches. */
  lemma SpelledAs(s: seq<char>, start: nat, rest: seq<char>, word: seq<char>)
    requires start <= |s| && |word| == start + |rest| && s[..start] == word[..start] && word[start..] == rest
    ensures s == word <==> |s| == start + |rest| && s[start..] == rest
  {
    if |s| == start + |rest| && s[start..] == rest {
      assert s == s[..start] + s[start..];
      assert word == word[..start] + word[start..];
    }
  }

  lemma KeywordTableACEI(s: seq<char>)
    requires |s| >= 1 && s[0] in "acei"
    ensures IdentifierType(s) == KeywordTable(s)
  {
    var c := s[0];
    assert s[..1] == [c];
    if c == 'a' { SpelledAs(s, 1, "nd", "and"); }
    else if c == 'c' { SpelledAs(s, 1, "lass", "class"); }
    else if c == 'e' { SpelledAs(s, 1, "lse", "else"); }
    else { SpelledAs(s, 1, "i", "ii"); }
  }

  lemma KeywordTableNOP(s: seq<char>)
    requires |s| >= 1 && s[0] in "nop"
    ensures IdentifierType(s) == KeywordTable(s)
  {
    var c := s[0];
    assert s[..1] == [c];
    if c == 'n' { SpelledAs(s, 1, "il", "nil"); }
    else if c == 'o' { SpelledAs(s, 1, "r", "or"); }
    else { SpelledAs(s, 1, "rint", "print"); }
  }

  lemma KeywordTableRSVW(s: seq<char>)
    requires |s| >= 1 && s[0] in "rsvw"
    ensures IdentifierType(s) == KeywordTable(s)
  {
    var c := s[0];
    assert s[..1] == [c];
    if c == 'r' { SpelledAs(s, 1, "eturn", "return"); }
    else if c == 's' { SpelledAs(s, 1, "uper", "super"); }
    else if c == 'v' { SpelledAs(s, 1, "ar", "var"); }
    else { SpelledAs(s, 1, "hile", "while"); }
  }

  lemma KeywordTableTwoBytes(s: seq<char>)
    requires |s| >= 1 && (s[0] == 'f' || s[0] == 't')
    ensures IdentifierType(s) == KeywordTable(s)
  {
    if |s| > 1 {
      var c, d := s[0], s[1];
      assert s[..2] == [c, d];
      if c == 'f' && d == 'a' { SpelledAs(s, 2, "lse", "false"); }
      else if c == 'f' && d == 'o' { SpelledAs(s, 2, "r", "for"); }
      else if c == 'f' && d == 'u' { SpelledAs(s, 2, "n", "fun"); }
      else if c == 't' && d == 'h' { SpelledAs(s, 2, "is", "this"); }
      else if c == 't' && d == 'r' { SpelledAs(s, 2, "ue", "true"); }
    }
  }

  /** identifier_type agrees with the whole-word keyword table on every lexeme. */
  lemma IdentifierTypeIsKeywordTable(s: seq<char>)
    requires |s| >= 1
    ensures IdentifierType(s) == KeywordTable(s)
  {
    if s[0] in "acei" {
      KeywordTableACEI(s);
    } else if s[0] in "nop" {
      KeywordTableNOP(s);
    } else if s[0] in "rsvw" {
      KeywordTableRSVW(s);
    } else if s[0] == 'f' || s[0] == 't' {
      KeywordTableTwoBytes(s);
    }
  }

  /** The `i` case compares only the byte after `i` with 'i': "ii" is the keyword, "if" is not. */
  lemma IfKeywordQuirk()
    ensures IdentifierType("ii") == If && IdentifierType("if") == Identifier
    ensures forall s :: |s| >= 1 && IdentifierType(s) == If ==> s == "ii"
  {
    assert IdentifierType("ii") == If;
    assert IdentifierType("if") == Identifier by {
      assert "if"[1..] != "if"[..1];
    }
    forall s | |s| >= 1 && IdentifierType(s) == If
      ensures s == "ii"
    {
      IdentifierTypeIsKeywordTable(s);
    }
  }

  // ---------------------------------------------------------------------------
  // One call of scan_token

  /** match_and_consume at `j`: the next character is `expected`. */
  predicate MatchAt(src: seq<char>, j: nat, expected: char) {
    !AtEofAt(src, j) && PeekAt(src, j) == expected
  }

  /** The one-character tokens of the switch in scan_token. */
  function SingleCharKind(c: char): Option<TokenKind> {
    if c == '(' then Some(LeftParen) else if c == ')' then Some(RightParen)
    else if c == '{' then Some(LeftBrace) else if c == '}' then Some(RightBrace)
    else if c == ';' then Some(Semicolon) else if c == ',' then Some(Comma)
    else if c == '.' then Some(Dot) else if c == '-' then Some(Minus)
    else if c == '+' then Some(Plus) else if c == '/' then Some(Slash)
    else if c == '*' then Some(Star) else None
  }

  /** The characters that form a two-character token with a following '='. */
  function PairKind(c: char, withEqual: bool): Option<TokenKind> {
    if c == '!' then Some(if withEqual then BangEqual else Bang)
    else if c == '=' then Some(if withEqual then EqualEqual else Equal)
    else if c == '<' then Some(if withEqual then LessEqual else Less)
    else if c == '>' then Some(if withEqual then GreaterEqual else Greater)
    else None
  }

  const UnterminatedString: seq<char> := "Unterminated string.\n"
  const UnexpectedCharacter: seq<char> := "Unexpected character.\n"

  /** make_token: the lexeme from `start` to `current`, on the current line. */
  function MakeToken(src: seq<char>, kind: TokenKind, c: Cursor): Token
    requires c.start <= c.current <= |src|
  {
    Token(kind, src[c.start..c.current], c.line)
  }

  /**
   * The token starting at `i` (whitespace already skipped, `i` becoming the
   * lexeme start) and the cursor after it.
   */
  function ScanAt(src: seq<char>, i: nat, line: nat): (r: (Token, Cursor))
    requires i <= |src|
    ensures r.1.start == i && i <= r.1.current <= |src| && r.1.line >= line
  {
    if AtEofAt(src, i) then
      (MakeToken(src, EOF, Cursor(i, i, line)), Cursor(i, i, line))
    else
      var ch := src[i];
      var j := i + 1;
      if IsAlpha(ch) then
        var k := IdentEnd(src, j);
        (MakeToken(src, IdentifierType(src[i..k]), Cursor(i, k, line)), Cursor(i, k, line))
      else if IsDigit(ch) then
        var k := NumberEnd(src, j);
        (MakeToken(src, Number, Cursor(i, k, line)), Cursor(i, k, line))
      else if SingleCharKind(ch).Some? then
        (MakeToken(src, SingleCharKind(ch).value, Cursor(i, j, line)), Cursor(i, j, line))
      else if PairKind(ch, false).Some? then
        var m := MatchAt(src, j, '=');
        var k := if m then j + 1 else j;
        (MakeToken(src, PairKind(ch, m).value, Cursor(i, k, line)), Cursor(i, k, line))
      else if ch == '"' then
        var (k, line') := StringEnd(src, j, line);
        if AtEofAt(src, k) then
          (Token(Error, UnterminatedString, line'), Cursor(i, k, line'))
        else
          (MakeToken(src, String, Cursor(i, k + 1, line')), Cursor(i, k + 1, line'))
      else
        (Token(Error, UnexpectedCharacter, line), Cursor(i, j, line))
  }

  /** scan_token: skip whitespace, then the token at the cursor and the cursor after it. */
  function Scan(src: seq<char>, c: Cursor): (r: (Token, Cursor))
    requires c.current <= |src|
    ensures c.current <= r.1.start <= r.1.current <= |src| && r.1.line >= c.line
  {
    var w := SkipWs(src, c.current, c.line);
    ScanAt(src, w.0, w.1)
  }

  // ---------------------------------------------------------------------------
  // Properties of Scan

  lemma SkipWsAtEof(src: seq<char>, i: nat, line: nat)
    requires i <= |src| && AtEofAt(src, i)
    ensures SkipWs(src, i, line) == (i, line)
  {
  }

  /** At the end of input the scanner returns EOF, and keeps returning it without moving. */
  lemma EofIsSticky(src: seq<char>, c: Cursor)
    requires c.current <= |src|
    ensures var r := Scan(src, c);
      r.0.kind == EOF ==> Scan(src, r.1) == (Token(EOF, [], r.1.line), r.1)
  {
    var r := Scan(src, c);
    if r.0.kind == EOF {
      SkipWsAtEof(src, r.1.current, r.1.line);
    }
  }

  /** Every token but EOF consumes at least one character; EOF consumes none. */
  lemma ScanProgress(src: seq<char>, i: nat, line: nat)
    requires i <= |src|
    ensures var r := ScanAt(src, i, line);
      r.0.kind != EOF <==> r.1.current > i
  {
  }

  /**
   * `!`, `=`, `<` and `>` take a following '=' into a two-character token
   * and otherwise stand alone.
   */
  lemma PairTokens(src: seq<char>, i: nat, line: nat)
    requires i < |src| && PairKind(src[i], false).Some?
    ensures var r := ScanAt(src, i, line);
      var m := i + 1 < |src| && src[i + 1] == '=';
      r.0.kind == PairKind(src[i], m).value && r.1.current == (if m then i + 2 else i + 1) &&
      (m <==> r.0.kind in {BangEqual, EqualEqual, LessEqual, GreaterEqual})
  {
    var ch := src[i];
    assert !IsAlpha(ch) && !IsDigit(ch) && SingleCharKind(ch).None?;
  }

  lemma {:induction false} DigitsEndShape(src: seq<char>, i: nat)
    requires i <= |src|
    ensures var k := DigitsEnd(src, i);
      (forall p :: i <= p < k ==> IsDigit(src[p])) && !IsDigit(PeekAt(src, k))
    decreases |src| - i
  {
    if IsDigit(PeekAt(src, i)) {
      DigitsEndShape(src, i + 1);
    }
  }

  /**
   * A number lexeme is a run of digits, then optionally a '.' and a further
   * run of digits that must be non-empty; it ends before the first
   * character that does not continue it, so a trailing '.' is left over.
   */
  lemma NumberShape(src: seq<char>, i: nat, line: nat)
    requires i < |src| && IsDigit(src[i])
    ensures var r := ScanAt(src, i, line);
      var k := r.1.current;
      var d := DigitsEnd(src, i + 1);
      r.0 == Token(Number, src[i..k], line) &&
      (forall p :: i <= p < d ==> IsDigit(src[p])) &&
      (k == d <==> !(PeekAt(src, d) == '.' && IsDigit(PeekNextAt(src, d)))) &&
      (k != d ==> src[d] == '.' && d + 1 < k && forall p :: d < p < k ==> IsDigit(src[p])) &&
      !IsDigit(PeekAt(src, k))
  {
    assert !IsAlpha(src[i]);
    var d := DigitsEnd(src, i + 1);
    DigitsEndShape(src, i + 1);
    if PeekAt(src, d) == '.' && IsDigit(PeekNextAt(src, d)) {
      DigitsEndShape(src, d + 1);
      assert IsDigit(PeekAt(src, d + 1));
    }
  }

  /** The number of newlines in `s`. */
  function Newlines(s: seq<char>): nat {
    if s == [] then 0 else Newlines(s[..|s| - 1]) + (if s[|s| - 1] == '\n' then 1 else 0)
  }

  lemma {:induction false} NewlinesCons(s: seq<char>)
    requires s != []
    ensures Newlines(s) == (if s[0] == '\n' then 1 else 0) + Newlines(s[1..])
    decreases |s|
  {
    if |s| > 1 {
      var init := s[..|s| - 1];
      NewlinesCons(init);
      assert init[1..] == s[1..][..|s[1..]| - 1];
    } else {
      assert s[..|s| - 1] == [] && s[1..] == [];
    }
  }

  lemma {:induction false} StringEndShape(src: seq<char>, i: nat, line: nat)
    requires i <= |src|
    ensures var (k, line') := StringEnd(src, i, line);
      (forall p :: i <= p < k ==> src[p] != '"' && src[p] != '\0') &&
      (PeekAt(src, k) == '"' || AtEofAt(src, k)) &&
      line' == line + Newlines(src[i..k])
    decreases |src| - i
  {
    if PeekAt(src, i) != '"' && !AtEofAt(src, i) {
      var line1 := if PeekAt(src, i) == '\n' then line + 1 else line;
      StringEndShape(src, i + 1, line1);
      var k := StringEnd(src, i, line).0;
      NewlinesCons(src[i..k]);
      assert src[i..k][1..] == src[i + 1..k];
    }
  }

  /**
   * A string token runs from the opening to the closing quote inclusive,
   * with no quote between, and ends on the line reached by counting the
   * newlines inside it. Without a closing quote the result is the error
   * token "Unterminated string.".
   */
  lemma StringToken(src: seq<char>, i: nat, line: nat)
    requires i < |src| && src[i] == '"'
    ensures var r := ScanAt(src, i, line);
      var k := StringEnd(src, i + 1, line).0;
      (r.0.kind == String || r.0.kind == Error) &&
      (r.0.kind == String ==>
        r.0.lexeme == src[i..k + 1] && src[k] == '"' && r.1.current == k + 1 &&
        (forall p :: i < p < k ==> src[p] != '"') &&
        r.0.line == line + Newlines(src[i + 1..k])) &&
      (r.0.kind == Error ==> r.0.lexeme == UnterminatedString && AtEofAt(src, k))
  {
    assert !IsAlpha(src[i]) && !IsDigit(src[i]) && SingleCharKind(src[i]).None? && PairKind(src[i], false).None?;
    StringEndShape(src, i + 1, line);
  }

  lemma {:induction false} IdentEndShape(src: seq<char>, i: nat)
    requires i <= |src|
    ensures var k := IdentEnd(src, i);
      (forall p :: i <= p < k ==> IsIdentChar(src[p])) && !IsIdentChar(PeekAt(src, k))
    decreases |src| - i
  {
    if IsIdentChar(PeekAt(src, i)) {
      IdentEndShape(src, i + 1);
    }
  }

  /**
   * A word starts with a letter or '_', runs over letters, digits, '_' and
   * '-' as far as they go, and gets its kind from the keyword table.
   */
  lemma IdentifierToken(src: seq<char>, i: nat, line: nat)
    requires i < |src| && IsAlpha(src[i])
    ensures var r := ScanAt(src, i, line);
      var k := r.1.current;
      i < k && r.0 == Token(KeywordTable(src[i..k]), src[i..k], line) &&
      (forall p :: i <= p < k ==> IsIdentChar(src[p])) && !IsIdentChar(PeekAt(src, k))
  {
    var k := IdentEnd(src, i + 1);
    IdentEndShape(src, i + 1);
    IdentifierTypeIsKeywordTable(src[i..k]);
  }

  /**
   * Whitespace skipping that meets a `//` comment stops at the newline
   * ending it (or at the end of input). The same scan_token call then
   * consumes that newline as an unexpected character.
   */
  lemma CommentStopsAtNewline(src: seq<char>, i: nat, line: nat)
    requires i + 1 < |src| && src[i] == '/' && src[i + 1] == '/'
    ensures var (k, line') := SkipWs(src, i, line);
      line' == line && (PeekAt(src, k) == '\n' || AtEofAt(src, k))
    ensures var (k, line') := SkipWs(src, i, line);
      PeekAt(src, k) == '\n' ==>
        Scan(src, Cursor(i, i, line)) == (Token(Error, UnexpectedCharacter, line), Cursor(k, k + 1, line))
  {
    CommentEndShape(src, i);
  }

  lemma {:induction false} CommentEndShape(src: seq<char>, i: nat)
    requires i <= |src|
    ensures var k := CommentEnd(src, i);
      PeekAt(src, k) == '\n' || AtEofAt(src, k)
    decreases |src| - i
  {
    if PeekAt(src, i) != '\n' && !AtEofAt(src, i) {
      CommentEndShape(src, i + 1);
    }
  }

  /** A character that starts no token yields the error token "Unexpected character." and is consumed. */
  lemma UnexpectedToken(src: seq<char>, i: nat, line: nat)
    requires i < |src| && src[i] != '\0' && !IsAlpha(src[i]) && !IsDigit(src[i]) &&
      SingleCharKind(src[i]).None? && PairKind(src[i], false).None? && src[i] != '"'
    ensures ScanAt(src, i, line) == (Token(Error, UnexpectedCharacter, line), Cursor(i, i + 1, line))
  {
  }

  /** Every token other than an error spans exactly `start..current` of the source, on the current line. */
  lemma TokensSpanTheirLexeme(src: seq<char>, i: nat, line: nat)
    requires i <= |src|
    ensures var r := ScanAt(src, i, line);
      r.0.kind != Error ==> r.0.lexeme == src[i..r.1.current] && r.0.line == r.1.line
  {
  }

  /** What the parser relies on: only EOF leaves the cursor in place, and a string token holds both quotes. */
  lemma ScanFacts(src: seq<char>, c: Cursor)
    requires c.current <= |src|
    ensures var r := Scan(src, c);
      (r.0.kind != EOF ==> r.1.current > c.current) && (r.0.kind == String ==> |r.0.lexeme| >= 2) &&
      (r.0.kind == EOF ==> AtEofAt(src, r.1.current))
  {
    var w := SkipWs(src, c.current, c.line);
    ScanProgress(src, w.0, w.1);
    if w.0 < |src| && src[w.0] == '"' {
      StringToken(src, w.0, w.1);
    }
  }

  /**
   * scan_token as the token lists below use it. `depth` only delays the
   * verifier: it opens `Scan` where a proof asks (`ScannedIsScan`) and
   * otherwise keeps to the cursor facts stated here.
   */
  function Scanned(src: seq<char>, c: Cursor, depth: nat): (r: (Token, Cursor))
    requires c.current <= |src|
    ensures c.current <= r.1.current <= |src|
    ensures r.0.kind != EOF ==> r.1.current > c.current
    decreases depth
  {
    if depth == 0 then ScanFacts(src, c); Scan(src, c) else Scanned(src, c, depth - 1)
  }

  lemma ScannedIsScan(src: seq<char>, c: Cursor)
    requires c.current <= |src|
    ensures Scanned(src, c, 1) == Scan(src, c)
  {
    assert Scanned(src, c, 1) == Scanned(src, c, 0);
  }

  /** `toks` are the tokens successive calls of scan_token return from `c0`, ending at `c1`. */
  ghost predicate Scans(src: seq<char>, c0: Cursor, toks: seq<Token>, c1: Cursor)
    decreases |toks|
  {
    if toks == [] then c0 == c1
    else c0.current <= |src| && Scanned(src, c0, 1).0 == toks[0] && Scans(src, Scanned(src, c0, 1).1, toks[1..], c1)
  }

  /** One more call of scan_token extends the chain by its token. */
  lemma {:induction false} ScansSnoc(src: seq<char>, c0: Cursor, toks: seq<Token>, c1: Cursor)
    requires Scans(src, c0, toks, c1) && c1.current <= |src|
    ensures Scans(src, c0, toks + [Scanned(src, c1, 1).0], Scanned(src, c1, 1).1)
    decreases |toks|
  {
    if toks != [] {
      ScansSnoc(src, Scanned(src, c0, 1).1, toks[1..], c1);
      assert (toks + [Scanned(src, c1, 1).0])[1..] == toks[1..] + [Scanned(src, c1, 1).0];
    }
  }

  /** With the cursor on the terminator, scan_token returns EOF and stays where it is. */
  lemma ScanAtEof(src: seq<char>, c: Cursor)
    requires c.current <= |src| && AtEofAt(src, c.current)
    ensures Scanned(src, c, 1) == (Token(EOF, [], c.line), Cursor(c.current, c.current, c.line))
  {
    ScannedIsScan(src, c);
    SkipWsAtEof(src, c.current, c.line);
    assert src[c.current..c.current] == [];
  }

  /**
   * The tokens successive calls of scan_token return from `c`, up to and
   * including the first EOF.
   */
  function Tokens(src: seq<char>, c: Cursor): (r: seq<Token>)
    requires c.current <= |src|
    ensures r != []
    decreases |src| - c.current
  {
    var r := Scanned(src, c, 1);
    if r.0.kind == EOF then [r.0] else [r.0] + Tokens(src, r.1)
  }

  /**
   * When the calls from `c0` to `c1` return only error tokens, the token list
   * from `c0` is those tokens followed by the list from `c1`.
   */
  lemma {:induction false} TokensSkip(src: seq<char>, c0: Cursor, skipped: seq<Token>, c1: Cursor)
    requires c0.current <= |src| && Scans(src, c0, skipped, c1)
    requires forall s :: s in skipped ==> s.kind == Error
    ensures c1.current <= |src|
    ensures Tokens(src, c0) == skipped + Tokens(src, c1)
    decreases |skipped|
  {
    if skipped != [] {
      var r := Scanned(src, c0, 1);
      TokensSkip(src, r.1, skipped[1..], c1);
      Associative([r.0], skipped[1..], Tokens(src, c1));
      assert skipped == [r.0] + skipped[1..];
    }
  }

  // ---------------------------------------------------------------------------
  // The scanner object

  /** The global Scanner: the source, the lexeme start, the cursor and the line. */
  class Scanner {
    const src: seq<char>
    var start: nat
    var current: nat
    var line: nat

    ghost predicate Valid()
      reads this
    {
      start <= current <= |src|
    }

    function State(): Cursor
      reads this
    {
      Cursor(start, current, line)
    }

    /** init_scanner: lexeme start and cursor at the beginning, on line 1. */
    constructor (source: seq<char>)
      ensures Valid() && src == source && State() == Cursor(0, 0, 1)
    {
      src := source;
      start := 0;
      current := 0;
      line := 1;
    }

    function Peek(): char
      reads this
    {
      PeekAt(src, current)
    }

    predicate AtEof()
      reads this
    {
      AtEofAt(src, current)
    }

    function PeekNext(): char
      reads this
    {
      PeekNextAt(src, current)
    }

    /** consume: return the character under the cursor and step past it. */
    method Consume() returns (c: char)
      requires Valid() && !AtEof()
      modifies this
      ensures Valid() && c == src[old(current)]
      ensures State() == old(State()).(current := old(current) + 1)
    {
      current := current + 1;
      c := src[current - 1];
    }

    /** match_and_consume: step past the next character only when it is `expected`. */
    method MatchAndConsume(expected: char) returns (matched: bool)
      requires Valid()
      modifies this
      ensures Valid() && matched == MatchAt(src, old(current), expected)
      ensures State() == old(State()).(current := old(current) + if matched then 1 else 0)
    {
      if AtEof() {
        return false;
      }
      if src[current] != expected {
        return false;
      }
      current := current + 1;
      matched := true;
    }

    /** consume_whitespace */
    method ConsumeWhitespace()
      requires Valid()
      modifies this
      ensures Valid() && start == old(start) && (current, line) == SkipWs(src, old(current), old(line))
    {
      while true
        invariant Valid() && start == old(start)
        invariant SkipWs(src, current, line) == SkipWs(src, old(current), old(line))
        decreases |src| - current
      {
        var c := Peek();
        if c == '\n' {
          line := line + 1;
          var _ := Consume();
        } else if c == ' ' || c == '\r' || c == '\t' {
          var _ := Consume();
        } else if c == '/' {
          if PeekNext() == '/' {
            ghost var from := current;
            assert SkipWs(src, from, line) == (CommentEnd(src, from), line);
            while Peek() != '\n' && !AtEof()
              invariant Valid() && start == old(start) && from <= current
              invariant SkipWs(src, from, line) == SkipWs(src, old(current), old(line))
              invariant SkipWs(src, from, line) == (CommentEnd(src, from), line)
              invariant CommentEnd(src, current) == CommentEnd(src, from)
              decreases |src| - current
            {
              var _ := Consume();
            }
            return;
          } else {
            return;
          }
        } else {
          return;
        }
      }
    }

    /** consume_string, after the opening quote. */
    method ConsumeString() returns (t: Token)
      requires Valid() && start < current && src[start] == '"'
      modifies this
      ensures Valid() && start == old(start)
      ensures var (k, line') := StringEnd(src, old(current), old(line));
        if AtEofAt(src, k) then t == Token(Error, UnterminatedString, line') && State() == Cursor(start, k, line')
        else State() == Cursor(start, k + 1, line') && t == MakeToken(src, String, State())
    {
      while Peek() != '"' && !AtEof()
        invariant Valid() && start == old(start)
        invariant StringEnd(src, current, line) == StringEnd(src, old(current), old(line))
        decreases |src| - current
      {
        if Peek() == '\n' {
          line := line + 1;
        }
        var _ := Consume();
      }
      if AtEof() {
        return Token(Error, UnterminatedString, line);
      }
      var _ := Consume();
      t := Token(String, src[start..current], line);
    }

    /** consume_number, after the first digit. */
    method ConsumeNumber() returns (t: Token)
      requires Valid()
      modifies this
      ensures Valid() && State() == old(State()).(current := NumberEnd(src, old(current)))
      ensures t == MakeToken(src, Number, State())
    {
      while IsDigit(Peek())
        invariant Valid() && State() == old(State()).(current := current)
        invariant DigitsEnd(src, current) == DigitsEnd(src, old(current))
        decreases |src| - current
      {
        var _ := Consume();
      }
      if Peek() == '.' && IsDigit(PeekNext()) {
        var _ := Consume();
        ghost var from := current;
        while IsDigit(Peek())
          invariant Valid() && State() == old(State()).(current := current)
          invariant DigitsEnd(src, current) == DigitsEnd(src, from)
          decreases |src| - current
        {
          var _ := Consume();
        }
      }
      t := Token(Number, src[start..current], line);
    }

    /** consume_identifier, after the first letter. */
    method ConsumeIdentifier() returns (t: Token)
      requires Valid() && start < current
      modifies this
      ensures Valid() && State() == old(State()).(current := IdentEnd(src, old(current)))
      ensures t == MakeToken(src, IdentifierType(src[start..current]), State())
    {
      while IsIdentChar(Peek())
        invariant Valid() && State() == old(State()).(current := current)
        invariant IdentEnd(src, current) == IdentEnd(src, old(current))
        decreases |src| - current
      {
        var _ := Consume();
      }
      t := Token(IdentifierType(src[start..current]), src[start..current], line);
    }

    /** scan_token */
    method ScanToken() returns (t: Token)
      requires Valid()
      modifies this
      ensures Valid() && (t, State()) == Scan(src, old(State()))
    {
      ConsumeWhitespace();
      start := current;
      if AtEof() {
        return Token(EOF, src[start..current], line);
      }
      var c := Consume();
      if IsAlpha(c) {
        t := ConsumeIdentifier();
        return;
      }
      if IsDigit(c) {
        t := ConsumeNumber();
        return;
      }
      var single := SingleCharKind(c);
      if single.Some? {
        return Token(single.value, src[start..current], line);
      }
      if PairKind(c, false).Some? {
        var m := MatchAndConsume('=');
        return Token(PairKind(c, m).value, src[start..current], line);
      }
      if c == '"' {
        t := ConsumeString();
        return;
      }
      t := Token(Error, UnexpectedCharacter, line);
    }
  }
}
