/** The tokens of the SQL dialect, the characters they are made of, and text positions. */
module Tokens {
  import opened Wrappers
  import opened Keys

  /** The reserved words, by their canonical upper-case spelling. */
  const RESERVED: seq<string> := A_TO_E + F_TO_J + L_TO_R + R_TO_W

  const A_TO_E: seq<string> := [
    "AND", "AS", "ASC", "BEGIN", "BY", "CASCADE",
    "COMMIT", "CROSS", "DELETE", "DESC", "DISTINCT", "EXCEPT"]

  const F_TO_J: seq<string> := [
    "FALSE", "FROM", "FULL", "GROUP", "HAVING", "IN",
    "INNER", "INSERT", "INTERSECT", "INTO", "IS", "JOIN"]

  const L_TO_R: seq<string> := [
    "LEFT", "LIKE", "LIMIT", "NATURAL", "NOT", "NULL",
    "OFFSET", "ON", "OR", "ORDER", "OUTER", "RESTRICT"]

  const R_TO_W: seq<string> := [
    "RIGHT", "ROLLBACK", "SELECT", "SET", "TRANSACTION", "TRUE",
    "UNION", "UPDATE", "USING", "VALUES", "WHERE"]

  datatype Token =
    | Keyword(word: string)
    | Identifier(name: string)
    | Integer(value: nat)
    | Float(text: string)
    | String(content: string)
    | Placeholder | Comma | Dot | LeftParen | RightParen | Star | Semicolon | Minus
    | Eq | NotEq | Lt | LtEq | Gt | GtEq
    | Eof

  datatype ErrorKind =
    | UnterminatedString | UnterminatedIdentifier | UnterminatedComment
    | EmptyIdentifier | InvalidNumber | NumberTooLarge
    | Backtick | NamedPlaceholder | UnexpectedCharacter(c: char)

  // ----- Characters

  predicate IsWhitespace(c: char) {
    || '\t' <= c <= '\r' || c == ' ' || c == '\U{85}' || c == '\U{A0}' || c == '\U{1680}'
    || '\U{2000}' <= c <= '\U{200A}' || c == '\U{2028}' || c == '\U{2029}' || c == '\U{202F}'
    || c == '\U{205F}' || c == '\U{3000}'
  }

  predicate IsAlphabetic(c: char) {
    'a' <= c <= 'z' || 'A' <= c <= 'Z'
  }

  predicate IsWordChar(c: char) {
    IsAlphabetic(c) || IsDigit(c) || c == '_'
  }

  function Upper(c: char): char {
    if 'a' <= c <= 'z' then (c as int - 32) as char else c
  }

  function UpperWord(word: string): (upper: string)
    ensures |upper| == |word|
  {
    seq(|word|, i requires 0 <= i < |word| => Upper(word[i]))
  }

  /** The reserved word spelled `word`, ignoring ASCII case; the first of `words` that fits. */
  function FindKeyword(words: seq<string>, word: string): (found: Option<string>)
    ensures found.Some? ==> found.value in words && UpperWord(found.value) == UpperWord(word)
    ensures found.None? ==> forall k :: 0 <= k < |words| ==> UpperWord(words[k]) != UpperWord(word)
  {
    if words == [] then None
    else if UpperWord(words[0]) == UpperWord(word) then Some(words[0])
    else FindKeyword(words[1..], word)
  }

  function WordToken(word: string): Token {
    match FindKeyword(RESERVED, word)
    case Some(keyword) => Keyword(keyword)
    case None => Identifier(word)
  }

  predicate IsUpperWord(word: string) {
    word != "" && forall i :: 0 <= i < |word| ==> 'A' <= word[i] <= 'Z'
  }

  predicate UpperWords(words: seq<string>) {
    forall k :: 0 <= k < |words| ==> IsUpperWord(words[k])
  }

  lemma FirstWordsAreUpper()
    ensures UpperWords(A_TO_E + F_TO_J)
  {
    assert UpperWords(A_TO_E);
    assert UpperWords(F_TO_J);
  }

  lemma LastWordsAreUpper()
    ensures UpperWords(L_TO_R + R_TO_W)
  {
    assert UpperWords(L_TO_R);
    assert UpperWords(R_TO_W);
  }

  lemma ReservedWordsAreUpper()
    ensures UpperWords(RESERVED)
  {
    FirstWordsAreUpper();
    LastWordsAreUpper();
    assert RESERVED == (A_TO_E + F_TO_J) + (L_TO_R + R_TO_W);
  }

  lemma UpperOfUpper(word: string)
    requires IsUpperWord(word)
    ensures UpperWord(word) == word
  {
  }

  /** A reserved word in its canonical spelling is recognized as itself. */
  lemma ReservedWordIsKeyword(word: string)
    requires word in RESERVED
    ensures IsUpperWord(word) && WordToken(word) == Keyword(word)
  {
    ReservedWordsAreUpper();
    var k :| 0 <= k < |RESERVED| && RESERVED[k] == word;
    var found := FindKeyword(RESERVED, word);
    UpperOfUpper(word);
    if found.Some? {
      var j :| 0 <= j < |RESERVED| && RESERVED[j] == found.value;
      UpperOfUpper(found.value);
    }
  }

  // ----- Positions

  /** A 1-based line and column; columns count characters. */
  datatype Position = Position(line: nat, col: nat)

  /** The position of the character at index `i`, as the cursor counts it. */
  function PositionAt(text: string, i: nat): Position
    requires i <= |text|
  {
    if i == 0 then Position(1, 1)
    else
      var before := PositionAt(text, i - 1);
      if text[i - 1] == '\n' then Position(before.line + 1, 1) else Position(before.line, before.col + 1)
  }

  function Newlines(text: string): nat {
    if text == "" then 0
    else Newlines(text[..|text| - 1]) + if text[|text| - 1] == '\n' then 1 else 0
  }

  /** The counted position is the true one: lines end at newlines and columns start after them. */
  lemma {:induction false} PositionIsTrue(text: string, i: nat)
    requires i <= |text|
    ensures var p := PositionAt(text, i);
            && p.line == 1 + Newlines(text[..i])
            && 1 <= p.col <= i + 1
            && (forall k :: i - (p.col - 1) <= k < i ==> text[k] != '\n')
            && (p.col <= i ==> text[i - p.col] == '\n')
  {
    if i > 0 {
      PositionIsTrue(text, i - 1);
      assert text[..i][..i - 1] == text[..i - 1];
    }
  }
}
