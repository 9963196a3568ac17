/**
 What the lexer reads: a specification by functions of the text and an offset,
 and the spellings that each token has. A token is read exactly from its spellings.
 */
module Lexing {
  import opened Wrappers
  import opened Bytes
  import opened Keys
  import opened Tokens

  /** A token and the offset of its first character. */
  datatype Lexeme = Lexeme(token: Token, start: nat)

  /** An error and the offset of the character it is reported at. */
  datatype LexError = LexError(kind: ErrorKind, offset: nat)

  // ----- Scanning

  predicate At(s: string, i: nat, c: char) {
    i < |s| && s[i] == c
  }

  /** The offset of the next newline, or of the end of the text. */
  function LineEnd(s: string, i: nat): (end: nat)
    requires i <= |s|
    ensures i <= end <= |s|
    ensures end < |s| ==> s[end] == '\n'
    ensures forall k :: i <= k < end ==> s[k] != '\n'
    decreases |s| - i
  {
    if i == |s| || s[i] == '\n' then i else LineEnd(s, i + 1)
  }

  predicate CommentClose(s: string, i: nat) {
    At(s, i, '*') && At(s, i + 1, '/')
  }

  /** The offset after the first comment terminator. */
  function BlockEnd(s: string, i: nat): (end: Option<nat>)
    requires i <= |s|
    ensures end.Some? ==> i + 2 <= end.value <= |s| && CommentClose(s, end.value - 2)
    ensures end.Some? ==> forall k :: i <= k < end.value - 2 ==> !CommentClose(s, k)
    ensures end.None? ==> forall k :: i <= k < |s| ==> !CommentClose(s, k)
    decreases |s| - i
  {
    if i == |s| then None
    else if CommentClose(s, i) then Some(i + 2)
    else BlockEnd(s, i + 1)
  }

  /** The offset after any whitespace and comments. */
  function SkipTrivia(s: string, i: nat): (end: Result<nat, LexError>)
    requires i <= |s|
    ensures end.Ok? ==> i <= end.value <= |s|
    decreases |s| - i
  {
    if i < |s| && IsWhitespace(s[i]) then SkipTrivia(s, i + 1)
    else if At(s, i, '-') && At(s, i + 1, '-') then SkipTrivia(s, LineEnd(s, i))
    else if At(s, i, '/') && At(s, i + 1, '*') then
      match BlockEnd(s, i + 2)
      case None => Err(LexError(UnterminatedComment, i))
      case Some(end) => SkipTrivia(s, end)
    else Ok(i)
  }

  function Prepend(c: string, body: Option<(string, nat)>): Option<(string, nat)> {
    match body
    case None => None
    case Some(read) => Some((c + read.0, read.1))
  }

  /** The content of a quoted token whose opening quote is before `i`, and the offset after it. */
  function Quoted(s: string, i: nat, quote: char): (body: Option<(string, nat)>)
    requires i <= |s|
    ensures body.Some? ==> i < body.value.1 <= |s|
    decreases |s| - i
  {
    if i == |s| then None
    else if s[i] != quote then Prepend([s[i]], Quoted(s, i + 1, quote))
    else if At(s, i + 1, quote) then Prepend([quote], Quoted(s, i + 2, quote))
    else Some(("", i + 1))
  }

  function DigitsEnd(s: string, i: nat): (end: nat)
    requires i <= |s|
    ensures i <= end <= |s| && AllDigits(s[i..end])
    ensures end < |s| ==> !IsDigit(s[end])
    decreases |s| - i
  {
    if i < |s| && IsDigit(s[i]) then
      var end := DigitsEnd(s, i + 1);
      assert s[i..end] == [s[i]] + s[i + 1..end];
      end
    else i
  }

  predicate AllWordChars(word: string) {
    forall i | 0 <= i < |word| :: IsWordChar(word[i])
  }

  function WordEnd(s: string, i: nat): (end: nat)
    requires i <= |s|
    ensures i <= end <= |s| && AllWordChars(s[i..end])
    ensures end < |s| ==> !IsWordChar(s[end])
    decreases |s| - i
  {
    if i < |s| && IsWordChar(s[i]) then
      var end := WordEnd(s, i + 1);
      assert s[i..end] == [s[i]] + s[i + 1..end];
      end
    else i
  }

  predicate StartsWord(c: char) {
    IsAlphabetic(c) || c == '_'
  }

  predicate IsFloatAt(s: string, i: nat) {
    At(s, i, '.') && i + 1 < |s| && IsDigit(s[i + 1])
  }

  function NumberEnd(s: string, i: nat): (end: nat)
    requires i <= |s|
    ensures DigitsEnd(s, i) <= end <= |s|
  {
    var whole := DigitsEnd(s, i);
    if IsFloatAt(s, whole) then DigitsEnd(s, whole + 1) else whole
  }

  /** The value of a run of digits, unless it exceeds 64 bits. */
  function ParseU64(text: string): (value: Option<nat>)
    requires AllDigits(text)
  {
    var n := ParseDecimal(text);
    if n > U64_MAX then None else Some(n)
  }

  function Number(s: string, i: nat): (read: Result<(Token, nat), LexError>)
    requires i < |s| && IsDigit(s[i])
  {
    var whole := DigitsEnd(s, i);
    var end := NumberEnd(s, i);
    if end < |s| && StartsWord(s[end]) then Err(LexError(InvalidNumber, i))
    else if IsFloatAt(s, whole) then Ok((Float(s[i..end]), end))
    else match ParseU64(s[i..whole])
      case None => Err(LexError(NumberTooLarge, i))
      case Some(value) => Ok((Integer(value), whole))
  }

  function QuotedToken(s: string, i: nat): (read: Result<(Token, nat), LexError>)
    requires i < |s| && s[i] in {'\'', '"'}
  {
    match Quoted(s, i + 1, s[i])
    case None =>
      Err(LexError(if s[i] == '"' then UnterminatedIdentifier else UnterminatedString, i))
    case Some((content, end)) =>
      if s[i] == '\'' then Ok((String(content), end))
      else if content == "" then Err(LexError(EmptyIdentifier, i))
      else Ok((Identifier(content), end))
  }

  /** The punctuation that starts with `c`, given the character after it. */
  function Symbol(c: char, next: Option<char>): Option<(Token, nat)> {
    match c
    case ',' => Some((Comma, 1))
    case '.' => Some((Dot, 1))
    case '(' => Some((LeftParen, 1))
    case ')' => Some((RightParen, 1))
    case '*' => Some((Star, 1))
    case ';' => Some((Semicolon, 1))
    case '-' => Some((Minus, 1))
    case '?' => Some((Placeholder, 1))
    case '=' => Some((Eq, 1))
    case '!' => if next == Some('=') then Some((NotEq, 2)) else None
    case '<' =>
      if next == Some('>') then Some((NotEq, 2))
      else if next == Some('=') then Some((LtEq, 2))
      else Some((Lt, 1))
    case '>' => if next == Some('=') then Some((GtEq, 2)) else Some((Gt, 1))
    case _ => None
  }

  function Peek(s: string, i: nat): Option<char> {
    if i < |s| then Some(s[i]) else None
  }

  /** The token that starts at `i`, and the offset after it. */
  function NextToken(s: string, i: nat): (read: Result<(Token, nat), LexError>)
    requires i <= |s|
    ensures read.Ok? ==> i <= read.value.1 <= |s|
    ensures read.Ok? && read.value.0 == Eof ==> i == |s| == read.value.1
    ensures read.Ok? && read.value.0 != Eof ==> i < read.value.1
  {
    if i == |s| then Ok((Eof, i))
    else
      var c := s[i];
      match Symbol(c, Peek(s, i + 1))
      case Some((token, width)) => Ok((token, i + width))
      case None =>
        if c == '\'' || c == '"' then QuotedToken(s, i)
        else if c == '`' then Err(LexError(Backtick, i))
        else if c == ':' || c == '$' || c == '@' then Err(LexError(NamedPlaceholder, i))
        else if IsDigit(c) then Number(s, i)
        else if StartsWord(c) then Ok((WordToken(s[i..WordEnd(s, i)]), WordEnd(s, i)))
        else Err(LexError(UnexpectedCharacter(c), i))
  }

  /** All tokens from `i` on, ending with `Eof`. */
  function Lex(s: string, i: nat): (read: Result<seq<Lexeme>, LexError>)
    requires i <= |s|
    decreases |s| - i
  {
    match SkipTrivia(s, i)
    case Err(error) => Err(error)
    case Ok(start) =>
      match NextToken(s, start)
      case Err(error) => Err(error)
      case Ok((token, end)) =>
        if token == Eof then Ok([Lexeme(Eof, start)])
        else After([Lexeme(token, start)], Lex(s, end))
  }

  /** The outcome of a run that reads `first` and then continues with outcome `read`. */
  function After(first: seq<Lexeme>, read: Result<seq<Lexeme>, LexError>): Result<seq<Lexeme>, LexError> {
    match read
    case Err(error) => Err(error)
    case Ok(rest) => Ok(first + rest)
  }

  lemma LexAtEnd(s: string, i: nat)
    requires i <= |s| && SkipTrivia(s, i) == Ok(|s|)
    ensures Lex(s, i) == Ok([Lexeme(Eof, |s|)])
  {
    hide SkipTrivia;
  }

  lemma LexToken(s: string, i: nat, start: nat, token: Token, end: nat)
    requires i <= |s| && SkipTrivia(s, i) == Ok(start) && NextToken(s, start) == Ok((token, end))
    requires token != Eof
    ensures Lex(s, i) == After([Lexeme(token, start)], Lex(s, end))
  {
    hide SkipTrivia, NextToken;
  }

  // ----- Characters by code point

  /** The character classes of the dialect; case folding changes the 26 small letters only. */
  lemma CharacterClasses(c: char)
    ensures var n := c as int;
            && (IsWhitespace(c) <==> || 9 <= n <= 13 || n == 32 || n == 0x85 || n == 0xA0 || n == 0x1680 || 0x2000 <= n <= 0x200A
                                     || n == 0x2028 || n == 0x2029 || n == 0x202F || n == 0x205F || n == 0x3000)
            && (IsDigit(c) <==> 48 <= n <= 57)
            && (StartsWord(c) <==> 65 <= n <= 90 || n == 95 || 97 <= n <= 122)
            && (IsWordChar(c) <==> 48 <= n <= 57 || 65 <= n <= 90 || n == 95 || 97 <= n <= 122)
            && Upper(c) as int == (if 97 <= n <= 122 then n - 32 else n)
  {
  }

  // ----- Spellings

  /** `content` with every `quote` doubled. */
  function Doubled(content: string, quote: char): string {
    if content == "" then ""
    else (if content[0] == quote then [quote, quote] else [content[0]]) + Doubled(content[1..], quote)
  }

  function InQuotes(content: string, quote: char): string {
    [quote] + Doubled(content, quote) + [quote]
  }

  predicate IsWord(text: string) {
    text != "" && StartsWord(text[0]) && AllWordChars(text)
  }

  predicate IsNumberText(text: string) {
    text != "" && AllDigits(text)
  }

  predicate SplitsAsFloat(text: string, point: nat) {
    && point < |text| && text[point] == '.'
    && IsNumberText(text[..point]) && IsNumberText(text[point + 1..])
  }

  /** Whether `text` is a spelling of `token`. */
  predicate Spells(text: string, token: Token) {
    match token
    case Keyword(word) => word in RESERVED && UpperWord(text) == word
    case Identifier(name) =>
      || (name != "" && text == InQuotes(name, '"'))
      || (text == name && IsWord(text) && FindKeyword(RESERVED, text) == None)
    case Integer(value) => IsNumberText(text) && value == ParseDecimal(text) <= U64_MAX
    case Float(digits) => text == digits && exists point: nat | point < |text| :: SplitsAsFloat(text, point)
    case String(content) => text == InQuotes(content, '\'')
    case Placeholder => text == "?"
    case Comma => text == ","
    case Dot => text == "."
    case LeftParen => text == "("
    case RightParen => text == ")"
    case Star => text == "*"
    case Semicolon => text == ";"
    case Minus => text == "-"
    case Eq => text == "="
    case NotEq => text == "!=" || text == "<>"
    case Lt => text == "<"
    case LtEq => text == "<="
    case Gt => text == ">"
    case GtEq => text == ">="
    case Eof => false
  }

  // ----- Every token read is spelled by the characters it covers

  lemma {:induction false} QuotedIsDoubled(s: string, i: nat, quote: char)
    requires i <= |s| && Quoted(s, i, quote).Some?
    ensures var (content, end) := Quoted(s, i, quote).value; s[i..end] == Doubled(content, quote) + [quote]
    decreases |s| - i
  {
    var (content, end) := Quoted(s, i, quote).value;
    if s[i] != quote {
      QuotedIsDoubled(s, i + 1, quote);
      assert content[1..] == Quoted(s, i + 1, quote).value.0;
      assert s[i..end] == [s[i]] + s[i + 1..end];
    } else if At(s, i + 1, quote) {
      QuotedIsDoubled(s, i + 2, quote);
      assert content[1..] == Quoted(s, i + 2, quote).value.0;
      assert s[i..end] == [quote, quote] + s[i + 2..end];
    }
  }

  lemma QuotedTokenSpells(s: string, i: nat)
    requires i < |s| && s[i] in {'\'', '"'} && QuotedToken(s, i).Ok?
    ensures var (token, end) := QuotedToken(s, i).value; Spells(s[i..end], token)
  {
    QuotedIsDoubled(s, i + 1, s[i]);
    var (content, end) := Quoted(s, i + 1, s[i]).value;
    assert s[i..end] == [s[i]] + s[i + 1..end];
  }

  lemma NumberSpells(s: string, i: nat)
    requires i < |s| && IsDigit(s[i]) && Number(s, i).Ok?
    ensures var (token, end) := Number(s, i).value; Spells(s[i..end], token)
  {
    var whole, end := DigitsEnd(s, i), NumberEnd(s, i);
    assert whole > i;
    if IsFloatAt(s, whole) {
      var text, point := s[i..end], whole - i;
      assert text[..point] == s[i..whole] && text[point + 1..] == s[whole + 1..end];
      assert SplitsAsFloat(text, point);
    }
  }

  lemma WordSpells(word: string)
    requires IsWord(word)
    ensures Spells(word, WordToken(word))
  {
    match FindKeyword(RESERVED, word)
    case None =>
    case Some(keyword) => ReservedWordIsKeyword(keyword); UpperOfUpper(keyword);
  }

  /** Soundness: the characters a token was read from are a spelling of it. */
  lemma TokenIsSpelled(s: string, i: nat)
    requires i < |s| && NextToken(s, i).Ok?
    ensures var (token, end) := NextToken(s, i).value; token != Eof && Spells(s[i..end], token)
  {
    var c := s[i];
    match Symbol(c, Peek(s, i + 1))
    case Some((token, width)) =>
      assert s[i..i + width] == if width == 1 then [c] else [c, s[i + 1]];
    case None =>
      if c == '\'' || c == '"' {
        QuotedTokenSpells(s, i);
      } else if IsDigit(c) {
        NumberSpells(s, i);
      } else {
        WordSpells(s[i..WordEnd(s, i)]);
      }
  }

  // ----- Every spelling is read back

  /** Whether `rest`, which follows a token, is empty or starts like whitespace or a comment. */
  predicate Separates(rest: string) {
    rest != "" ==> IsWhitespace(rest[0]) || rest[0] == '-' || rest[0] == '/'
  }

  lemma SuffixAt(s: string, i: nat, text: string, rest: string)
    requires i <= |s| && s[i..] == text + rest
    ensures i + |text| <= |s| && s[i..i + |text|] == text && s[i + |text|..] == rest
    ensures forall k :: 0 <= k < |text| ==> s[i + k] == text[k]
    ensures rest != "" ==> s[i + |text|] == rest[0]
  {
    assert |s| - i == |text| + |rest|;
    assert s[i..][..|text|] == text && s[i..][|text|..] == rest;
    forall k | 0 <= k < |text|
      ensures s[i + k] == text[k]
    {
      assert s[i..][k] == text[k];
    }
  }

  lemma {:induction false} QuotedReadsDoubled(s: string, i: nat, content: string, quote: char, rest: string)
    requires i <= |s| && s[i..] == Doubled(content, quote) + ([quote] + rest)
    requires rest != "" ==> rest[0] != quote
    ensures Quoted(s, i, quote) == Some((content, i + |Doubled(content, quote)| + 1))
    decreases |content|
  {
    var d := Doubled(content, quote);
    SuffixAt(s, i, d, [quote] + rest);
    if content == "" {
      SuffixAt(s, i, [quote], rest);
    } else {
      var head, tail := if content[0] == quote then [quote, quote] else [content[0]], Doubled(content[1..], quote);
      assert s[i..] == head + (tail + ([quote] + rest));
      SuffixAt(s, i, head, tail + ([quote] + rest));
      QuotedReadsDoubled(s, i + |head|, content[1..], quote, rest);
      assert [content[0]] + content[1..] == content;
    }
  }

  lemma {:induction false} DigitsEndAfter(s: string, i: nat, text: string, rest: string)
    requires i <= |s| && s[i..] == text + rest && AllDigits(text)
    requires rest != "" ==> !IsDigit(rest[0])
    ensures DigitsEnd(s, i) == i + |text|
    decreases |text|
  {
    SuffixAt(s, i, text, rest);
    if text != "" {
      assert s[i] == text[0];
      assert s[i + 1..] == text[1..] + rest;
      DigitsEndAfter(s, i + 1, text[1..], rest);
    }
  }

  lemma {:induction false} WordEndAfter(s: string, i: nat, text: string, rest: string)
    requires i <= |s| && s[i..] == text + rest && AllWordChars(text)
    requires rest != "" ==> !IsWordChar(rest[0])
    ensures WordEnd(s, i) == i + |text|
    decreases |text|
  {
    SuffixAt(s, i, text, rest);
    if text != "" {
      assert s[i] == text[0];
      assert s[i + 1..] == text[1..] + rest;
      WordEndAfter(s, i + 1, text[1..], rest);
    }
  }

  lemma DigitsStartNumber(s: string, i: nat)
    requires i < |s| && IsDigit(s[i])
    ensures NextToken(s, i) == Number(s, i)
  {
  }

  lemma LettersStartWord(s: string, i: nat)
    requires i < |s| && StartsWord(s[i])
    ensures NextToken(s, i) == Ok((WordToken(s[i..WordEnd(s, i)]), WordEnd(s, i)))
  {
    hide WordToken, WordEnd;
  }

  lemma IntegerParts(s: string, i: nat, text: string, rest: string)
    requires i <= |s| && s[i..] == text + rest && Separates(rest) && IsNumberText(text)
    ensures i + |text| <= |s| && s[i..i + |text|] == text && IsDigit(s[i])
    ensures DigitsEnd(s, i) == i + |text| && !IsFloatAt(s, i + |text|)
    ensures i + |text| < |s| ==> !StartsWord(s[i + |text|])
  {
    SuffixAt(s, i, text, rest);
    DigitsEndAfter(s, i, text, rest);
    assert s[i + 0] == text[0];
  }

  lemma IntegerReadBack(s: string, i: nat, text: string, rest: string)
    requires i <= |s| && s[i..] == text + rest && Separates(rest)
    requires IsNumberText(text) && ParseU64(text).Some?
    ensures i < |s| && IsDigit(s[i]) && Number(s, i) == Ok((Integer(ParseU64(text).value), i + |text|))
  {
    IntegerParts(s, i, text, rest);
    assert NumberEnd(s, i) == i + |text|;
  }

  lemma FloatParts(s: string, i: nat, text: string, point: nat, rest: string)
    requires i <= |s| && s[i..] == text + rest && Separates(rest) && SplitsAsFloat(text, point)
    ensures i + |text| <= |s| && s[i..i + |text|] == text && IsDigit(s[i])
    ensures DigitsEnd(s, i) == i + point && IsFloatAt(s, i + point)
    ensures DigitsEnd(s, i + point + 1) == i + |text|
  {
    var whole, fraction := text[..point], text[point + 1..];
    SuffixAt(s, i, text, rest);
    assert s[i..] == whole + (['.'] + (fraction + rest));
    DigitsEndAfter(s, i, whole, ['.'] + (fraction + rest));
    assert s[i + point + 1..] == fraction + rest;
    DigitsEndAfter(s, i + point + 1, fraction, rest);
    assert s[i + 0] == text[0] == whole[0] && s[i + point] == text[point];
    assert s[i + (point + 1)] == text[point + 1] == fraction[0];
  }

  lemma FloatReadBack(s: string, i: nat, text: string, point: nat, rest: string)
    requires i <= |s| && s[i..] == text + rest && Separates(rest) && SplitsAsFloat(text, point)
    ensures i < |s| && IsDigit(s[i]) && Number(s, i) == Ok((Float(text), i + |text|))
  {
    FloatParts(s, i, text, point, rest);
    SuffixAt(s, i, text, rest);
  }

  lemma WordReadBack(s: string, i: nat, text: string, rest: string)
    requires i <= |s| && s[i..] == text + rest && Separates(rest) && IsWord(text)
    ensures NextToken(s, i) == Ok((WordToken(text), i + |text|))
  {
    hide NextToken, WordToken, WordEnd;
    SuffixAt(s, i, text, rest);
    WordEndAfter(s, i, text, rest);
    assert s[i + 0] == text[0];
    LettersStartWord(s, i);
  }

  lemma QuotedReadBack(s: string, i: nat, content: string, quote: char, rest: string)
    requires i <= |s| && s[i..] == InQuotes(content, quote) + rest && Separates(rest)
    requires quote == '\'' || (quote == '"' && content != "")
    ensures NextToken(s, i)
         == Ok((if quote == '"' then Identifier(content) else String(content), i + |InQuotes(content, quote)|))
  {
    var d := Doubled(content, quote);
    assert s[i..] == [quote] + (d + ([quote] + rest));
    SuffixAt(s, i, [quote], d + ([quote] + rest));
    assert s[i] == [quote][0];
    QuotedReadsDoubled(s, i + 1, content, quote, rest);
  }

  // A word that differs from a reserved word at most in case is a word.
  lemma UpperWordIsWord(text: string)
    requires IsUpperWord(UpperWord(text))
    ensures IsWord(text)
  {
    forall k | 0 <= k < |text|
      ensures IsAlphabetic(text[k])
    {
      assert 'A' <= UpperWord(text)[k] <= 'Z';
    }
  }

  lemma KeywordReadBack(s: string, i: nat, text: string, word: string, rest: string)
    requires i <= |s| && s[i..] == text + rest && Separates(rest) && Spells(text, Keyword(word))
    ensures NextToken(s, i) == Ok((Keyword(word), i + |text|))
  {
    ReservedWordIsKeyword(word);
    UpperWordIsWord(text);
    WordReadBack(s, i, text, rest);
    SpellingFindsKeyword(text, word);
  }

  lemma SpellingFindsKeyword(text: string, word: string)
    requires word in RESERVED && UpperWord(text) == word
    ensures FindKeyword(RESERVED, text) == Some(word)
  {
    ReservedWordsAreUpper();
    var k :| 0 <= k < |RESERVED| && RESERVED[k] == word;
    UpperOfUpper(word);
    var found := FindKeyword(RESERVED, text);
    if found.Some? {
      var j :| 0 <= j < |RESERVED| && RESERVED[j] == found.value;
      UpperOfUpper(found.value);
    }
  }

  lemma SymbolReadBack(s: string, i: nat, text: string, token: Token, rest: string)
    requires i <= |s| && s[i..] == text + rest && Separates(rest) && Spells(text, token)
    requires !token.Keyword? && !token.Identifier? && !token.Integer? && !token.Float? && !token.String?
    ensures NextToken(s, i) == Ok((token, i + |text|))
  {
    SuffixAt(s, i, text, rest);
    assert s[i + 0] == text[0];
    if |text| == 2 {
      assert s[i + 1] == text[1];
    }
  }

  /** Completeness: a spelling followed by a separator or the end of the text is read back. */
  lemma SpellingIsRead(s: string, i: nat, text: string, token: Token, rest: string)
    requires i <= |s| && s[i..] == text + rest && Separates(rest) && Spells(text, token)
    ensures text != "" && NextToken(s, i) == Ok((token, i + |text|))
  {
    match token
    case Keyword(word) => KeywordReadBack(s, i, text, word, rest);
    case Identifier(name) =>
      if text == InQuotes(name, '"') {
        QuotedReadBack(s, i, name, '"', rest);
      } else {
        WordReadBack(s, i, text, rest);
      }
    case Integer(value) =>
      IntegerReadBack(s, i, text, rest);
      DigitsStartNumber(s, i);
    case Float(digits) =>
      var point: nat :| point < |text| && SplitsAsFloat(text, point);
      FloatReadBack(s, i, text, point, rest);
      DigitsStartNumber(s, i);
    case String(content) => QuotedReadBack(s, i, content, '\'', rest);
    case _ => SymbolReadBack(s, i, text, token, rest);
  }

  // ----- What an error says about the text

  predicate StartsAt(s: string, i: nat, text: string) {
    i + |text| <= |s| && s[i..i + |text|] == text
  }

  /** Whether a quoted `content` starts at `i` and its closing quote is not doubled. */
  predicate Closes(s: string, i: nat, quote: char, content: string, rest: string)
    requires i <= |s|
  {
    s[i..] == InQuotes(content, quote) + rest && (rest == "" || rest[0] != quote)
  }

  ghost predicate NeverCloses(s: string, i: nat, quote: char)
    requires i <= |s|
  {
    forall content, rest :: !Closes(s, i, quote, content, rest)
  }

  ghost predicate IsNumber(text: string) {
    IsNumberText(text) || exists point: nat | point < |text| :: SplitsAsFloat(text, point)
  }

  predicate StartsNothing(s: string, i: nat)
    requires i < |s|
  {
    && Symbol(s[i], Peek(s, i + 1)) == None && !IsWhitespace(s[i]) && !IsDigit(s[i]) && !StartsWord(s[i])
    && s[i] !in {'\'', '"', '`', ':', '$', '@'}
  }

  /** What is wrong at the offset that an error names. */
  ghost predicate Explains(s: string, error: LexError) {
    && error.offset < |s|
    && var (at, c) := (error.offset, s[error.offset]);
       match error.kind
       case UnterminatedComment => StartsAt(s, at, "/*") && forall k :: at + 2 <= k < |s| ==> !CommentClose(s, k)
       case UnterminatedString => c == '\'' && NeverCloses(s, at, c)
       case UnterminatedIdentifier => c == '"' && NeverCloses(s, at, c)
       case EmptyIdentifier => StartsAt(s, at, "\"\"")
       case InvalidNumber => exists end: nat | at < end < |s| :: IsNumber(s[at..end]) && StartsWord(s[end])
       case NumberTooLarge =>
         exists end: nat | at < end <= |s| ::
           IsNumberText(s[at..end]) && ParseDecimal(s[at..end]) > U64_MAX && (end < |s| ==> !IsDigit(s[end]))
       case Backtick => c == '`'
       case NamedPlaceholder => c in {':', '$', '@'}
       case UnexpectedCharacter(unexpected) => c == unexpected && StartsNothing(s, at)
  }

  lemma UnreadNeverCloses(s: string, i: nat, quote: char)
    requires i < |s| && Quoted(s, i + 1, quote) == None
    ensures NeverCloses(s, i, quote)
  {
    forall content, rest
      ensures !Closes(s, i, quote, content, rest)
    {
      if Closes(s, i, quote, content, rest) {
        assert s[i + 1..] == s[i..][1..] == Doubled(content, quote) + ([quote] + rest);
        QuotedReadsDoubled(s, i + 1, content, quote, rest);
        assert false;
      }
    }
  }

  lemma {:induction false} EmptyQuoted(s: string, i: nat, quote: char)
    requires i < |s| && s[i] == quote && Quoted(s, i + 1, quote).Some? && Quoted(s, i + 1, quote).value.0 == ""
    ensures StartsAt(s, i, [quote, quote])
  {
    QuotedIsDoubled(s, i + 1, quote);
    var end := Quoted(s, i + 1, quote).value.1;
    assert s[i + 1..end] == [quote];
    assert s[i..i + 2] == [s[i]] + s[i + 1..end];
  }

  lemma NumberErrorExplained(s: string, i: nat)
    requires i < |s| && IsDigit(s[i]) && Number(s, i).Err?
    ensures Number(s, i).error.offset == i && Explains(s, Number(s, i).error)
  {
    var whole, end := DigitsEnd(s, i), NumberEnd(s, i);
    assert i < whole && IsNumberText(s[i..whole]);
    if end < |s| && StartsWord(s[end]) {
      if IsFloatAt(s, whole) {
        var text, point := s[i..end], whole - i;
        assert text[..point] == s[i..whole] && text[point + 1..] == s[whole + 1..end];
        assert SplitsAsFloat(text, point);
      }
      assert IsNumber(s[i..end]);
    }
  }

  lemma TokenErrorExplained(s: string, i: nat)
    requires i < |s| && !IsWhitespace(s[i]) && NextToken(s, i).Err?
    ensures NextToken(s, i).error.offset == i && Explains(s, NextToken(s, i).error)
  {
    var c := s[i];
    if c == '\'' || c == '"' {
      match Quoted(s, i + 1, c)
      case None => UnreadNeverCloses(s, i, c);
      case Some(_) => EmptyQuoted(s, i, c);
    } else if IsDigit(c) {
      DigitsStartNumber(s, i);
      NumberErrorExplained(s, i);
    }
  }

  lemma {:induction false} TriviaErrorExplained(s: string, i: nat)
    requires i <= |s|
    ensures SkipTrivia(s, i).Err? ==> SkipTrivia(s, i).error.offset >= i && Explains(s, SkipTrivia(s, i).error)
    ensures SkipTrivia(s, i).Ok? && SkipTrivia(s, i).value < |s| ==> !IsWhitespace(s[SkipTrivia(s, i).value])
    decreases |s| - i
  {
    if i < |s| && IsWhitespace(s[i]) {
      TriviaErrorExplained(s, i + 1);
    } else if At(s, i, '-') && At(s, i + 1, '-') {
      TriviaErrorExplained(s, LineEnd(s, i));
    } else if At(s, i, '/') && At(s, i + 1, '*') {
      assert s[i..i + 2] == "/*";
      if BlockEnd(s, i + 2).Some? {
        TriviaErrorExplained(s, BlockEnd(s, i + 2).value);
      }
    }
  }

  /** A text is refused only for a reason that is visible where the error points, at or after the start. */
  lemma {:induction false} ErrorIsExplained(s: string, i: nat)
    requires i <= |s| && Lex(s, i).Err?
    ensures i <= Lex(s, i).error.offset && Explains(s, Lex(s, i).error)
    decreases |s| - i
  {
    hide SkipTrivia, NextToken, Explains;
    TriviaErrorExplained(s, i);
    if SkipTrivia(s, i).Ok? {
      var start := SkipTrivia(s, i).value;
      if start == |s| {
        LexAtEnd(s, i);
      } else {
        match NextToken(s, start)
        case Err(_) => TokenErrorExplained(s, start);
        case Ok(read) =>
          LexToken(s, i, start, read.0, read.1);
          ErrorIsExplained(s, read.1);
      }
    }
  }
}
