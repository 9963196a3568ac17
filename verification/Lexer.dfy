/**
 The lexer as a cursor over the statement text. Every method is proved to read what
 the functions of `Lexing` say, and to keep the cursor's line and column true.
 */
module Lexers {
  import opened Wrappers
  import opened Keys
  import opened Tokens
  import opened Lexing

  /** A token and the line and column of its first character. */
  datatype Spanned = Spanned(token: Token, position: Position)

  datatype ParseError = ParseError(kind: ErrorKind, position: Position)

  function Locate(text: string, error: LexError): ParseError
    requires error.offset <= |text|
  {
    ParseError(error.kind, PositionAt(text, error.offset))
  }

  predicate InText(text: string, lexemes: seq<Lexeme>) {
    forall k | 0 <= k < |lexemes| :: lexemes[k].start <= |text|
  }

  function LocateAll(text: string, lexemes: seq<Lexeme>): (tokens: seq<Spanned>)
    requires InText(text, lexemes)
    ensures |tokens| == |lexemes|
    ensures forall k :: 0 <= k < |tokens| ==>
              tokens[k] == Spanned(lexemes[k].token, PositionAt(text, lexemes[k].start))
  {
    seq(|lexemes|, k requires 0 <= k < |lexemes| => Spanned(lexemes[k].token, PositionAt(text, lexemes[k].start)))
  }

  class Lexer {
    const chars: string
    var index: nat
    var position: Position

    ghost predicate Valid()
      reads this
    {
      index <= |chars| && position == PositionAt(chars, index)
    }

    constructor (sql: string)
      ensures Valid() && chars == sql && index == 0
    {
      chars := sql;
      index := 0;
      position := Position(1, 1);
    }

    function PeekAt(offset: nat): Option<char>
      reads this
    {
      Peek(chars, index + offset)
    }

    /** Consumes one character, if there is one. */
    method Bump() returns (c: Option<char>)
      requires Valid()
      modifies this
      ensures Valid()
      ensures c == old(PeekAt(0))
      ensures index == old(index) + if c.Some? then 1 else 0
    {
      c := PeekAt(0);
      if c.Some? {
        index := index + 1;
        if c.value == '\n' {
          position := Position(position.line + 1, 1);
        } else {
          position := Position(position.line, position.col + 1);
        }
      }
    }

    method Single(token: Token) returns (read: Token)
      requires Valid() && index < |chars|
      modifies this
      ensures Valid() && read == token && index == old(index) + 1
    {
      var _ := Bump();
      read := token;
    }

    method Double(token: Token) returns (read: Token)
      requires Valid() && index + 1 < |chars|
      modifies this
      ensures Valid() && read == token && index == old(index) + 2
    {
      var _ := Bump();
      var _ := Bump();
      read := token;
    }

    method SkipLine()
      requires Valid()
      modifies this
      ensures Valid() && index == LineEnd(chars, old(index))
    {
      while PeekAt(0).Some? && PeekAt(0) != Some('\n')
        invariant Valid() && LineEnd(chars, index) == LineEnd(chars, old(index))
        decreases |chars| - index
      {
        var _ := Bump();
      }
    }

    method SkipBlockComment() returns (failure: Option<ParseError>)
      requires Valid() && index + 2 <= |chars|
      modifies this
      ensures Valid()
      ensures match BlockEnd(chars, old(index) + 2)
              case None => failure == Some(Locate(chars, LexError(UnterminatedComment, old(index))))
              case Some(end) => failure == None && index == end
    {
      var start := position;
      var _ := Bump();
      var _ := Bump();
      while true
        invariant Valid() && BlockEnd(chars, index) == BlockEnd(chars, old(index) + 2)
        decreases |chars| - index
      {
        if PeekAt(0) == Some('*') && PeekAt(1) == Some('/') {
          var _ := Bump();
          var _ := Bump();
          return None;
        } else if PeekAt(0).Some? {
          var _ := Bump();
        } else {
          return Some(ParseError(UnterminatedComment, start));
        }
      }
    }

    method SkipTrivia() returns (failure: Option<ParseError>)
      requires Valid()
      modifies this
      ensures Valid()
      ensures match Lexing.SkipTrivia(chars, old(index))
              case Err(error) => error.offset <= |chars| && failure == Some(Locate(chars, error))
              case Ok(end) => failure == None && index == end
    {
      while true
        invariant Valid() && Lexing.SkipTrivia(chars, index) == Lexing.SkipTrivia(chars, old(index))
        decreases |chars| - index
      {
        if PeekAt(0).Some? && IsWhitespace(PeekAt(0).value) {
          var _ := Bump();
        } else if PeekAt(0) == Some('-') && PeekAt(1) == Some('-') {
          SkipLine();
        } else if PeekAt(0) == Some('/') && PeekAt(1) == Some('*') {
          var failed := SkipBlockComment();
          if failed.Some? {
            return failed;
          }
        } else {
          return None;
        }
      }
    }

    /** The content of the quoted token at the cursor; `None` when it is not terminated. */
    method Quoted(quote: char) returns (content: Option<string>)
      requires Valid() && index < |chars|
      modifies this
      ensures Valid()
      ensures match Lexing.Quoted(chars, old(index) + 1, quote)
              case None => content == None
              case Some((body, end)) => content == Some(body) && index == end
    {
      var _ := Bump();
      var collected := "";
      PrependNothing(Lexing.Quoted(chars, index, quote));
      while true
        invariant Valid()
        invariant Lexing.Quoted(chars, old(index) + 1, quote) == Prepend(collected, Lexing.Quoted(chars, index, quote))
        decreases |chars| - index
      {
        ghost var before := index;
        var c := Bump();
        if c == Some(quote) && PeekAt(0) == Some(quote) {
          var _ := Bump();
          PrependTwice(collected, [quote], Lexing.Quoted(chars, index, quote));
          collected := collected + [quote];
        } else if c == Some(quote) {
          assert Lexing.Quoted(chars, before, quote) == Some(("", index));
          assert collected + "" == collected;
          return Some(collected);
        } else if c.Some? {
          PrependTwice(collected, [c.value], Lexing.Quoted(chars, index, quote));
          collected := collected + [c.value];
        } else {
          return None;
        }
      }
    }

    method Digits() returns (digits: string)
      requires Valid()
      modifies this
      ensures Valid() && index == DigitsEnd(chars, old(index)) && digits == chars[old(index)..index]
    {
      digits := "";
      while PeekAt(0).Some? && IsDigit(PeekAt(0).value)
        invariant Valid() && old(index) <= index && digits == chars[old(index)..index]
        invariant DigitsEnd(chars, index) == DigitsEnd(chars, old(index))
        decreases |chars| - index
      {
        var c := Bump();
        digits := digits + [c.value];
      }
    }

    method Fraction() returns (text: string)
      requires Valid() && IsFloatAt(chars, index)
      modifies this
      ensures Valid() && index == DigitsEnd(chars, old(index) + 1) && text == chars[old(index)..index]
    {
      var _ := Bump();
      var digits := Digits();
      text := ['.'] + digits;
    }

    method Number() returns (read: Result<Token, ParseError>)
      requires Valid() && index < |chars| && IsDigit(chars[index])
      modifies this
      ensures Valid()
      ensures match Lexing.Number(chars, old(index))
              case Err(error) => error.offset <= |chars| && read == Err(Locate(chars, error))
              case Ok((token, end)) => read == Ok(token) && index == end
    {
      var start := position;
      var text := Digits();
      var isFloat := PeekAt(0) == Some('.') && PeekAt(1).Some? && IsDigit(PeekAt(1).value);
      if isFloat {
        var fraction := Fraction();
        text := text + fraction;
      }
      assert index == NumberEnd(chars, old(index)) && text == chars[old(index)..index];
      if PeekAt(0).Some? && StartsWord(PeekAt(0).value) {
        return Err(ParseError(InvalidNumber, start));
      }
      if isFloat {
        return Ok(Float(text));
      }
      match ParseU64(text)
      case None => return Err(ParseError(NumberTooLarge, start));
      case Some(value) => return Ok(Integer(value));
    }

    method Word() returns (token: Token)
      requires Valid()
      modifies this
      ensures Valid() && index == WordEnd(chars, old(index))
      ensures token == WordToken(chars[old(index)..index])
    {
      var word := "";
      while PeekAt(0).Some? && IsWordChar(PeekAt(0).value)
        invariant Valid() && old(index) <= index && word == chars[old(index)..index]
        invariant WordEnd(chars, index) == WordEnd(chars, old(index))
        decreases |chars| - index
      {
        var c := Bump();
        word := word + [c.value];
      }
      token := WordToken(word);
    }

    method QuotedToken() returns (read: Result<Token, ParseError>)
      requires Valid() && index < |chars| && chars[index] in {'\'', '"'}
      modifies this
      ensures Valid()
      ensures match Lexing.QuotedToken(chars, old(index))
              case Err(error) => error.offset <= |chars| && read == Err(Locate(chars, error))
              case Ok((token, end)) => read == Ok(token) && index == end
    {
      var start, quote := position, chars[index];
      var content := Quoted(quote);
      match content
      case None =>
        return Err(ParseError(if quote == '"' then UnterminatedIdentifier else UnterminatedString, start));
      case Some(text) =>
        if quote == '\'' {
          return Ok(String(text));
        } else if text == "" {
          return Err(ParseError(EmptyIdentifier, start));
        } else {
          return Ok(Identifier(text));
        }
    }

    method Punctuation() returns (read: Option<Token>)
      requires Valid() && index < |chars|
      modifies this
      ensures Valid()
      ensures match Symbol(chars[old(index)], Peek(chars, old(index) + 1))
              case None => read == None && index == old(index)
              case Some((token, width)) => read == Some(token) && index == old(index) + width
    {
      var token := Eof;
      var next := PeekAt(1);
      match chars[index] {
        case ',' => token := Single(Comma);
        case '.' => token := Single(Dot);
        case '(' => token := Single(LeftParen);
        case ')' => token := Single(RightParen);
        case '*' => token := Single(Star);
        case ';' => token := Single(Semicolon);
        case '-' => token := Single(Minus);
        case '?' => token := Single(Placeholder);
        case '=' => token := Single(Eq);
        case '!' =>
          if next != Some('=') {
            return None;
          }
          token := Double(NotEq);
        case '<' =>
          if next == Some('>') {
            token := Double(NotEq);
          } else if next == Some('=') {
            token := Double(LtEq);
          } else {
            token := Single(Lt);
          }
        case '>' =>
          if next == Some('=') {
            token := Double(GtEq);
          } else {
            token := Single(Gt);
          }
        case _ => return None;
      }
      read := Some(token);
    }

    method NextToken() returns (read: Result<Token, ParseError>)
      requires Valid()
      modifies this
      ensures Valid()
      ensures match Lexing.NextToken(chars, old(index))
              case Err(error) => error.offset <= |chars| && read == Err(Locate(chars, error))
              case Ok((token, end)) => read == Ok(token) && index == end
    {
      var start, first := position, PeekAt(0);
      if first == None {
        return Ok(Eof);
      }
      var c := first.value;
      var symbol := Punctuation();
      if symbol.Some? {
        return Ok(symbol.value);
      }
      if c == '\'' || c == '"' {
        read := QuotedToken();
      } else if c == '`' {
        read := Err(ParseError(Backtick, start));
      } else if c == ':' || c == '$' || c == '@' {
        read := Err(ParseError(NamedPlaceholder, start));
      } else if IsDigit(c) {
        read := Number();
      } else if StartsWord(c) {
        var word := Word();
        read := Ok(word);
      } else {
        read := Err(ParseError(UnexpectedCharacter(c), start));
      }
    }
  }

  lemma PrependNothing(body: Option<(string, nat)>)
    ensures Prepend("", body) == body
  {
    if body.Some? {
      assert "" + body.value.0 == body.value.0;
    }
  }

  lemma PrependTwice(a: string, b: string, body: Option<(string, nat)>)
    ensures Prepend(a, Prepend(b, body)) == Prepend(a + b, body)
  {
    if body.Some? {
      assert a + (b + body.value.0) == a + b + body.value.0;
    }
  }

  // ----- Tokenizing a whole text

  /** Whether `outcome` is what lexing found, with offsets turned into positions. */
  ghost predicate IsLocated(text: string, read: Result<seq<Lexeme>, LexError>, outcome: Result<seq<Spanned>, ParseError>) {
    match read
    case Err(error) => error.offset <= |text| && outcome == Err(Locate(text, error))
    case Ok(lexemes) => InText(text, lexemes) && outcome == Ok(LocateAll(text, lexemes))
  }

  /** Splits `sql` into tokens, each with the line and column of its first character. */
  method Tokenize(sql: string) returns (outcome: Result<seq<Spanned>, ParseError>)
    ensures IsLocated(sql, Lex(sql, 0), outcome)
  {
    var lexer := new Lexer(sql);
    var tokens: seq<Spanned> := [];
    ghost var lexemes: seq<Lexeme> := [];
    AfterNothing(Lex(sql, 0));
    while true
      invariant fresh(lexer) && lexer.Valid() && lexer.chars == sql
      invariant InText(sql, lexemes) && tokens == LocateAll(sql, lexemes)
      invariant Lex(sql, 0) == After(lexemes, Lex(sql, lexer.index))
      decreases |sql| - lexer.index
    {
      ghost var before := lexer.index;
      var failure := lexer.SkipTrivia();
      if failure.Some? {
        return Err(failure.value);
      }
      ghost var start := lexer.index;
      var position := lexer.position;
      var read := lexer.NextToken();
      if read.Err? {
        return Err(read.error);
      }
      tokens := tokens + [Spanned(read.value, position)];
      if read.value == Eof {
        LexAtEnd(sql, before);
        lexemes := lexemes + [Lexeme(Eof, start)];
        assert tokens == LocateAll(sql, lexemes);
        return Ok(tokens);
      }
      LexToken(sql, before, start, read.value, lexer.index);
      AfterTwice(lexemes, [Lexeme(read.value, start)], Lex(sql, lexer.index));
      lexemes := lexemes + [Lexeme(read.value, start)];
    }
  }

  lemma AfterNothing(read: Result<seq<Lexeme>, LexError>)
    ensures After([], read) == read
  {
    if read.Ok? {
      assert [] + read.value == read.value;
    }
  }

  lemma AfterTwice(a: seq<Lexeme>, b: seq<Lexeme>, read: Result<seq<Lexeme>, LexError>)
    ensures After(a, After(b, read)) == After(a + b, read)
  {
    if read.Ok? {
      assert a + (b + read.value) == a + b + read.value;
    }
  }
}
